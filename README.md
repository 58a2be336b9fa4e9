# KirbTime watchface — a verified model of its logic

KirbTime is a Pebble watchface. It shows a digital clock, a battery line and
a small sprite ("Kirb") that walks across the screen. Three 16x16 bitmap
layers sit on row 60, one per leg position. One layer is on screen at a time.
Every 125 ms a timer callback parks the shown layer at x = -16 and picks the
next leg position from a fixed table that a stride flag `dx` steers. It then
shows that layer one pixel further right. Once the old x exceeds
144 - 16 = 128, the new layer restarts at x = 1. The clock handler formats
the time as zero-padded 24-hour "HH:MM". The battery handler writes
"charging" or "<percent>% charged".

The project has two modules:

- `animation.dfy` (module `Animation`) models the walk.
  - `Step` is one timer tick as a function on an explicit `State`: the three
    layer frames, the frame index, the layer the active-layer pointer
    designates, and the stride flag.
  - `KirbWalk` is a class holding an array of the three layer frames and the
    globals. Its `Tick` updates them in place, as the callback does, and is
    proved to agree with `Step`.
  - The lemmas cover the transition table, parking, the one-pixel step and
    its wrap, the invariant reachable states keep, and the closed form of
    the walk. The frame cycle repeats every 4 ticks and the whole animation
    repeats every 516 ticks.
- `display.dfy` (module `Display`) models the two text formatters as pure
  functions. It spells out `%d`, the two-digit `%H`/`%M` conversions and the
  truncation rules of `snprintf` and `strftime`. It proves that neither
  buffer ever truncates, that the clock text reads back as the time it shows
  (both directions), and that the battery line tells charge states apart.

The active-layer pointer (`active_kirb`) is modelled as its own layer index,
`activeKirb`. It is not derived from `active_frame`. So `Tick` and `Step`
accept any frame index, as the C code does: the final `else` catches any
`active_frame` other than 0 and 1. They also accept a pointer that
disagrees with the index. `Step`'s contract shows that one tick brings the
two back into agreement.

Two details of the code are easy to misread:

- The new x is the old x plus 1, not plus the stride flag
  (src/main.c:59). `dx` only steers the leg cycle 1, 2, 1, 0, 1, …, and the
  sprite never walks left.
- The wrap resets the working x before the new layer is placed. So after
  x = 129 the sprite reappears at x = 1, not at x = 0.

## Model

| member | source | states |
|---|---|---|
| Animation.NextFrame | src/main.c:35-58 | The leg table. The next frame is never the current one and is one of 0, 1, 2. It is 2 exactly when frame 1 meets `dx == 1`, 0 exactly when frame 1 meets any other `dx`, and 1 exactly when the frame is not 1. From 0, `dx` becomes 1. From 1, `dx` is kept. From any other index, including out-of-range ones, `dx` becomes -1 |
| Animation.Step | src/main.c:21-60 | After one tick from any state whose pointer designates one of the three layers, the frame index is in {0,1,2}. It differs from the old index, and the active-layer pointer designates that same layer |
| Animation.Run | src/main.c:21-62 | Repeated ticks keep the pointer on one of the three layers |
| Animation.StepMovesRight | src/main.c:29-32 | The new shown layer is at old x + 1, or at 1 if old x > 128. Its y is the old y and its size is 16x16 |
| Animation.StepParksOldLayer | src/main.c:27-58 | When pointer and index agree, the previously shown layer ends at x = -16 with its y kept. The layer that is neither old nor new is untouched |
| Animation.StepStaysInInt16 | src/main.c:27-60 | If all coordinates fit the 16-bit signed frame fields, they still fit after a tick |
| Animation.Initial | src/main.c:104-116 | The window-load layout: layer 1 shown at x = 63, layers 0 and 2 parked at x = -16, all on row 60 and 16x16, frame 1, pointer on layer 1, dx 1. This layout satisfies the walk invariant |
| Animation.StepPreservesValid | src/main.c:27-60 | A tick preserves the invariant. Pointer and index agree, dx is 1 or -1, the shown layer is on row 60 with 0 <= x <= 129, and the other two are parked |
| Animation.ValidOneVisible | src/main.c:27-60 | In every invariant state, exactly one layer has x >= 0, and it is the active one |
| Animation.RunValid | src/main.c:104-116 | Every state reached from the window-load layout, after any number of ticks, satisfies the invariant |
| Animation.FrameAtSucc | src/main.c:35-58 | The periodic sequence 1, 2, 1, 0 with dx 1, 1, -1, -1 is the orbit of the transition table |
| Animation.XAtSucc | src/main.c:29-60 | The closed form (62 + n) mod 129 + 1 of the shown x follows the one-pixel step and the wrap |
| Animation.RunClosedForm | src/main.c:27-60 | After n ticks from window load, the frame is [1,2,1,0][n mod 4], dx is 1 for n mod 4 < 2 and -1 otherwise, and the shown x is (62 + n) mod 129 + 1 |
| Animation.FramePeriodFour | src/main.c:35-58 | From window load, the frame sequence repeats every 4 ticks |
| Animation.RunPeriodic | src/main.c:27-60 | From window load, the whole state (all three frames, index, pointer, dx) repeats every 516 ticks |
| Animation.KirbWalk.constructor | src/main.c:104-116 | Window load creates the three layer frames at x = -16, 63, -16 on row 60, with frame 1 active, the pointer on layer 1 and dx = 1. This state satisfies the invariant |
| Animation.KirbWalk.Tick | src/main.c:21-61 | The in-place callback leaves exactly the state `Step` gives for the old state. Afterwards the frame index is in range, differs from the old one and agrees with the pointer. The invariant is kept |
| Display.Decimal | src/main.c:79 | `%d` of a non-negative value is a non-empty digit string without a leading zero |
| Display.DecimalRoundTrip | src/main.c:79 | Reading the `%d` digits back gives the printed value |
| Display.DecimalInjective | src/main.c:79 | Two values print the same digits exactly when they are equal |
| Display.DecimalLength | src/main.c:74-79 | A value below 10^k prints in at most k digits |
| Display.Snprintf | src/main.c:77-79 | `snprintf` output is a prefix of the text that fits the buffer with its NUL. It equals the whole text exactly when the text fits; otherwise it is exactly the first size - 1 characters |
| Display.Strftime | src/main.c:67 | `strftime` yields the text exactly when it fits the buffer with its NUL, and nothing otherwise |
| Display.BatteryText | src/main.c:73-82 | While charging, the line is exactly "charging", whatever the percent. Otherwise it is exactly the decimal percent followed by "% charged". For every 8-bit percent it fits the 32-byte buffer untruncated |
| Display.BatteryTextDistinguishes | src/main.c:76-80 | Two battery lines are equal exactly when both are charging, or both are not and show the same percent |
| Display.BatteryExamples | src/main.c:76-80 | 57 percent not charging gives "57% charged". Charging gives "charging" for any percent |
| Display.TwoDigits | src/main.c:67 | `%H`/`%M` of a value below 100 is exactly two digits that read back as the value |
| Display.ClockText | src/main.c:65-71 | For a valid hour and minute, `strftime("%H:%M")` into the 6-byte buffer succeeds. It gives five characters: two digits, ':', two digits |
| Display.ClockRoundTrip | src/main.c:67 | The clock text reads back as the hour and minute it was made from |
| Display.ParseClockSound | src/main.c:67 | Every text that reads back as a valid time is the clock text of that time |
| Display.ClockExamples | src/main.c:67 | 09:05 renders as "09:05" and 23:59 as "23:59" |

## Left out

- Window, text, inverter and bitmap layer creation, composition and destruction (src/main.c:84-120, 137-151, 153-172). These are calls into the platform's GUI with no logic. Only the coordinates stored in the three sprite layers' frames are modelled.
- Timer registration, re-arming every 125 ms and cancellation at unload (src/main.c:62, 134, 150), and the minute-tick and battery service subscriptions (src/main.c:164, 167). This is event-loop scheduling. `Run` stands for a sequence of timer firings.
- Reading the wall clock (`time`, `localtime`) and the battery snapshot (src/main.c:122-131). These are host I/O. The formatters take the values as parameters.
- Loading the sprite bitmaps and fonts (src/main.c:89, 103-113), and pixel rendering, including how the wrap looks on screen.
- The `text_layer_set_text(s_text_layer, GColorBlack)` call (src/main.c:87): it passes a colour where text is expected and has no meaning to model.
- The state before the window loads: `active_frame` is 0 and `active_kirb` is an unset pointer. No timer runs then, so `Tick` requires the pointer to designate one of the three layers.
- The platform header pebble.h is not part of this model. The model takes the battery percent as an unsigned 8-bit value and layer coordinates as 16-bit signed values, the field types of the platform's charge state and frame rectangle. `Step` computes on unbounded integers, and `StepStaysInInt16` shows that no tick leaves the 16-bit range.
- Display.ClockText: requires the hour in 0..23 and the minute in 0..59. Outside those ranges the C standard leaves the characters `strftime` stores for `%H` and `%M` unspecified.
- Animation.StepParksOldLayer: requires the pointer and the frame index to agree. If they disagree, the new layer can be the one just parked, which is then placed on screen again. That case can only arise if the pointer is set before window load, which no tick sees.
