/**
 * The sprite walk of the watchface: three 16x16 bitmap layers, one per leg
 * position, of which exactly one is on screen at a time. Every timer tick
 * parks the shown layer off-screen, picks the next leg position from a fixed
 * table steered by a stride flag, and shows that layer one pixel further
 * right, wrapping back to the left edge past the right one.
 *
 * `Step` is the specification of one tick on values; the class `KirbWalk`
 * is the in-place version that the timer callback runs, proved to agree
 * with `Step`. The lemmas state what the walk promises.
 */
module Animation {

  /** Screen width in pixels. */
  const MaxX: int := 144
  /** Side of the square sprite bitmaps. */
  const KirbSize: int := 16
  /** Off-screen x at which the layers that are not shown are parked. */
  const ParkedX: int := -16
  /** The vertical position all three layers are created at. */
  const StartY: int := 60
  /** The x at which the middle leg position is first shown. */
  const StartX: int := 63
  /** Largest x a shown layer can start a tick at without being wrapped. */
  const WrapX: int := MaxX - KirbSize

  /** A layer's frame rectangle: origin and size. */
  datatype Rect = Rect(x: int, y: int, w: int, h: int)

  /**
   * The animation's state: the frames of the three layers (index i is walk
   * frame i), the index of the shown leg position, the index of the layer the
   * active-layer pointer designates, and the stride flag.
   */
  datatype State = State(layers: seq<Rect>, activeFrame: nat, activeKirb: nat, dx: int)

  /** The active-layer pointer designates one of the three layers. */
  predicate WellFormed(s: State)
  {
    |s.layers| == 3 && s.activeKirb < 3
  }

  /** Where a layer is parked when it stops being shown: off-screen, same row. */
  function ParkedAt(y: int): Rect
  {
    Rect(ParkedX, y, KirbSize, KirbSize)
  }

  /**
   * The leg-position table: the next frame and the next stride flag.
   * Frame 0 turns the stride forward, any frame other than 0 and 1 turns it
   * back, and frame 1 goes on in the direction the flag says.
   */
  function NextFrame(frame: nat, dx: int): (r: (nat, int))
    ensures r.0 < 3 && r.0 != frame
    ensures r.0 == 2 <==> frame == 1 && dx == 1
    ensures r.0 == 0 <==> frame == 1 && dx != 1
    ensures r.0 == 1 <==> frame != 1
    ensures frame == 1 ==> r.1 == dx
    ensures frame == 0 ==> r.1 == 1
    ensures frame != 0 && frame != 1 ==> r.1 == -1
  {
    if frame == 0 then (1, 1)
    else if frame == 1 then (if dx == 1 then (2, dx) else (0, dx))
    else (1, -1)
  }

  /** One timer tick on the animation state. */
  function Step(s: State): (r: State)
    requires WellFormed(s)
    ensures WellFormed(r)
    ensures r.activeKirb == r.activeFrame
    ensures r.activeFrame != s.activeFrame
  {
    var current := s.layers[s.activeKirb];
    var x := if current.x > WrapX then 0 else current.x;
    var next := NextFrame(s.activeFrame, s.dx);
    var parked := s.layers[s.activeKirb := ParkedAt(current.y)];
    State(parked[next.0 := Rect(x + 1, current.y, KirbSize, KirbSize)], next.0, next.0, next.1)
  }

  /** The state the window sets up before the first tick. */
  function Initial(): (r: State)
    ensures Valid(r)
    ensures r.activeFrame == 1 && r.dx == 1 && r.layers[1].x == StartX
  {
    State([ParkedAt(StartY), Rect(StartX, StartY, KirbSize, KirbSize), ParkedAt(StartY)], 1, 1, 1)
  }

  /** The state after n ticks. */
  function Run(s: State, n: nat): (r: State)
    requires WellFormed(s)
    ensures WellFormed(r)
  {
    if n == 0 then s else Step(Run(s, n - 1))
  }

  /**
   * The invariant of the walk: the pointer and the frame index agree, the
   * stride flag is 1 or -1, the shown layer sits on screen between 0 and
   * WrapX + 1 on row StartY, and the other two are parked.
   */
  predicate Valid(s: State)
  {
    && WellFormed(s)
    && s.activeKirb == s.activeFrame
    && (s.dx == 1 || s.dx == -1)
    && 0 <= s.layers[s.activeKirb].x <= WrapX + 1
    && s.layers[s.activeKirb] == Rect(s.layers[s.activeKirb].x, StartY, KirbSize, KirbSize)
    && forall i :: 0 <= i < 3 && i != s.activeKirb ==> s.layers[i] == ParkedAt(StartY)
  }

  /** The new shown layer is one pixel right of the old one, or at 1 after a wrap, on the same row. */
  lemma StepMovesRight(s: State)
    requires WellFormed(s)
    ensures var c := s.layers[s.activeKirb];
            var r := Step(s);
            r.layers[r.activeKirb] == Rect(if c.x > WrapX then 1 else c.x + 1, c.y, KirbSize, KirbSize)
  {
  }

  /**
   * The layer shown before the tick is parked off-screen on its own row, and
   * the layer that is neither the old nor the new one is not touched.
   */
  lemma StepParksOldLayer(s: State)
    requires WellFormed(s) && s.activeKirb == s.activeFrame
    ensures Step(s).layers[s.activeKirb] == ParkedAt(s.layers[s.activeKirb].y)
    ensures forall i :: 0 <= i < 3 && i != s.activeKirb && i != Step(s).activeKirb ==>
              Step(s).layers[i] == s.layers[i]
  {
  }

  /** Coordinates are 16-bit signed in the layer frames; a tick never leaves that range. */
  lemma StepStaysInInt16(s: State)
    requires WellFormed(s)
    requires forall i :: 0 <= i < 3 ==> -0x8000 <= s.layers[i].x < 0x8000 && -0x8000 <= s.layers[i].y < 0x8000
    ensures forall i :: 0 <= i < 3 ==> -0x8000 <= Step(s).layers[i].x < 0x8000 && -0x8000 <= Step(s).layers[i].y < 0x8000
  {
  }

  /** A valid state has exactly one layer on screen: the shown one. */
  lemma ValidOneVisible(s: State)
    requires Valid(s)
    ensures forall i :: 0 <= i < 3 ==> (s.layers[i].x >= 0 <==> i == s.activeFrame)
  {
  }

  lemma StepPreservesValid(s: State)
    requires Valid(s)
    ensures Valid(Step(s))
  {
  }

  /** Every state reached from the initial one satisfies the invariant. */
  lemma {:induction false} RunValid(n: nat)
    ensures Valid(Run(Initial(), n))
  {
    if n > 0 {
      RunValid(n - 1);
      StepPreservesValid(Run(Initial(), n - 1));
    }
  }

  /** Leg position after n ticks from the initial state: 1, 2, 1, 0, 1, 2, ... */
  function FrameAt(n: nat): (f: nat)
    ensures f < 3
  {
    [1, 2, 1, 0][n % 4]
  }

  /** Stride flag after n ticks: forward on the way to frame 2, back on the way to frame 0. */
  function DxAt(n: nat): (d: int)
    ensures d == 1 || d == -1
  {
    if n % 4 < 2 then 1 else -1
  }

  /** Shown x after n ticks: 63, 64, ..., 129, 1, 2, ..., 129, 1, ... */
  function XAt(n: nat): (x: int)
    ensures 1 <= x <= WrapX + 1
  {
    (StartX - 1 + n) % (WrapX + 1) + 1
  }

  /** The closed forms of the leg position and stride flag follow the table. */
  lemma FrameAtSucc(n: nat)
    ensures FrameAt(n + 1) == NextFrame(FrameAt(n), DxAt(n)).0
    ensures DxAt(n + 1) == NextFrame(FrameAt(n), DxAt(n)).1
  {
  }

  /** The closed form of the shown x follows the one-pixel step and the wrap. */
  lemma XAtSucc(n: nat)
    ensures XAt(n + 1) == if XAt(n) > WrapX then 1 else XAt(n) + 1
  {
  }

  lemma {:induction false} RunClosedForm(n: nat)
    ensures Run(Initial(), n).activeFrame == FrameAt(n)
    ensures Run(Initial(), n).dx == DxAt(n)
    ensures Run(Initial(), n).layers[FrameAt(n)].x == XAt(n)
  {
    if n > 0 {
      var prev := Run(Initial(), n - 1);
      RunClosedForm(n - 1);
      RunValid(n - 1);
      StepMovesRight(prev);
      FrameAtSucc(n - 1);
      XAtSucc(n - 1);
    }
  }

  /** A valid state is determined by its frame, its stride flag and the shown x. */
  lemma ValidDetermined(s: State, t: State)
    requires Valid(s) && Valid(t)
    requires s.activeFrame == t.activeFrame && s.dx == t.dx
    requires s.layers[s.activeFrame].x == t.layers[t.activeFrame].x
    ensures s == t
  {
  }

  /** The leg cycle repeats every 4 ticks. */
  lemma {:induction false} FramePeriodFour(n: nat)
    ensures Run(Initial(), n + 4).activeFrame == Run(Initial(), n).activeFrame
  {
    RunClosedForm(n);
    RunClosedForm(n + 4);
  }

  /** The closed forms repeat every 516 ticks. */
  lemma ClosedFormPeriodic(n: nat)
    ensures FrameAt(n + 516) == FrameAt(n) && DxAt(n + 516) == DxAt(n) && XAt(n + 516) == XAt(n)
  {
  }

  /** The whole animation repeats every 516 ticks: 4 leg positions times 129 x positions. */
  lemma {:induction false} RunPeriodic(n: nat)
    ensures Run(Initial(), n + 516) == Run(Initial(), n)
  {
    var s, t := Run(Initial(), n + 516), Run(Initial(), n);
    RunClosedForm(n);
    RunClosedForm(n + 516);
    RunValid(n);
    RunValid(n + 516);
    ClosedFormPeriodic(n);
    ValidDetermined(s, t);
  }

  /**
   * The three layers and the globals the timer callback updates in place:
   * `layers` holds the frames of layers 0, 1 and 2, `activeKirb` the layer the
   * active-layer pointer designates.
   */
  class KirbWalk {
    const layers: array<Rect>
    var activeFrame: nat
    var activeKirb: nat
    var dx: int

    ghost function View(): State
      reads this, layers
    {
      State(layers[..], activeFrame, activeKirb, dx)
    }

    /** The layout set up when the window loads. */
    constructor ()
      ensures fresh(layers) && layers.Length == 3
      ensures View() == Initial()
      ensures Valid(View())
    {
      layers := new Rect[] [ParkedAt(StartY), Rect(StartX, StartY, KirbSize, KirbSize), ParkedAt(StartY)];
      activeFrame, activeKirb, dx := 1, 1, 1;
    }

    /** The timer callback: advance the walk by one tick. */
    method Tick()
      requires layers.Length == 3 && activeKirb < 3
      modifies this, layers
      ensures View() == Step(old(View()))
      ensures activeFrame < 3 && activeKirb == activeFrame && activeFrame != old(activeFrame)
      ensures Valid(old(View())) ==> Valid(View())
    {
      ghost var before := View();
      var current := layers[activeKirb];
      var next := ParkedAt(current.y);
      if current.x > WrapX {
        current := current.(x := 0);
      }
      if activeFrame == 0 {
        layers[activeKirb] := next;
        activeKirb := 1;
        activeFrame := 1;
        dx := 1;
      } else if activeFrame == 1 {
        if dx == 1 {
          layers[activeKirb] := next;
          activeKirb := 2;
          activeFrame := 2;
        } else {
          layers[activeKirb] := next;
          activeKirb := 0;
          activeFrame := 0;
        }
      } else {
        layers[activeKirb] := next;
        activeKirb := 1;
        activeFrame := 1;
        dx := -1;
      }
      next := Rect(current.x + 1, current.y, KirbSize, KirbSize);
      layers[activeKirb] := next;
      if Valid(before) {
        StepPreservesValid(before);
      }
    }
  }
}
