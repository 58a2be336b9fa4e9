/**
 * The two text displays of the watchface: the battery line and the clock.
 * Both are pure functions of the values the handlers receive; the C library
 * calls that render them into fixed-size buffers are modelled explicitly,
 * truncation included, and shown never to truncate for the values the
 * handlers can receive.
 */
module Display {

  datatype Option<T> = None | Some(value: T)

  predicate IsDigit(c: char)
  {
    '0' <= c <= '9'
  }

  predicate AllDigits(s: string)
  {
    forall i :: 0 <= i < |s| ==> IsDigit(s[i])
  }

  function DigitChar(d: nat): (c: char)
    requires d < 10
    ensures IsDigit(c) && DigitValue(c) == d
  {
    ('0' as int + d) as char
  }

  function DigitValue(c: char): (d: nat)
    requires IsDigit(c)
    ensures d < 10
  {
    c as int - '0' as int
  }

  function Pow10(k: nat): (p: nat)
    ensures p >= 1
  {
    if k == 0 then 1 else 10 * Pow10(k - 1)
  }

  /** The `%d` conversion of a non-negative value: its decimal digits, no leading zero. */
  function Decimal(n: nat): (s: string)
    ensures |s| >= 1 && AllDigits(s)
    ensures s[0] == '0' ==> n == 0
  {
    if n < 10 then [DigitChar(n)] else Decimal(n / 10) + [DigitChar(n % 10)]
  }

  /** The value a string of decimal digits denotes. */
  function ParseDecimal(s: string): (n: nat)
    requires AllDigits(s)
    ensures n < Pow10(|s|)
  {
    if s == [] then 0 else ParseDecimal(s[..|s| - 1]) * 10 + DigitValue(s[|s| - 1])
  }

  lemma {:induction false} DecimalRoundTrip(n: nat)
    ensures ParseDecimal(Decimal(n)) == n
  {
    if n >= 10 {
      var p := Decimal(n / 10);
      assert (p + [DigitChar(n % 10)])[..|p|] == p;
      DecimalRoundTrip(n / 10);
    }
  }

  lemma DecimalInjective(a: nat, b: nat)
    ensures Decimal(a) == Decimal(b) <==> a == b
  {
    DecimalRoundTrip(a);
    DecimalRoundTrip(b);
  }

  /** A value below 10^k prints in at most k digits. */
  lemma {:induction false} DecimalLength(n: nat, k: nat)
    requires 1 <= k && n < Pow10(k)
    ensures |Decimal(n)| <= k
  {
    if n >= 10 {
      assert k >= 2;
      assert n / 10 < Pow10(k - 1);
      DecimalLength(n / 10, k - 1);
    }
  }

  /**
   * `snprintf` into a buffer of `size` bytes: the text if it fits with its
   * terminating NUL, otherwise its longest prefix that does.
   */
  function Snprintf(size: nat, text: string): (r: string)
    requires size >= 1
    ensures |r| < size && |r| <= |text| && r == text[..|r|]
    ensures |text| < size <==> r == text
    ensures |r| == if |text| < size then |text| else size - 1
  {
    if |text| < size then text else text[..size - 1]
  }

  /**
   * `strftime` into a buffer of `maxsize` bytes: the text if it fits with its
   * terminating NUL, otherwise no result (the call returns 0).
   */
  function Strftime(maxsize: nat, text: string): (r: Option<string>)
    ensures r.Some? <==> |text| < maxsize
    ensures r.Some? ==> r.value == text
  {
    if |text| < maxsize then Some(text) else None
  }

  /** The battery's charge level, an unsigned 8-bit field in the platform's charge state. */
  type Percent = p: int | 0 <= p < 256

  /** Size of the battery line's static buffer. */
  const BatteryBufferSize: nat := 32

  /** The battery line: "charging" while charging, else the percent and "% charged". */
  function BatteryText(isCharging: bool, percent: Percent): (r: string)
    ensures isCharging ==> r == "charging"
    ensures !isCharging ==> r == Decimal(percent) + "% charged"
    ensures |r| < BatteryBufferSize
  {
    DecimalLength(percent, 3);
    Snprintf(BatteryBufferSize, if isCharging then "charging" else Decimal(percent) + "% charged")
  }

  /** Two battery lines are equal exactly when they show the same charge state. */
  lemma BatteryTextDistinguishes(c1: bool, p1: Percent, c2: bool, p2: Percent)
    ensures BatteryText(c1, p1) == BatteryText(c2, p2) <==> c1 == c2 && (c1 || p1 == p2)
  {
    if BatteryText(c1, p1) == BatteryText(c2, p2) && !c1 && !c2 {
      var a, b := Decimal(p1), Decimal(p2);
      assert |a| == |b|;
      assert a == (a + "% charged")[..|a|] == (b + "% charged")[..|b|] == b;
      DecimalInjective(p1, p2);
    }
  }

  /** The hour and minute fields of the broken-down time the clock handler receives. */
  datatype ClockTime = ClockTime(hour: int, minute: int)

  /** The field ranges inside which `strftime` defines `%H` and `%M`. */
  predicate ValidTime(t: ClockTime)
  {
    0 <= t.hour <= 23 && 0 <= t.minute <= 59
  }

  /** Size of the clock's static buffer, that of "00:00". */
  const ClockBufferSize: nat := 6

  /** `%H` and `%M`: a value below 100 as exactly two decimal digits. */
  function TwoDigits(n: nat): (s: string)
    requires n < 100
    ensures |s| == 2 && AllDigits(s) && ParseDecimal(s) == n
  {
    var s := [DigitChar(n / 10), DigitChar(n % 10)];
    assert s[..1] == [s[0]];
    s
  }

  /** `strftime` with "%H:%M": zero-padded 24-hour "HH:MM". */
  function ClockText(t: ClockTime): (r: Option<string>)
    requires ValidTime(t)
    ensures r.Some? && |r.value| == 5 && r.value[2] == ':'
    ensures AllDigits(r.value[..2]) && AllDigits(r.value[3..])
  {
    var text := TwoDigits(t.hour) + ":" + TwoDigits(t.minute);
    assert text[..2] == TwoDigits(t.hour) && text[3..] == TwoDigits(t.minute);
    Strftime(ClockBufferSize, text)
  }

  /** Reads back the hour and minute from an "HH:MM" text. */
  function ParseClock(s: string): (r: Option<ClockTime>)
    ensures r.Some? ==> |s| == 5 && s[2] == ':'
  {
    if |s| == 5 && s[2] == ':' && AllDigits(s[..2]) && AllDigits(s[3..])
    then Some(ClockTime(ParseDecimal(s[..2]), ParseDecimal(s[3..])))
    else None
  }

  /** The clock text reads back as the time it shows. */
  lemma ClockRoundTrip(t: ClockTime)
    requires ValidTime(t)
    ensures ParseClock(ClockText(t).value) == Some(t)
  {
    var text := TwoDigits(t.hour) + ":" + TwoDigits(t.minute);
    assert text[..2] == TwoDigits(t.hour) && text[3..] == TwoDigits(t.minute);
  }

  /** Two digits are reproduced by printing back the value they denote. */
  lemma TwoDigitsOfParse(s: string)
    requires |s| == 2 && AllDigits(s)
    ensures ParseDecimal(s) < 100 && TwoDigits(ParseDecimal(s)) == s
  {
  }

  /** Every text that reads back as a valid time is the clock text of that time. */
  lemma ParseClockSound(s: string)
    requires ParseClock(s).Some? && ValidTime(ParseClock(s).value)
    ensures ClockText(ParseClock(s).value) == Some(s)
  {
    TwoDigitsOfParse(s[..2]);
    TwoDigitsOfParse(s[3..]);
    assert s == s[..2] + ":" + s[3..];
  }

  lemma ClockExamples()
    ensures ClockText(ClockTime(9, 5)) == Some("09:05")
    ensures ClockText(ClockTime(23, 59)) == Some("23:59")
  {
    assert TwoDigits(9) + ":" + TwoDigits(5) == "09:05";
    assert TwoDigits(23) + ":" + TwoDigits(59) == "23:59";
  }

  lemma BatteryExamples(p: Percent)
    ensures BatteryText(false, 57) == "57% charged"
    ensures BatteryText(true, p) == "charging"
  {
  }
}
