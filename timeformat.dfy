/**
  Rendering of a duration with the custom TimeSpan format `dd\.hh\:mm\:ss`: whole days
  with at least two digits, then hours, minutes and seconds with two digits each. A
  duration is a signed count of 100-nanosecond ticks; custom formats print no sign.
 */
module TimeFormat {
  import opened Wrappers
  import opened Text

  const TicksPerSecond: nat := 10_000_000
  const TicksPerMinute: nat := 600_000_000
  const TicksPerHour: nat := 36_000_000_000
  const TicksPerDay: nat := 864_000_000_000

  /** The fields a custom TimeSpan format prints. */
  datatype Clock = Clock(days: nat, hours: nat, minutes: nat, seconds: nat)

  function Abs(x: int): nat {
    if x < 0 then -x else x
  }

  /** C#'s `/` on integers, which rounds toward zero. */
  function TruncDiv(a: int, b: nat): int
    requires b > 0
  {
    if a >= 0 then a / b else -((-a) / b)
  }

  /** C#'s `%` on integers, whose result has the sign of the dividend. */
  function TruncRem(a: int, b: nat): int
    requires b > 0
  {
    if a >= 0 then a % b else -((-a) % b)
  }

  /** Division with remainder is unique. */
  lemma DivModUnique(a: int, b: int, q: int, r: int)
    requires b > 0 && a == b * q + r && 0 <= r < b
    ensures a / b == q && a % b == r
  {
    var q', r' := a / b, a % b;
    assert b * (q - q') == r' - r;
    SmallMultiple(b, q - q');
  }

  lemma SmallMultiple(b: int, k: int)
    requires b > 0 && -b < b * k < b
    ensures k == 0
  {
  }

  /** The clock fields of a whole number of seconds. */
  function ClockOf(n: nat): (c: Clock)
    ensures c.hours < 24 && c.minutes < 60 && c.seconds < 60
    ensures c.days * 86400 + c.hours * 3600 + c.minutes * 60 + c.seconds == n
  {
    var r := n % 86400;
    var r2 := r % 3600;
    assert n == 86400 * (n / 86400) + r;
    assert r == 3600 * (r / 3600) + r2;
    assert r2 == 60 * (r2 / 60) + r2 % 60;
    Clock(n / 86400, r / 3600, r2 / 60, r2 % 60)
  }

  /**
    The fields as the custom formatter computes them: truncating division by a day,
    both parts negated for a negative duration, then hours, minutes and seconds of the
    remainder. They are the clock fields of the whole seconds of the absolute duration.
   */
  function Components(ticks: int): (c: Clock)
    ensures c == ClockOf(Abs(ticks) / TicksPerSecond)
    ensures c.hours < 24 && c.minutes < 60 && c.seconds < 60
    ensures c.days * 86400 + c.hours * 3600 + c.minutes * 60 + c.seconds == Abs(ticks) / TicksPerSecond
  {
    var day := TruncDiv(ticks, TicksPerDay);
    var time := TruncRem(ticks, TicksPerDay);
    var d := if ticks < 0 then -day else day;
    var t := if ticks < 0 then -time else time;
    AbsSplit(Abs(ticks), d, t);
    Clock(d, t / TicksPerHour % 24, t / TicksPerMinute % 60, t / TicksPerSecond % 60)
  }

  lemma AbsSplit(a: nat, d: int, t: int)
    requires d == a / TicksPerDay && t == a % TicksPerDay
    ensures var c := ClockOf(a / TicksPerSecond);
      && d == c.days
      && t / TicksPerHour % 24 == c.hours
      && t / TicksPerMinute % 60 == c.minutes
      && t / TicksPerSecond % 60 == c.seconds
  {
    var x, u := t / TicksPerSecond, t % TicksPerSecond;
    assert t == TicksPerSecond * x + u;
    assert x < 86400;
    var n := a / TicksPerSecond;
    DivModUnique(a, TicksPerSecond, 86400 * d + x, u);
    assert n == 86400 * d + x;
    DivModUnique(n, 86400, d, x);
    var c := ClockOf(n);
    var h, r2 := x / 3600, x % 3600;
    assert x == 3600 * h + r2 && h < 24;
    var m, sec := r2 / 60, r2 % 60;
    assert r2 == 60 * m + sec;
    assert c == Clock(d, h, m, sec);
    DivModUnique(t, TicksPerHour, h, TicksPerSecond * r2 + u);
    DivModUnique(t, TicksPerMinute, 60 * h + m, TicksPerSecond * sec + u);
    DivModUnique(60 * h + m, 60, h, m);
    DivModUnique(x, 60, 60 * h + m, sec);
  }

  /** `ts.ToString(@"dd\.hh\:mm\:ss")`. */
  function TimePrinter(ticks: int): (s: string)
    ensures |s| >= 11
    ensures |s| > 11 ==> s[0] != '0'
  {
    var c := Components(ticks);
    TwoDigitsOfSmall(c.hours);
    TwoDigitsOfSmall(c.minutes);
    TwoDigitsOfSmall(c.seconds);
    FormatDigits(c.days, 2)
      + ("." + FormatDigits(c.hours, 2) + ":" + FormatDigits(c.minutes, 2) + ":" + FormatDigits(c.seconds, 2))
  }

  /** Reads `d+.hh:mm:ss` back into its fields. */
  function ParseDuration(s: string): Option<Clock> {
    if |s| < 11 then None else ParseFields(s[..|s| - 9], s[|s| - 9..])
  }

  function PairValue(a: char, b: char): nat
    requires IsDigit(a) && IsDigit(b)
  {
    DigitValue(a) * 10 + DigitValue(b)
  }

  /** Reads the days digits `d` and the fixed-width tail `.hh:mm:ss`. */
  function ParseFields(d: string, t: string): Option<Clock>
    requires |t| == 9
  {
    if t[0] == '.' && t[3] == ':' && t[6] == ':' && AllDigits(d)
      && IsDigit(t[1]) && IsDigit(t[2]) && IsDigit(t[4]) && IsDigit(t[5]) && IsDigit(t[7]) && IsDigit(t[8])
    then Some(Clock(ParseDigits(d), PairValue(t[1], t[2]), PairValue(t[4], t[5]), PairValue(t[7], t[8])))
    else None
  }

  lemma ParseDurationSplit(d: string, tail: string)
    requires |d| >= 2 && |tail| == 9
    ensures ParseDuration(d + tail) == ParseFields(d, tail)
  {
    var s := d + tail;
    assert s[..|s| - 9] == d;
    assert s[|s| - 9..] == tail;
  }

  lemma PairValueOfTwoDigits(s: string)
    requires |s| == 2 && AllDigits(s)
    ensures PairValue(s[0], s[1]) == ParseDigits(s)
  {
    var init := s[..1];
    assert init[..0] == [] && init[0] == s[0];
    assert ParseDigits(init) == DigitValue(s[0]);
  }

  lemma TailChars(h: string, m: string, sec: string)
    requires |h| == 2 && |m| == 2 && |sec| == 2
    ensures "." + h + ":" + m + ":" + sec == ['.', h[0], h[1], ':', m[0], m[1], ':', sec[0], sec[1]]
  {
  }

  lemma ParseFieldsOfChars(d: string, h0: char, h1: char, m0: char, m1: char, s0: char, s1: char)
    requires AllDigits(d)
    requires IsDigit(h0) && IsDigit(h1) && IsDigit(m0) && IsDigit(m1) && IsDigit(s0) && IsDigit(s1)
    ensures ParseFields(d, ['.', h0, h1, ':', m0, m1, ':', s0, s1])
      == Some(Clock(ParseDigits(d), PairValue(h0, h1), PairValue(m0, m1), PairValue(s0, s1)))
  {
  }

  lemma ParseFieldsOfTail(d: string, h: string, m: string, sec: string)
    requires |h| == 2 && |m| == 2 && |sec| == 2
    requires AllDigits(d) && AllDigits(h) && AllDigits(m) && AllDigits(sec)
    ensures ParseFields(d, "." + h + ":" + m + ":" + sec)
      == Some(Clock(ParseDigits(d), ParseDigits(h), ParseDigits(m), ParseDigits(sec)))
  {
    TailChars(h, m, sec);
    ParseFieldsOfChars(d, h[0], h[1], m[0], m[1], sec[0], sec[1]);
    PairValueOfTwoDigits(h);
    PairValueOfTwoDigits(m);
    PairValueOfTwoDigits(sec);
  }

  /** The printed duration reads back as the clock fields of the whole seconds of its absolute value. */
  lemma TimePrinterRoundTrip(ticks: int)
    ensures ParseDuration(TimePrinter(ticks)) == Some(ClockOf(Abs(ticks) / TicksPerSecond))
  {
    var c := Components(ticks);
    TwoDigitsOfSmall(c.hours);
    TwoDigitsOfSmall(c.minutes);
    TwoDigitsOfSmall(c.seconds);
    var d, h, m, sec := FormatDigits(c.days, 2), FormatDigits(c.hours, 2),
      FormatDigits(c.minutes, 2), FormatDigits(c.seconds, 2);
    ParseDurationSplit(d, "." + h + ":" + m + ":" + sec);
    ParseFieldsOfTail(d, h, m, sec);
  }

  /** A negative duration prints exactly as its absolute value. */
  lemma TimePrinterIgnoresSign(ticks: int)
    ensures TimePrinter(-ticks) == TimePrinter(ticks)
  {
    assert Components(-ticks) == Components(ticks);
  }

  /** Two durations print the same text exactly when their absolute values have the same whole seconds. */
  lemma TimePrinterSameText(a: int, b: int)
    ensures TimePrinter(a) == TimePrinter(b) <==> Abs(a) / TicksPerSecond == Abs(b) / TicksPerSecond
  {
    if TimePrinter(a) == TimePrinter(b) {
      TimePrinterRoundTrip(a);
      TimePrinterRoundTrip(b);
      var ca, cb := ClockOf(Abs(a) / TicksPerSecond), ClockOf(Abs(b) / TicksPerSecond);
      assert ca == cb;
    }
  }

  /** Two hours print as `00.02:00:00`. */
  lemma TwoHours()
    ensures TimePrinter(2 * TicksPerHour) == "00.02:00:00"
  {
    assert Components(2 * TicksPerHour) == Clock(0, 2, 0, 0);
    assert Digits(0) == "0" && Digits(2) == "2";
  }
}
