/**
 * `formatTime` (App.js) renders a duration given in milliseconds as
 * "<h>h <m>m <s>s", "<m>m <s>s" or "<s>s". The arithmetic follows
 * JavaScript: `Math.floor` on a quotient, and `%` whose remainder takes the
 * sign of the dividend. `ParseClock` reads such a text back into the three
 * numbers it shows; it is the independent partner that shows the display
 * gives each of them exactly.
 */
module Format {
  import opened Wrappers

  const MsPerSecond := 1000

  /** JavaScript's `a % b` for a positive divisor: truncating, so the
      remainder has the sign of `a`. */
  function JsRem(a: int, b: int): (r: int)
    requires b > 0
    ensures a >= 0 ==> 0 <= r < b
    ensures a < 0 ==> -b < r <= 0
    ensures (a - r) % b == 0
  {
    if a >= 0 then
      NonNegativeRem(a, b);
      a % b
    else
      NegativeRem(a, b);
      -((-a) % b)
  }

  lemma NonNegativeRem(a: int, b: int)
    requires a >= 0 && b > 0
    ensures (a - a % b) % b == 0
  {
    var q := a / b;
    assert a == q * b + a % b;
    MultipleMod(q, b);
  }

  lemma NegativeRem(a: int, b: int)
    requires a < 0 && b > 0
    ensures (a - -((-a) % b)) % b == 0
  {
    var n, q := -a, (-a) / b;
    assert n == q * b + n % b;
    assert a - -(n % b) == -(q * b);
    assert -(q * b) == (-q) * b;
    MultipleMod(-q, b);
  }

  lemma {:induction false} AtLeastDivisor(k: int, b: int)
    requires b > 0 && k > 0
    ensures k * b >= b
  {
    if k > 1 {
      AtLeastDivisor(k - 1, b);
      assert k * b == (k - 1) * b + b;
    }
  }

  /** A multiple of `b` leaves no remainder. */
  lemma MultipleMod(q: int, b: int)
    requires b > 0
    ensures (q * b) % b == 0
  {
    var x := q * b;
    var d, m := x / b, x % b;
    assert x == d * b + m;
    var k := q - d;
    assert k * b == q * b - d * b;
    assert k * b == m;
    if k > 0 {
      AtLeastDivisor(k, b);
    } else if k < 0 {
      AtLeastDivisor(-k, b);
    }
  }

  /** The three numbers formatTime shows. */
  datatype Clock = Clock(hours: int, minutes: int, seconds: int)

  /** The decomposition at the head of formatTime. For a positive divisor,
      Dafny's `/` is the floor of the quotient, which is what
      `Math.floor(x / d)` computes. */
  function Split(ms: int): (c: Clock)
    ensures ms >= 0 ==>
      c.hours >= 0 && 0 <= c.minutes < 60 && 0 <= c.seconds < 60 &&
      c.hours * 3600 + c.minutes * 60 + c.seconds == ms / MsPerSecond
    ensures ms < 0 ==> c.hours < 0 && c.minutes <= 0 && -60 < c.seconds <= 0
    ensures ms < 0 ==> (ms / MsPerSecond - c.seconds) % 60 == 0
  {
    var total := ms / MsPerSecond;
    Clock(total / 3600, JsRem(total, 3600) / 60, JsRem(total, 60))
  }

  predicate IsDigit(c: char) {
    '0' <= c <= '9'
  }

  predicate AllDigits(s: string) {
    forall i :: 0 <= i < |s| ==> IsDigit(s[i])
  }

  function DigitChar(d: nat): (c: char)
    requires d < 10
    ensures IsDigit(c)
  {
    ('0' as int + d) as char
  }

  function DigitValue(c: char): nat
    requires IsDigit(c)
  {
    c as int - '0' as int
  }

  /** Decimal rendering of a natural number, as a template literal shows it. */
  function NatToString(n: nat): (s: string)
    ensures |s| > 0 && AllDigits(s)
    ensures n > 0 ==> s[0] != '0'
    ensures |s| == 1 || s[0] != '0'
  {
    if n < 10 then [DigitChar(n)] else NatToString(n / 10) + [DigitChar(n % 10)]
  }

  /** Decimal rendering of an integer, with a leading '-' when negative. */
  function IntToString(n: int): (s: string)
    ensures n >= 0 ==> s == NatToString(n)
    ensures n < 0 ==> s == "-" + NatToString(-n)
  {
    if n < 0 then "-" + NatToString(-n) else NatToString(n)
  }

  /** The value of a string of decimal digits. */
  function Decimal(s: string): nat
    requires AllDigits(s)
  {
    if s == [] then 0 else Decimal(s[..|s| - 1]) * 10 + DigitValue(s[|s| - 1])
  }

  /** Reads an optionally signed decimal integer: a '-' followed by
      digits, or digits alone. */
  function IntValue(s: string): Option<int> {
    if |s| > 1 && s[0] == '-' && AllDigits(s[1..]) then var magnitude: int := Decimal(s[1..]); Some(-magnitude)
    else if |s| > 0 && AllDigits(s) then Some(Decimal(s))
    else None
  }

  /** Reading the rendering of any integer, negative or not, gives it back. */
  lemma IntToStringRoundTrip(n: int)
    ensures IntValue(IntToString(n)) == Some(n)
  {
    if n < 0 {
      var s := IntToString(n);
      assert s[1..] == NatToString(-n);
      DecimalOfNatToString(-n);
    } else {
      assert !IsDigit('-');
      DecimalOfNatToString(n);
    }
  }

  lemma {:induction false} DecimalOfNatToString(n: nat)
    ensures Decimal(NatToString(n)) == n
  {
    if n >= 10 {
      var s := NatToString(n);
      assert s[..|s| - 1] == NatToString(n / 10);
      DecimalOfNatToString(n / 10);
    }
  }

  /** Number of leading digit characters. */
  function DigitRun(s: string): (k: nat)
    ensures k <= |s|
    ensures forall i :: 0 <= i < k ==> IsDigit(s[i])
    ensures k < |s| ==> !IsDigit(s[k])
  {
    if s == [] || !IsDigit(s[0]) then 0 else 1 + DigitRun(s[1..])
  }

  lemma {:induction false} DigitRunOver(d: string, rest: string)
    requires AllDigits(d)
    requires rest == [] || !IsDigit(rest[0])
    ensures DigitRun(d + rest) == |d|
  {
    if d != [] {
      assert (d + rest)[1..] == d[1..] + rest;
      DigitRunOver(d[1..], rest);
    }
  }

  /** Reads a maximal run of digits followed by the unit letter `unit`. */
  function ReadField(s: string, unit: char): Option<(nat, string)> {
    var k := DigitRun(s);
    if 0 < k < |s| && s[k] == unit then Some((Decimal(s[..k]), s[k + 1..])) else None
  }

  lemma ReadFieldOf(n: nat, u: char, unit: char, rest: string)
    requires !IsDigit(u)
    ensures ReadField(NatToString(n) + ([u] + rest), unit) ==
      if u == unit then Some((n, rest)) else None
  {
    var d := NatToString(n);
    var s := d + ([u] + rest);
    DigitRunOver(d, [u] + rest);
    assert s[..|d|] == d;
    assert s[|d| + 1..] == rest;
    DecimalOfNatToString(n);
  }

  /** Reads back the text formatTime shows: the hours, minutes and seconds
      fields it holds, a field that is not there reading as 0. */
  function ParseClock(s: string): Option<Clock> {
    match ReadField(s, 'h')
    case Some((h, r)) =>
      if |r| > 0 && r[0] == ' ' then
        match ParseMinutes(r[1..])
        case Some(c) => Some(Clock(h, c.minutes, c.seconds))
        case None => None
      else None
    case None => ParseMinutes(s)
  }

  /** Reads a text with no hours field: "<m>m <s>s" or "<s>s". */
  function ParseMinutes(s: string): Option<Clock> {
    match ReadField(s, 'm')
    case Some((m, r)) =>
      if |r| > 0 && r[0] == ' ' then
        match ParseSeconds(r[1..])
        case Some(sec) => Some(Clock(0, m, sec))
        case None => None
      else None
    case None =>
      match ParseSeconds(s)
      case Some(sec) => Some(Clock(0, 0, sec))
      case None => None
  }

  function ParseSeconds(s: string): Option<nat> {
    match ReadField(s, 's')
    case Some((n, r)) => if r == [] then Some(n) else None
    case None => None
  }

  /** formatTime: the decomposition, then the text. */
  function FormatTime(ms: int): (t: string)
    ensures |t| > 1 && t[|t| - 1] == 's'
  {
    Render(Split(ms))
  }

  /** The template literals of formatTime: which units are shown depends on
      the leading non-zero one. */
  function Render(c: Clock): (t: string)
    ensures |t| > 1 && t[|t| - 1] == 's'
  {
    if c.hours > 0 then
      IntToString(c.hours) + ("h " + (IntToString(c.minutes) + ("m " + (IntToString(c.seconds) + "s"))))
    else if c.minutes > 0 then
      IntToString(c.minutes) + ("m " + (IntToString(c.seconds) + "s"))
    else
      IntToString(c.seconds) + "s"
  }

  /** A field "<n><unit>" followed by a separating space and more text. */
  lemma SpacedField(n: nat, unit: char, tail: string)
    requires !IsDigit(unit)
    ensures ReadField(NatToString(n) + ([unit, ' '] + tail), unit) == Some((n, " " + tail))
  {
    assert [unit, ' '] + tail == [unit] + (" " + tail);
    ReadFieldOf(n, unit, unit, " " + tail);
  }

  lemma SecondsRoundTrip(sec: nat)
    ensures ParseSeconds(NatToString(sec) + "s") == Some(sec)
  {
    assert "s" == ['s'] + [];
    ReadFieldOf(sec, 's', 's', []);
  }

  /** A leading minutes field in front of a readable seconds text. */
  lemma MinutesRoundTrip(m: nat, tail: string, sec: nat)
    requires ParseSeconds(tail) == Some(sec)
    ensures ParseMinutes(NatToString(m) + ("m " + tail)) == Some(Clock(0, m, sec))
  {
    SpacedField(m, 'm', tail);
    assert (" " + tail)[1..] == tail;
  }

  /** A minutes-and-seconds text has no hours field. */
  lemma MinutesOnly(m: nat, tail: string)
    ensures ParseClock(NatToString(m) + ("m " + tail)) == ParseMinutes(NatToString(m) + ("m " + tail))
  {
    assert "m " + tail == ['m'] + (" " + tail);
    ReadFieldOf(m, 'm', 'h', " " + tail);
  }

  /** A seconds-only text has neither an hours nor a minutes field. */
  lemma SecondsOnly(sec: nat)
    ensures ParseClock(NatToString(sec) + "s") == Some(Clock(0, 0, sec))
  {
    assert "s" == ['s'] + [];
    ReadFieldOf(sec, 's', 'h', []);
    ReadFieldOf(sec, 's', 'm', []);
    SecondsRoundTrip(sec);
  }

  /** A leading hours field in front of a readable minutes-and-seconds text. */
  lemma HoursRoundTrip(h: nat, tail: string, c: Clock)
    requires ParseMinutes(tail) == Some(c)
    ensures ParseClock(NatToString(h) + ("h " + tail)) == Some(Clock(h, c.minutes, c.seconds))
  {
    var text := NatToString(h) + ("h " + tail);
    var r := " " + tail;
    SpacedField(h, 'h', tail);
    assert ReadField(text, 'h') == Some((h, r));
    assert r[1..] == tail;
    assert ParseMinutes(r[1..]) == Some(c);
  }

  /** The display of a non-negative duration shows exactly the hours,
      minutes and seconds of its split, which recompose `floor(ms / 1000)`;
      a unit is left out only when it and all larger units are zero. */
  lemma FormatTimeRoundTrip(ms: int)
    requires ms >= 0
    ensures ParseClock(FormatTime(ms)) == Some(Split(ms))
    ensures var c := ParseClock(FormatTime(ms)).value;
      c.hours * 3600 + c.minutes * 60 + c.seconds == ms / MsPerSecond
  {
    RenderRoundTrip(Split(ms));
  }

  /** Reading a rendered clock gives back the clock, field by field. */
  lemma RenderRoundTrip(c: Clock)
    requires c.hours >= 0 && c.minutes >= 0 && c.seconds >= 0
    ensures ParseClock(Render(c)) == Some(c)
  {
    if c.hours > 0 {
      RenderWithHours(c);
    } else if c.minutes > 0 {
      RenderWithMinutes(c);
    } else {
      RenderSecondsOnly(c);
    }
  }

  lemma RenderWithHours(c: Clock)
    requires c.hours > 0 && c.minutes >= 0 && c.seconds >= 0
    ensures ParseClock(Render(c)) == Some(c)
  {
    var secs := NatToString(c.seconds) + "s";
    var mins := NatToString(c.minutes) + ("m " + secs);
    assert Render(c) == NatToString(c.hours) + ("h " + mins);
    SecondsRoundTrip(c.seconds);
    MinutesRoundTrip(c.minutes, secs, c.seconds);
    HoursRoundTrip(c.hours, mins, Clock(0, c.minutes, c.seconds));
  }

  lemma RenderWithMinutes(c: Clock)
    requires c.hours == 0 && c.minutes > 0 && c.seconds >= 0
    ensures ParseClock(Render(c)) == Some(c)
  {
    var secs := NatToString(c.seconds) + "s";
    var text := NatToString(c.minutes) + ("m " + secs);
    SecondsRoundTrip(c.seconds);
    MinutesRoundTrip(c.minutes, secs, c.seconds);
    MinutesOnly(c.minutes, secs);
    assert ParseClock(text) == Some(c);
    RenderMinutesText(c);
  }

  lemma RenderMinutesText(c: Clock)
    requires c.hours == 0 && c.minutes > 0 && c.seconds >= 0
    ensures Render(c) == NatToString(c.minutes) + ("m " + (NatToString(c.seconds) + "s"))
  {
  }

  lemma RenderSecondsOnly(c: Clock)
    requires c.hours == 0 && c.minutes == 0 && c.seconds >= 0
    ensures ParseClock(Render(c)) == Some(c)
  {
    assert Render(c) == NatToString(c.seconds) + "s";
    SecondsOnly(c.seconds);
  }

  /** A negative duration (an event scheduled with a negative delay) shows
      only a seconds field, "-<k>s" with k < 60, or "0s". */
  lemma FormatTimeNegative(ms: int)
    requires ms < 0
    ensures var c := Split(ms);
      FormatTime(ms) == IntToString(c.seconds) + "s" && -60 < c.seconds <= 0
    ensures var t := FormatTime(ms);
      |t| > 1 && t[|t| - 1] == 's' && IntValue(t[..|t| - 1]) == Some(Split(ms).seconds)
  {
    var c := Split(ms);
    var t := FormatTime(ms);
    assert t[..|t| - 1] == IntToString(c.seconds);
    IntToStringRoundTrip(c.seconds);
  }

  lemma NoLetterAmongDigits(s: string, letter: char)
    requires AllDigits(s) && !IsDigit(letter)
    ensures letter !in s
  {
  }

  /** Which units the display shows: hours only when there are whole hours,
      minutes when there are hours or whole minutes, seconds always. */
  lemma RenderShape(c: Clock)
    requires c.hours >= 0 && c.minutes >= 0 && c.seconds >= 0
    ensures ('h' in Render(c)) <==> c.hours > 0
    ensures ('m' in Render(c)) <==> c.hours > 0 || c.minutes > 0
    ensures 's' in Render(c)
  {
    var hs, ms, ss := NatToString(c.hours), NatToString(c.minutes), NatToString(c.seconds);
    NoLetterAmongDigits(hs, 'h');
    NoLetterAmongDigits(hs, 'm');
    NoLetterAmongDigits(ms, 'h');
    NoLetterAmongDigits(ms, 'm');
    NoLetterAmongDigits(ss, 'h');
    NoLetterAmongDigits(ss, 'm');
    assert 's' in "s" && 'h' !in "s" && 'm' !in "s";
    assert 'h' in "h " && 'm' !in "h " && 'm' in "m " && 'h' !in "m ";
  }
}
