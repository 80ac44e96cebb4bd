/**
 * The text a countdown frame is made of: Python's `divmod(seconds, 60)`
 * followed by the f-string `f"{mins:02}:{secs:02}"` (pomodoroCLI.py:23-24,
 * pomodoro.py:9-10), and `str(n)` for the session numbers.
 *
 * Beside the formatting functions sits their inverse, a parser for the
 * `MM:SS` text, so that what a frame shows can be stated as a round trip.
 */
module Display {

  datatype Option<T> = None | Some(value: T)

  predicate IsDigit(c: char) {
    '0' <= c <= '9'
  }

  predicate AllDigits(s: string) {
    forall i :: 0 <= i < |s| ==> IsDigit(s[i])
  }

  /** The character of a single decimal digit. */
  function DigitChar(d: nat): (c: char)
    requires d < 10
    ensures IsDigit(c) && c as int - '0' as int == d
  {
    ('0' as int + d) as char
  }

  /** `str(n)` for a non-negative integer: decimal digits, no sign, no leading zero. */
  function Decimal(n: nat): (s: string)
    ensures 1 <= |s| && AllDigits(s)
    ensures s[0] == '0' ==> n == 0
    ensures |s| == 1 <==> n < 10
    ensures |s| <= 2 <==> n < 100
    decreases n
  {
    if n < 10 then [DigitChar(n)] else Decimal(n / 10) + [DigitChar(n % 10)]
  }

  /** Reads a string of decimal digits back as a number (leading zeros allowed). */
  function ParseDecimal(s: string): nat
    requires AllDigits(s)
    decreases |s|
  {
    if s == [] then 0
    else ParseDecimal(s[..|s| - 1]) * 10 + (s[|s| - 1] as int - '0' as int)
  }

  lemma {:induction false} DecimalRoundTrip(n: nat)
    ensures ParseDecimal(Decimal(n)) == n
    decreases n
  {
    if n >= 10 {
      var s := Decimal(n);
      assert s[..|s| - 1] == Decimal(n / 10);
      DecimalRoundTrip(n / 10);
    }
  }

  lemma {:induction false} ParseLeadingZero(s: string)
    requires AllDigits(s)
    ensures AllDigits("0" + s) && ParseDecimal("0" + s) == ParseDecimal(s)
    decreases |s|
  {
    if s != [] {
      var t := "0" + s;
      assert t[..|t| - 1] == "0" + s[..|s| - 1];
      ParseLeadingZero(s[..|s| - 1]);
    }
  }

  /** `f"{n:02}"`: the decimal form of `n`, padded on the left with zeros to at least two characters. */
  function Pad2(n: nat): (s: string)
    ensures 2 <= |s| && AllDigits(s)
    ensures |s| == 2 <==> n < 100
    ensures s[0] == '0' <==> n < 10
  {
    if n < 10 then "0" + Decimal(n) else Decimal(n)
  }

  /** The padded field reads back as the number it was made from. */
  lemma Pad2RoundTrip(n: nat)
    ensures ParseDecimal(Pad2(n)) == n
  {
    DecimalRoundTrip(n);
    if n < 10 {
      ParseLeadingZero(Decimal(n));
    }
  }

  /** `divmod(seconds, 60)`. For a non-negative dividend Python's floor division agrees with Dafny's. */
  function DivMod60(seconds: nat): (r: (nat, nat))
    ensures r.0 * 60 + r.1 == seconds && r.1 < 60
  {
    (seconds / 60, seconds % 60)
  }

  /** The f-string `f"{mins:02}:{secs:02}"`. */
  function Clock(mins: nat, secs: nat): (f: string)
    ensures 5 <= |f| && |Pad2(mins)| < |f| && f[|Pad2(mins)|] == ':'
    ensures forall j :: 0 <= j < |f| && j != |Pad2(mins)| ==> IsDigit(f[j])
    ensures secs < 100 ==> |f| == |Pad2(mins)| + 3
  {
    Pad2(mins) + ":" + Pad2(secs)
  }

  /** One countdown frame: the remaining seconds shown as `MM:SS`. */
  function FormatMMSS(seconds: nat): (f: string)
    ensures 5 <= |f| && f[|f| - 3] == ':'
    ensures |f| == 5 <==> seconds < 6000
    ensures f[0] == '0' <==> seconds < 600
    ensures forall j :: 0 <= j < |f| && j != |f| - 3 ==> IsDigit(f[j])
  {
    var (mins, secs) := DivMod60(seconds);
    Clock(mins, secs)
  }

  /** The index of the first ':' in `f`, or `|f|` when there is none. */
  function ColonAt(f: string): (k: nat)
    ensures k <= |f|
    ensures k < |f| ==> f[k] == ':'
    ensures forall j :: 0 <= j < k ==> f[j] != ':'
    decreases |f|
  {
    if f == [] || f[0] == ':' then 0 else 1 + ColonAt(f[1..])
  }

  /**
   * Reads a `MM:SS` frame back into its two fields: digits, a colon, digits.
   * This is the reference inverse of Clock; nothing in the timer parses frames.
   */
  function ParseClock(f: string): Option<(nat, nat)> {
    var k := ColonAt(f);
    if 0 < k < |f| - 1 && AllDigits(f[..k]) && AllDigits(f[k + 1..]) then
      Some((ParseDecimal(f[..k]), ParseDecimal(f[k + 1..])))
    else
      None
  }

  /** The number of remaining seconds a frame shows, if it is a frame at all. */
  function ShownSeconds(f: string): Option<nat> {
    match ParseClock(f)
    case Some((mins, secs)) => Some(mins * 60 + secs)
    case None => None
  }

  /** The minutes and seconds fields of a frame read back exactly as `divmod` split them. */
  lemma ClockRoundTrip(mins: nat, secs: nat)
    ensures ParseClock(Clock(mins, secs)) == Some((mins, secs))
  {
    var f := Clock(mins, secs);
    var k := |Pad2(mins)|;
    assert f[k] == ':';
    assert f[..k] == Pad2(mins);
    assert f[k + 1..] == Pad2(secs);
    assert ColonAt(f) == k;
    Pad2RoundTrip(mins);
    Pad2RoundTrip(secs);
  }

  /**
   * Every frame satisfies `mins * 60 + secs == seconds` with `0 <= secs < 60`:
   * the text shown determines the remaining seconds.
   */
  lemma FrameRoundTrip(seconds: nat)
    ensures ParseClock(FormatMMSS(seconds)).Some?
    ensures var (mins, secs) := ParseClock(FormatMMSS(seconds)).value;
      mins * 60 + secs == seconds && secs < 60
    ensures ShownSeconds(FormatMMSS(seconds)) == Some(seconds)
  {
    var (mins, secs) := DivMod60(seconds);
    ClockRoundTrip(mins, secs);
  }

  /** Distinct remaining times are never rendered as the same frame. */
  lemma FormatMMSSInjective(a: nat, b: nat)
    requires FormatMMSS(a) == FormatMMSS(b)
    ensures a == b
  {
    FrameRoundTrip(a);
    FrameRoundTrip(b);
  }

  /** A full 25-minute work session starts at "25:00". */
  lemma FormatFullSession()
    ensures FormatMMSS(1500) == "25:00"
  {
  }

  /** Under a minute the minutes field is "00"; the seconds field is always two digits. */
  lemma FormatUnderAMinute()
    ensures FormatMMSS(59) == "00:59"
    ensures FormatMMSS(1) == "00:01"
  {
  }

  /** The frame for no time left, which the countdown loop never reaches. */
  lemma FormatZero()
    ensures FormatMMSS(0) == "00:00"
  {
  }
}
