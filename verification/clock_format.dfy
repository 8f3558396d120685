/**
  `formatTime` of both exam rooms: seconds rendered as `HH:MM:SS`, each field
  a decimal number left-padded with '0' to at least two characters. A parser
  for that display is defined alongside as the format's inverse.
 */
module ClockFormat {
  import opened Wrappers

  /** The character of one decimal digit. */
  function DigitChar(d: nat): (c: char)
    requires d < 10
    ensures '0' <= c <= '9' && (c as int) - ('0' as int) == d
  {
    (('0' as int) + d) as char
  }

  /** The value of a digit character. */
  function DigitValue(c: char): nat
    requires '0' <= c <= '9'
  {
    (c as int) - ('0' as int)
  }

  predicate IsDigits(s: string) {
    forall i :: 0 <= i < |s| ==> '0' <= s[i] <= '9'
  }

  /** `n.toString()` for a non-negative integer: shortest decimal, most significant digit first. */
  function Decimal(n: nat): (s: string)
    ensures |s| >= 1 && IsDigits(s)
    ensures n < 10 <==> |s| == 1
    decreases n
  {
    if n < 10 then [DigitChar(n)] else Decimal(n / 10) + [DigitChar(n % 10)]
  }

  /** The number a string of digits denotes, most significant first; the empty string is 0. */
  function DecimalValue(s: string): nat
    requires IsDigits(s)
    decreases |s|
  {
    if |s| == 0 then 0 else DecimalValue(s[..|s| - 1]) * 10 + DigitValue(s[|s| - 1])
  }

  /** Reading back a decimal rendering gives the number. */
  lemma {:induction false} DecimalRoundTrip(n: nat)
    ensures DecimalValue(Decimal(n)) == n
    decreases n
  {
    if n >= 10 {
      var s := Decimal(n);
      DecimalRoundTrip(n / 10);
      assert s[..|s| - 1] == Decimal(n / 10);
    }
  }

  /** A leading '0' does not change the value of a digit string. */
  lemma {:induction false} LeadingZero(s: string)
    requires IsDigits(s)
    ensures IsDigits("0" + s) && DecimalValue("0" + s) == DecimalValue(s)
    decreases |s|
  {
    var t := "0" + s;
    assert IsDigits(t);
    if |s| > 0 {
      assert t[..|t| - 1] == "0" + s[..|s| - 1];
      LeadingZero(s[..|s| - 1]);
    }
  }

  /** `n.toString().padStart(2, '0')`. */
  function Pad2(n: nat): (s: string)
    ensures |s| >= 2 && IsDigits(s) && DecimalValue(s) == n
    ensures n < 100 ==> |s| == 2
  {
    var d := Decimal(n);
    DecimalRoundTrip(n);
    if |d| < 2 then LeadingZero(d); "0" + d
    else if n < 100 then DecimalLength100(n); d
    else d
  }

  /** Numbers below 100 have at most two digits. */
  lemma DecimalLength100(n: nat)
    requires n < 100
    ensures |Decimal(n)| <= 2
  {
  }

  /** The hour, minute and second fields of a number of seconds. */
  datatype Fields = Fields(hours: nat, minutes: nat, seconds: nat)

  /** `Math.floor(s / 3600)`, `Math.floor((s % 3600) / 60)`, `s % 60`. */
  function Split(s: nat): (f: Fields)
    ensures f.hours * 3600 + f.minutes * 60 + f.seconds == s
    ensures f.minutes < 60 && f.seconds < 60
  {
    Fields(s / 3600, (s % 3600) / 60, s % 60)
  }

  /** `formatTime`. */
  function FormatTime(s: nat): (t: string)
    ensures |t| >= 8
    ensures s < 360000 ==> |t| == 8
  {
    var f := Split(s);
    Pad2(f.hours) + ":" + Pad2(f.minutes) + ":" + Pad2(f.seconds)
  }

  /** Cuts a string at every ':'. */
  function SplitOnColon(t: string): (parts: seq<string>)
    ensures |parts| >= 1
    decreases |t|
  {
    if |t| == 0 then [""]
    else if t[0] == ':' then [""] + SplitOnColon(t[1..])
    else
      var rest := SplitOnColon(t[1..]);
      [[t[0]] + rest[0]] + rest[1..]
  }

  /** A field as the clock shows it: at least two digits. */
  predicate IsClockField(f: string) {
    |f| >= 2 && IsDigits(f)
  }

  /**
    Reads a clock display back: exactly three fields of at least two digits,
    minutes and seconds below 60. Anything else is rejected.
   */
  function ParseTime(t: string): (r: Option<nat>)
  {
    var parts := SplitOnColon(t);
    if |parts| == 3 && IsClockField(parts[0]) && IsClockField(parts[1]) && IsClockField(parts[2])
       && DecimalValue(parts[1]) < 60 && DecimalValue(parts[2]) < 60
    then Some(DecimalValue(parts[0]) * 3600 + DecimalValue(parts[1]) * 60 + DecimalValue(parts[2]))
    else None
  }

  /** Splitting a colon-free prefix followed by ':' yields that prefix first. */
  lemma {:induction false} SplitAfterField(a: string, b: string)
    requires ':' !in a
    ensures SplitOnColon(a + ":" + b) == [a] + SplitOnColon(b)
    decreases |a|
  {
    if |a| > 0 {
      assert (a + ":" + b)[1..] == a[1..] + ":" + b;
      SplitAfterField(a[1..], b);
      assert [a[0]] + a[1..] == a;
    } else {
      assert a + ":" + b == ":" + b;
    }
  }

  /** A colon-free string is one field. */
  lemma {:induction false} SplitSingleField(a: string)
    requires ':' !in a
    ensures SplitOnColon(a) == [a]
    decreases |a|
  {
    if |a| > 0 {
      SplitSingleField(a[1..]);
      assert [a[0]] + a[1..] == a;
    }
  }

  lemma DigitsHaveNoColon(s: string)
    requires IsDigits(s)
    ensures ':' !in s
  {
    assert forall i :: 0 <= i < |s| ==> s[i] != ':';
  }

  /** The display of the clock can be read back: the format loses nothing. */
  lemma FormatRoundTrip(s: nat)
    ensures ParseTime(FormatTime(s)) == Some(s)
  {
    var f := Split(s);
    var h, m, x := Pad2(f.hours), Pad2(f.minutes), Pad2(f.seconds);
    DigitsHaveNoColon(h);
    DigitsHaveNoColon(m);
    DigitsHaveNoColon(x);
    SplitSingleField(x);
    SplitAfterField(m, x);
    assert h + ":" + m + ":" + x == h + ":" + (m + ":" + x);
    SplitAfterField(h, m + ":" + x);
    assert SplitOnColon(FormatTime(s)) == [h, m, x];
  }

  /** Two different numbers of seconds never show the same clock. */
  lemma FormatInjective(a: nat, b: nat)
    ensures a != b ==> FormatTime(a) != FormatTime(b)
  {
    FormatRoundTrip(a);
    FormatRoundTrip(b);
  }

  /** The exam duration of 7200 seconds shows as two hours. */
  lemma ExamDurationDisplay()
    ensures FormatTime(7200) == "02:00:00"
  {
    assert Split(7200) == Fields(2, 0, 0);
    assert Decimal(2) == "2";
    assert Decimal(0) == "0";
  }
}
