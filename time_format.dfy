/**
 * The `MM:SS` rendering of a number of seconds shown on the timer label
 * (`format_time`), and a parser that reads such a rendering back.
 *
 * `format_time` is `divmod(seconds, 60)` followed by the Python format
 * spec `02` on both parts. Python's `divmod` by a positive divisor floors,
 * which is what Dafny's `/` and `%` do for a positive divisor, so every
 * integer is modelled, negative ones included.
 */
module TimeFormat {
  import opened Options

  predicate IsDigit(c: char) {
    '0' <= c <= '9'
  }

  predicate AllDigits(s: string) {
    forall i :: 0 <= i < |s| ==> IsDigit(s[i])
  }

  function DigitChar(d: nat): (c: char)
    requires d < 10
    ensures IsDigit(c) && c as int - '0' as int == d
  {
    ('0' as int + d) as char
  }

  function DigitValue(c: char): nat
    requires IsDigit(c)
  {
    c as int - '0' as int
  }

  /** The number a string of decimal digits denotes, most significant digit first. */
  function ValueOf(s: string): nat
    requires AllDigits(s)
  {
    if s == [] then 0 else 10 * ValueOf(s[..|s| - 1]) + DigitValue(s[|s| - 1])
  }

  /** Decimal digits of `n` with no leading zero, as Python's `str` writes a non-negative int. */
  function Decimal(n: nat): (r: string)
    ensures 1 <= |r| && AllDigits(r) && ValueOf(r) == n
    ensures r[0] == '0' ==> r == "0"
  {
    if n < 10 then
      [DigitChar(n)]
    else
      var r := Decimal(n / 10) + [DigitChar(n % 10)];
      assert r[..|r| - 1] == Decimal(n / 10);
      r
  }

  /** `f"{n:02}"`: zero-padded to width two; a negative number is already two characters wide. */
  function Pad2(n: int): string {
    if n < 0 then "-" + Decimal(-n)
    else if n < 10 then "0" + Decimal(n)
    else Decimal(n)
  }

  /** `format_time(seconds)`: minutes and seconds from `divmod(seconds, 60)`, joined by a colon. */
  function FormatTime(seconds: int): string {
    var mins, secs := seconds / 60, seconds % 60;
    Pad2(mins) + ":" + Pad2(secs)
  }

  /** Reads a minutes field back: an optional minus sign and at least one digit. */
  function ParseMinutes(m: string): Option<int> {
    if |m| > 1 && m[0] == '-' && AllDigits(m[1..]) then Some(-(ValueOf(m[1..]) as int))
    else if |m| > 0 && AllDigits(m) then Some(ValueOf(m))
    else None
  }

  /** Reads a `MM:SS` string back into seconds; a malformed string gives `None`. */
  function ParseTime(t: string): Option<int> {
    if |t| < 4 || t[|t| - 3] != ':' then None
    else
      var m, s := t[..|t| - 3], t[|t| - 2..];
      if !AllDigits(s) || ValueOf(s) >= 60 then None
      else match ParseMinutes(m)
        case None => None
        case Some(v) => Some(v * 60 + ValueOf(s))
  }

  lemma {:induction false} LeadingZero(d: string)
    requires AllDigits(d)
    ensures AllDigits("0" + d) && ValueOf("0" + d) == ValueOf(d)
  {
    if d != [] {
      var z := "0" + d;
      assert z[..|z| - 1] == "0" + d[..|d| - 1];
      LeadingZero(d[..|d| - 1]);
    }
  }

  /** The seconds field is always exactly two digits and reads back as `n`. */
  lemma SecondsField(n: int)
    requires 0 <= n < 60
    ensures |Pad2(n)| == 2 && AllDigits(Pad2(n)) && ValueOf(Pad2(n)) == n
  {
    if n < 10 {
      LeadingZero(Decimal(n));
    } else {
      assert Decimal(n) == Decimal(n / 10) + [DigitChar(n % 10)];
    }
  }

  /**
   * Minutes field for a non-negative count: at least two digits, padded
   * with a single zero only when one digit would do, and denoting `n`.
   */
  lemma MinutesField(n: int)
    requires n >= 0
    ensures |Pad2(n)| >= 2 && AllDigits(Pad2(n)) && ValueOf(Pad2(n)) == n
    ensures |Pad2(n)| == 2 || Pad2(n)[0] != '0'
  {
    if n < 10 {
      LeadingZero(Decimal(n));
    } else {
      assert Decimal(n) == Decimal(n / 10) + [DigitChar(n % 10)];
    }
  }

  lemma MinutesRoundTrip(n: int)
    ensures ParseMinutes(Pad2(n)) == Some(n)
  {
    var m := Pad2(n);
    if n < 0 {
      assert m[1..] == Decimal(-n);
    } else {
      MinutesField(n);
      assert IsDigit(m[0]);
    }
  }

  /**
   * For a non-negative count: minutes (two digits or more, no superfluous
   * zero), a colon, two digits of seconds below 60, and minutes * 60 +
   * seconds is the count.
   */
  lemma FormatTimeShape(seconds: int)
    requires seconds >= 0
    ensures var t := FormatTime(seconds);
      var m, s := t[..|t| - 3], t[|t| - 2..];
      |t| >= 5 && t[|t| - 3] == ':' &&
      AllDigits(m) && (|m| == 2 || m[0] != '0') &&
      AllDigits(s) && ValueOf(s) < 60 &&
      ValueOf(m) * 60 + ValueOf(s) == seconds
  {
    var t := FormatTime(seconds);
    var mm, ss := Pad2(seconds / 60), Pad2(seconds % 60);
    MinutesField(seconds / 60);
    SecondsField(seconds % 60);
    assert t == mm + ":" + ss;
    assert t[..|t| - 3] == mm;
    assert t[|t| - 2..] == ss;
  }

  /** Parsing a minutes field, a colon and a two-digit seconds field below 60. */
  lemma ParseJoined(mm: string, ss: string, v: int)
    requires ParseMinutes(mm) == Some(v)
    requires |ss| == 2 && AllDigits(ss) && ValueOf(ss) < 60
    ensures ParseTime(mm + ":" + ss) == Some(v * 60 + ValueOf(ss))
  {
    var t := mm + ":" + ss;
    assert t[..|t| - 3] == mm;
    assert t[|t| - 2..] == ss;
  }

  /** Reading the label text back recovers the count, for every integer. */
  lemma FormatParseRoundTrip(seconds: int)
    ensures ParseTime(FormatTime(seconds)) == Some(seconds)
  {
    var mins, secs := seconds / 60, seconds % 60;
    MinutesRoundTrip(mins);
    SecondsField(secs);
    ParseJoined(Pad2(mins), Pad2(secs), mins);
    assert mins * 60 + secs == seconds;
  }

  /** Different counts never share a label. */
  lemma FormatTimeInjective(a: int, b: int)
    requires FormatTime(a) == FormatTime(b)
    ensures a == b
  {
    FormatParseRoundTrip(a);
    FormatParseRoundTrip(b);
  }
}
