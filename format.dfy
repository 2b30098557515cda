/** The status-bar countdown label: `String(format: "%02d:%02d", minutes, seconds)`
    re-specified over natural numbers, together with a parser that reads a label
    back, so that the formatter can be proved to lose no information. */
module Format {

  datatype Option<T> = None | Some(value: T)

  predicate IsDigit(c: char) {
    '0' <= c <= '9'
  }

  predicate AllDigits(s: string) {
    forall i :: 0 <= i < |s| ==> IsDigit(s[i])
  }

  /** The decimal digit character for `d`. */
  function DigitChar(d: nat): (c: char)
    requires d < 10
    ensures IsDigit(c) && DigitValue(c) == d
  {
    ['0', '1', '2', '3', '4', '5', '6', '7', '8', '9'][d]
  }

  /** The value of one decimal digit character. */
  function DigitValue(c: char): (d: nat)
    requires IsDigit(c)
    ensures d < 10
  {
    (c as int - '0' as int) as nat
  }

  /** The value of a string of decimal digits, most significant first. */
  function ValueOf(s: string): nat
    requires AllDigits(s)
  {
    if s == [] then 0 else ValueOf(s[..|s| - 1]) * 10 + DigitValue(s[|s| - 1])
  }

  /** `%d` of a natural number: its shortest decimal spelling. */
  function Decimal(n: nat): (s: string)
    ensures |s| >= 1 && AllDigits(s)
    ensures |s| > 1 ==> s[0] != '0'
    ensures n < 10 <==> |s| == 1
    decreases n
  {
    if n < 10 then [DigitChar(n)] else Decimal(n / 10) + [DigitChar(n % 10)]
  }

  /** `%02d` of a natural number: its decimal spelling, padded on the left with
      zeros to at least two characters. */
  function Pad2(n: nat): (s: string)
    ensures |s| >= 2 && AllDigits(s)
    ensures n < 100 <==> |s| == 2
  {
    if n < 10 then "0" + Decimal(n) else Decimal(n)
  }

  /** The label for `r` remaining seconds: `%02d:%02d` of minutes and seconds. */
  function FormatMMSS(r: nat): (s: string)
    ensures |s| >= 5 && s[|s| - 3] == ':'
    ensures AllDigits(s[..|s| - 3]) && AllDigits(s[|s| - 2..])
    ensures IsDigit(s[0])
    ensures r < 6000 <==> |s| == 5
  {
    Pad2(r / 60) + ":" + Pad2(r % 60)
  }

  /** Reads an `mm:ss` label back: any number of minute digits, a colon, and
      exactly two second digits naming a value below 60. */
  function ParseMMSS(s: string): (r: Option<nat>)
    ensures r.Some? ==> |s| >= 5 && s[|s| - 3] == ':'
  {
    if |s| < 5 || s[|s| - 3] != ':' then None
    else
      var mm, ss := s[..|s| - 3], s[|s| - 2..];
      if !AllDigits(mm) || !AllDigits(ss) || ValueOf(ss) >= 60 then None
      else Some(ValueOf(mm) * 60 + ValueOf(ss))
  }

  /** Reading back the decimal spelling of `n` gives `n`. */
  lemma {:induction false} DecimalRoundTrip(n: nat)
    ensures ValueOf(Decimal(n)) == n
    decreases n
  {
    if n >= 10 {
      var s := Decimal(n);
      assert s[..|s| - 1] == Decimal(n / 10);
      DecimalRoundTrip(n / 10);
    }
  }

  /** A leading zero does not change the value of a digit string. */
  lemma {:induction false} LeadingZero(s: string)
    requires AllDigits(s)
    ensures AllDigits("0" + s) && ValueOf("0" + s) == ValueOf(s)
    decreases |s|
  {
    var t := "0" + s;
    assert AllDigits(t) by {
      forall i | 0 <= i < |t| ensures IsDigit(t[i]) {
        if i > 0 { assert t[i] == s[i - 1]; }
      }
    }
    if s != [] {
      var init := s[..|s| - 1];
      assert t[..|t| - 1] == "0" + init;
      LeadingZero(init);
    }
  }

  /** Reading back the zero-padded spelling of `n` gives `n`. */
  lemma Pad2RoundTrip(n: nat)
    ensures ValueOf(Pad2(n)) == n
  {
    DecimalRoundTrip(n);
    if n < 10 { LeadingZero(Decimal(n)); }
  }

  /** Below 100, `%02d` is exactly the tens digit followed by the units digit. */
  lemma Pad2TwoDigits(n: nat)
    requires n < 100
    ensures Pad2(n) == [DigitChar(n / 10), DigitChar(n % 10)]
  {
    if n >= 10 {
      assert Decimal(n) == Decimal(n / 10) + [DigitChar(n % 10)];
    }
  }

  /** Every label reads back as the number of seconds it was made from: the
      minutes field times 60 plus a seconds field below 60 is `r`. */
  lemma FormatRoundTrip(r: nat)
    ensures ParseMMSS(FormatMMSS(r)) == Some(r)
  {
    var s := FormatMMSS(r);
    var mm, ss := Pad2(r / 60), Pad2(r % 60);
    assert s[..|s| - 3] == mm;
    assert s[|s| - 2..] == ss;
    Pad2RoundTrip(r / 60);
    Pad2RoundTrip(r % 60);
  }

  /** Different numbers of seconds never share a label. */
  lemma FormatInjective(r1: nat, r2: nat)
    requires FormatMMSS(r1) == FormatMMSS(r2)
    ensures r1 == r2
  {
    FormatRoundTrip(r1);
    FormatRoundTrip(r2);
  }
}
