/** Decimal rendering as Python's `str(int)` and `f"{x:.2f}"` produce it, with parsers
    that read the text back. */
module Numerals {
  import opened Options

  predicate IsDigit(c: char) {
    '0' <= c <= '9'
  }

  function DigitChar(d: nat): (c: char)
    requires d < 10
    ensures IsDigit(c) && DigitValue(c) == d
  {
    (('0' as int) + d) as char
  }

  function DigitValue(c: char): nat
    requires IsDigit(c)
  {
    (c as int) - ('0' as int)
  }

  /** `str(n)` for a non-negative integer: its decimal digits, no leading zero. */
  function NatToString(n: nat): (s: string)
    ensures |s| > 0
    ensures forall i :: 0 <= i < |s| ==> IsDigit(s[i])
    ensures s[0] == '0' ==> n == 0
    decreases n
  {
    if n < 10 then [DigitChar(n)] else NatToString(n / 10) + [DigitChar(n % 10)]
  }

  /** Reads a string of decimal digits (the empty string reads as 0). */
  function ParseNat(s: string): nat
    requires forall i :: 0 <= i < |s| ==> IsDigit(s[i])
    decreases |s|
  {
    if s == [] then 0 else ParseNat(s[..|s| - 1]) * 10 + DigitValue(s[|s| - 1])
  }

  lemma {:induction false} ParseNatToString(n: nat)
    ensures ParseNat(NatToString(n)) == n
    decreases n
  {
    var s := NatToString(n);
    if n >= 10 {
      ParseNatToString(n / 10);
      assert s[..|s| - 1] == NatToString(n / 10);
    }
  }

  /** `str(i)` for any integer: a minus sign in front of a negative value. */
  function IntToString(i: int): (s: string)
    ensures |s| > 0
    ensures s[0] == '-' <==> i < 0
  {
    if i < 0 then "-" + NatToString(-i) else NatToString(i)
  }

  /** Reads back what IntToString writes. */
  function ParseInt(s: string): Option<int> {
    if s != [] && s[0] == '-' && |s| > 1 && forall i :: 1 <= i < |s| ==> IsDigit(s[i]) then
      var magnitude: int := ParseNat(s[1..]);
      Some(-magnitude)
    else if s != [] && forall i :: 0 <= i < |s| ==> IsDigit(s[i]) then
      Some(ParseNat(s))
    else
      None
  }

  lemma IntToStringRoundTrip(i: int)
    ensures ParseInt(IntToString(i)) == Some(i)
  {
    var s := IntToString(i);
    if i < 0 {
      assert s[1..] == NatToString(-i);
      ParseNatToString(-i);
    } else {
      ParseNatToString(i);
    }
  }

  /** `str(v)` for a value that is an integer or Python's `None`: "None" exactly for an
      absent value, and text that reads back as the value otherwise. */
  function OptionalIntToString(v: Option<int>): (s: string)
    ensures s == "None" <==> v.None?
    ensures ParseInt(s) == v
  {
    match v
    case None => "None"
    case Some(i) => IntToStringRoundTrip(i); IntToString(i)
  }

  /** `f"{x:.2f}"` for a non-negative duration of `centis` hundredths of a second:
      the whole seconds, a point and exactly two digits. */
  function FormatCentis(centis: nat): (s: string)
    ensures |s| >= 4 && s[|s| - 3] == '.'
    ensures forall i :: 0 <= i < |s| && i != |s| - 3 ==> IsDigit(s[i])
  {
    NatToString(centis / 100) + "." + [DigitChar(centis % 100 / 10), DigitChar(centis % 10)]
  }

  /** Reads a `digits.dd` string back into hundredths. */
  function ParseCentis(s: string): Option<nat> {
    if |s| >= 4 && s[|s| - 3] == '.' && forall i :: 0 <= i < |s| && i != |s| - 3 ==> IsDigit(s[i]) then
      Some(ParseNat(s[..|s| - 3]) * 100 + ParseNat(s[|s| - 2..]))
    else
      None
  }

  lemma FormatCentisRoundTrip(centis: nat)
    ensures ParseCentis(FormatCentis(centis)) == Some(centis)
  {
    var s := FormatCentis(centis);
    var whole := NatToString(centis / 100);
    var frac := [DigitChar(centis % 100 / 10), DigitChar(centis % 10)];
    assert s == whole + "." + frac;
    assert s[..|s| - 3] == whole;
    assert s[|s| - 2..] == frac;
    ParseNatToString(centis / 100);
    ParseTwoDigits(centis % 100 / 10, centis % 10);
  }

  lemma ParseTwoDigits(tens: nat, units: nat)
    requires tens < 10 && units < 10
    ensures ParseNat([DigitChar(tens), DigitChar(units)]) == tens * 10 + units
  {
    var frac := [DigitChar(tens), DigitChar(units)];
    assert frac[..1] == [DigitChar(tens)];
    assert [DigitChar(tens)][..0] == [];
    assert ParseNat([DigitChar(tens)]) == tens;
    assert ParseNat(frac) == ParseNat(frac[..1]) * 10 + DigitValue(frac[1]);
  }

  /** No ';' appears in a formatted duration, so it can stand in a ';'-separated row. */
  lemma FormatCentisHasNoSemicolon(centis: nat)
    ensures ';' !in FormatCentis(centis)
  {
  }
}
