/** Python's `str(int)` for the integers the downloader formats (post ids in
    file names, the fields of `pretty_timedelta`), with the parser that reads
    such a string back. */
module Decimal {
  import opened Wrappers

  predicate IsDigit(c: char) {
    '0' <= c <= '9'
  }

  function DigitChar(d: nat): (c: char)
    requires d < 10
    ensures IsDigit(c) && DigitValue(c) == d
  {
    (('0' as int) + d) as char
  }

  function DigitValue(c: char): nat
    requires IsDigit(c)
  {
    (c as int) - ('0' as int)
  }

  /** The shortest decimal spelling of `n`: no sign, no leading zero. */
  function NatToDecimal(n: nat): (s: string)
    ensures |s| >= 1
    ensures forall i :: 0 <= i < |s| ==> IsDigit(s[i])
    ensures |s| > 1 ==> s[0] != '0'
    ensures n < 10 <==> |s| == 1
    decreases n
  {
    if n < 10 then [DigitChar(n)] else NatToDecimal(n / 10) + [DigitChar(n % 10)]
  }

  /** `str(i)`: a leading `-` for negative numbers, then the digits. */
  function IntToDecimal(i: int): (s: string)
    ensures |s| >= 1
    ensures i < 0 <==> s[0] == '-'
    ensures forall k :: 0 < k < |s| ==> IsDigit(s[k])
    ensures i >= 0 ==> IsDigit(s[0])
  {
    if i < 0 then "-" + NatToDecimal(-i) else NatToDecimal(i)
  }

  /** Reads a non-empty run of digits (leading zeros allowed); None otherwise. */
  function ParseNat(s: string): (r: Option<nat>)
    ensures r.Some? <==> |s| > 0 && forall i :: 0 <= i < |s| ==> IsDigit(s[i])
    decreases |s|
  {
    if |s| == 0 || !IsDigit(s[|s| - 1]) then None
    else if |s| == 1 then Some(DigitValue(s[0]))
    else match ParseNat(s[..|s| - 1])
      case None => None
      case Some(v) => Some(10 * v + DigitValue(s[|s| - 1]))
  }

  /** Reads an optional `-` followed by digits. */
  function ParseInt(s: string): Option<int>
  {
    if |s| > 0 && s[0] == '-' then
      match ParseNat(s[1..])
      case None => None
      case Some(v) => Some(-(v as int))
    else
      match ParseNat(s)
      case None => None
      case Some(v) => Some(v)
  }

  /** Reading back the decimal spelling of a natural number gives the number. */
  lemma {:induction false} NatRoundTrip(n: nat)
    ensures ParseNat(NatToDecimal(n)) == Some(n)
    decreases n
  {
    if n >= 10 {
      NatRoundTrip(n / 10);
      var s := NatToDecimal(n);
      assert s[..|s| - 1] == NatToDecimal(n / 10);
    }
  }

  /** `int(str(i)) == i`: the spelling of an integer determines it. */
  lemma IntRoundTrip(i: int)
    ensures ParseInt(IntToDecimal(i)) == Some(i)
  {
    if i < 0 {
      NegativeRoundTrip(i);
    } else {
      NatRoundTrip(i);
      assert IsDigit(IntToDecimal(i)[0]);
    }
  }

  lemma NegativeRoundTrip(i: int)
    requires i < 0
    ensures ParseInt(IntToDecimal(i)) == Some(i)
  {
    var d := NatToDecimal(-i);
    assert IntToDecimal(i) == "-" + d;
    NatRoundTrip(-i);
    ParseNegative(d);
  }

  /** A minus sign negates the number that follows it. */
  lemma ParseNegative(d: string)
    requires ParseNat(d).Some?
    ensures ParseInt("-" + d) == Some(-(ParseNat(d).value as int))
  {
    assert ("-" + d)[1..] == d;
  }

  /** Distinct integers have distinct spellings. */
  lemma IntToDecimalInjective(i: int, j: int)
    requires IntToDecimal(i) == IntToDecimal(j)
    ensures i == j
  {
    IntRoundTrip(i);
    IntRoundTrip(j);
  }
}
