/** Decimal rendering of numbers, as a JavaScript template literal
    (`${n}`) renders an integer-valued number: optional minus sign, then
    digits without leading zeros. A parser is the rendering's inverse. */
module Decimal {
  import opened Wrappers

  predicate IsDigit(c: char) {
    '0' <= c <= '9'
  }

  predicate AllDigits(s: string) {
    forall i :: 0 <= i < |s| ==> IsDigit(s[i])
  }

  function DigitChar(d: nat): (c: char)
    requires d < 10
    ensures IsDigit(c)
  {
    ('0' as int + d) as char
  }

  function DigitValue(c: char): (d: nat)
    requires IsDigit(c)
    ensures d < 10
  {
    c as int - '0' as int
  }

  /** Digits of `n`, most significant first. */
  function NatToDecimal(n: nat): (s: string)
    ensures |s| > 0 && AllDigits(s)
    ensures |s| > 1 ==> s[0] != '0'
    ensures s == "0" <==> n == 0
  {
    if n < 10 then [DigitChar(n)] else NatToDecimal(n / 10) + [DigitChar(n % 10)]
  }

  function IntToDecimal(i: int): (s: string)
    ensures |s| > 0
    ensures s[0] == '-' <==> i < 0
    ensures var digits := if i < 0 then s[1..] else s;
      |digits| > 0 && AllDigits(digits)
      && (|digits| > 1 ==> digits[0] != '0')
      && (i < 0 ==> digits != "0")
  {
    if i < 0 then "-" + NatToDecimal(-i) else NatToDecimal(i)
  }

  /** Value of a non-empty string of decimal digits. */
  function ParseNat(s: string): Option<nat>
  {
    if |s| == 0 || !IsDigit(s[|s| - 1]) then None
    else if |s| == 1 then Some(DigitValue(s[0]))
    else match ParseNat(s[..|s| - 1])
      case None => None
      case Some(p) => Some(p * 10 + DigitValue(s[|s| - 1]))
  }

  function ParseInt(s: string): Option<int>
  {
    if |s| > 0 && s[0] == '-' then
      match ParseNat(s[1..])
      case None => None
      case Some(n) => Some(-(n as int))
    else ParseNat(s)
  }

  lemma {:induction false} ParseNatRoundTrip(n: nat)
    ensures ParseNat(NatToDecimal(n)) == Some(n)
  {
    if n >= 10 {
      var s := NatToDecimal(n);
      assert s[..|s| - 1] == NatToDecimal(n / 10);
      ParseNatRoundTrip(n / 10);
    }
  }

  lemma ParseIntRoundTrip(i: int)
    ensures ParseInt(IntToDecimal(i)) == Some(i)
  {
    if i < 0 {
      assert IntToDecimal(i)[1..] == NatToDecimal(-i);
      ParseNatRoundTrip(-i);
    } else {
      ParseNatRoundTrip(i);
    }
  }

  /** Distinct integers render differently. */
  lemma IntToDecimalInjective(a: int, b: int)
    ensures IntToDecimal(a) == IntToDecimal(b) <==> a == b
  {
    ParseIntRoundTrip(a);
    ParseIntRoundTrip(b);
  }
}
