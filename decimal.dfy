/** Decimal rendering of integers, as Java's Integer.toString produces it for label texts. */
module Decimal {

  predicate IsDigit(c: char) {
    '0' <= c <= '9'
  }

  function DigitChar(d: nat): (c: char)
    requires d < 10
    ensures IsDigit(c) && c as int - '0' as int == d
  {
    (48 + d) as char
  }

  function DigitValue(c: char): (d: nat)
    requires IsDigit(c)
    ensures d < 10 && DigitChar(d) == c
  {
    c as int - '0' as int
  }

  /** A canonical decimal numeral: digits only, and no leading zero unless it is "0". */
  predicate IsNumeral(s: string) {
    |s| >= 1 && (forall k :: 0 <= k < |s| ==> IsDigit(s[k])) && (s[0] == '0' ==> |s| == 1)
  }

  function NatToString(n: nat): (s: string)
    ensures IsNumeral(s)
    decreases n
  {
    if n < 10 then [DigitChar(n)] else NatToString(n / 10) + [DigitChar(n % 10)]
  }

  /** The value of a string of digits, read most significant digit first. */
  function Value(s: string): nat
    requires forall k :: 0 <= k < |s| ==> IsDigit(s[k])
  {
    if |s| == 0 then 0 else Value(s[..|s| - 1]) * 10 + DigitValue(s[|s| - 1])
  }

  /** Java's Integer.toString: a minus sign before the numeral of the magnitude when negative. */
  function IntToString(z: int): (s: string)
    ensures |s| >= 1
    ensures (s[0] == '-') == (z < 0)
    ensures z < 0 ==> IsNumeral(s[1..])
    ensures z >= 0 ==> IsNumeral(s)
  {
    if z < 0 then "-" + NatToString(-z) else NatToString(z)
  }

  /** Reads back what IntToString writes. */
  function ParseInt(s: string): int
    requires |s| >= 1
    requires s[0] == '-' ==> forall k :: 1 <= k < |s| ==> IsDigit(s[k])
    requires s[0] != '-' ==> forall k :: 0 <= k < |s| ==> IsDigit(s[k])
  {
    if s[0] == '-' then -(Value(s[1..]) as int) else Value(s)
  }

  lemma {:induction false} NatRoundTrip(n: nat)
    ensures Value(NatToString(n)) == n
    decreases n
  {
    if n >= 10 {
      var s := NatToString(n / 10) + [DigitChar(n % 10)];
      assert s[..|s| - 1] == NatToString(n / 10);
      NatRoundTrip(n / 10);
    }
  }

  lemma IntRoundTrip(z: int)
    ensures ParseInt(IntToString(z)) == z
  {
    if z < 0 {
      assert IntToString(z)[1..] == NatToString(-z);
      NatRoundTrip(-z);
    } else {
      NatRoundTrip(z);
    }
  }

  /** Different integers have different renderings, so a label identifies its number. */
  lemma IntToStringInjective(a: int, b: int)
    requires IntToString(a) == IntToString(b)
    ensures a == b
  {
    IntRoundTrip(a);
    IntRoundTrip(b);
  }
}
