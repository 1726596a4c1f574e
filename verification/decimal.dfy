/** Decimal rendering of integers, as JavaScript's `toString()` and template
    literals produce it for integers, together with its inverse.

    The inverse is not part of the program; it is the partner that shows the
    rendering loses no information, which the cache relies on when it builds
    index keys of the form `fib:<n>`. */
module Decimal {

  predicate IsDigit(c: char) {
    '0' <= c <= '9'
  }

  predicate AllDigits(s: string) {
    forall i :: 0 <= i < |s| ==> IsDigit(s[i])
  }

  function DigitChar(d: nat): (c: char)
    requires d < 10
    ensures IsDigit(c)
  {
    "0123456789"[d]
  }

  function DigitValue(c: char): (d: nat)
    ensures d < 10
  {
    if IsDigit(c) then (c as int - '0' as int) else 0
  }

  lemma DigitValueOfDigitChar(d: nat)
    requires d < 10
    ensures DigitValue(DigitChar(d)) == d
  {
    assert "0123456789"[d] as int == '0' as int + d;
  }

  /** The decimal digits of `x`, most significant first, without leading zeros. */
  function Digits(x: nat): (s: string)
    ensures |s| >= 1
    ensures AllDigits(s)
    ensures s[0] != '0' || x == 0
    decreases x
  {
    if x < 10 then [DigitChar(x)] else Digits(x / 10) + [DigitChar(x % 10)]
  }

  /** Renders an integer the way `String(i)` does: a `-` sign for negatives. */
  function IntToString(i: int): (s: string)
    ensures |s| >= 1
    ensures i >= 0 ==> AllDigits(s)
    ensures i < 0 ==> s[0] == '-' && AllDigits(s[1..])
  {
    if i < 0 then "-" + Digits(-i) else Digits(i)
  }

  /** Reads a string of digits back as a number (most significant first). */
  function ParseNat(s: string): nat
    decreases |s|
  {
    if |s| == 0 then 0 else ParseNat(s[..|s| - 1]) * 10 + DigitValue(s[|s| - 1])
  }

  /** Reads an optionally `-`-signed string of digits back as an integer. */
  function ParseInt(s: string): int {
    if |s| > 0 && s[0] == '-' then -(ParseNat(s[1..]) as int) else ParseNat(s)
  }

  lemma {:induction false} DigitsRoundTrip(x: nat)
    ensures ParseNat(Digits(x)) == x
    decreases x
  {
    if x < 10 {
      DigitValueOfDigitChar(x);
      assert Digits(x)[..0] == [];
    } else {
      var s := Digits(x);
      assert s[..|s| - 1] == Digits(x / 10);
      DigitsRoundTrip(x / 10);
      DigitValueOfDigitChar(x % 10);
    }
  }

  /** A digit string carries no sign, so it is read as a natural number. */
  lemma ParseUnsigned(d: string)
    requires |d| >= 1 && AllDigits(d)
    ensures ParseInt(d) == ParseNat(d)
  {
    assert IsDigit(d[0]);
  }

  /** A leading `-` negates what follows it. */
  lemma ParseSigned(d: string)
    ensures ParseInt("-" + d) == -(ParseNat(d) as int)
  {
    var s := "-" + d;
    assert s[0] == '-' && s[1..] == d;
  }

  /** The negative case of the round trip, over named strings. */
  lemma ParseNegative(i: int, s: string, d: string)
    requires i < 0 && s == "-" + d && ParseNat(d) == -i
    ensures ParseInt(s) == i
  {
    ParseSigned(d);
  }

  /** Decimal rendering is invertible: no two integers print alike. */
  lemma IntToStringRoundTrip(i: int)
    ensures ParseInt(IntToString(i)) == i
  {
    if i < 0 {
      var x: nat := -i;
      DigitsRoundTrip(x);
      ParseNegative(i, IntToString(i), Digits(x));
    } else {
      DigitsRoundTrip(i);
      ParseUnsigned(Digits(i));
    }
  }

  lemma IntToStringInjective(a: int, b: int)
    ensures IntToString(a) == IntToString(b) ==> a == b
  {
    IntToStringRoundTrip(a);
    IntToStringRoundTrip(b);
  }
}
