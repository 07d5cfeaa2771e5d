/** Base-10 text of integers, as `%PRIu64` / `%PRId64` print them (ISO C11
    section 7.21.6.1, conversions `u` and `d` with no flags, width or
    precision): the digits of the value without leading zeros, a single "0"
    for zero, and a leading '-' for negative values. */
module Decimal {
  import opened Bytes

  const ZERO: Byte := 48
  const MINUS: Byte := 45

  predicate IsDigit(b: Byte) { ZERO <= b <= ZERO + 9 }

  predicate AllDigits(s: seq<Byte>) { forall i :: 0 <= i < |s| ==> IsDigit(s[i]) }

  /** No leading zero unless the text is the single digit "0". */
  predicate Canonical(s: seq<Byte>) {
    |s| >= 1 && AllDigits(s) && (|s| > 1 ==> s[0] != ZERO)
  }

  /** The base-10 text of `n`. */
  function DecimalText(n: nat): (r: seq<Byte>)
    decreases n
    ensures |r| >= 1 && AllDigits(r)
    ensures r[0] == ZERO <==> n == 0
  {
    if n < 10 then [ZERO + n] else DecimalText(n / 10) + [ZERO + n % 10]
  }

  /** The value a digit string denotes. */
  function DigitsValue(s: seq<Byte>): nat
    requires AllDigits(s)
  {
    if s == [] then 0 else DigitsValue(s[..|s| - 1]) * 10 + (s[|s| - 1] - ZERO)
  }

  /** The text is canonical and denotes `n` again. */
  lemma {:induction false} DecimalRoundTrip(n: nat)
    ensures Canonical(DecimalText(n))
    ensures DigitsValue(DecimalText(n)) == n
    decreases n
  {
    if n >= 10 {
      DecimalRoundTrip(n / 10);
      var r := DecimalText(n);
      assert r[..|r| - 1] == DecimalText(n / 10);
    }
  }

  /** Every canonical digit string is the text of the value it denotes, so
      the rendering is onto the canonical strings and one-to-one. */
  lemma {:induction false} CanonicalIsDecimalText(s: seq<Byte>)
    requires Canonical(s)
    ensures DecimalText(DigitsValue(s)) == s
    decreases |s|
  {
    if |s| > 1 {
      var p := s[..|s| - 1];
      var v := DigitsValue(s);
      var d := s[|s| - 1] - ZERO;
      assert p[0] == s[0];
      CanonicalIsDecimalText(p);
      PositiveValue(s);
      assert v == DigitsValue(p) * 10 + d;
      assert v / 10 == DigitsValue(p) && v % 10 == d;
      assert s == p + [s[|s| - 1]];
    }
  }

  lemma {:induction false} PositiveValue(s: seq<Byte>)
    requires Canonical(s) && |s| > 1
    ensures DigitsValue(s) >= 10
    decreases |s|
  {
    var p := s[..|s| - 1];
    assert p[0] == s[0];
    if |p| > 1 {
      PositiveValue(p);
    } else {
      assert p == [s[0]];
      assert DigitsValue(p) == s[0] - ZERO;
    }
  }

  function Pow10(k: nat): nat { if k == 0 then 1 else 10 * Pow10(k - 1) }

  /** Values below 10^k need at most k digits. */
  lemma {:induction false} DecimalLength(n: nat, k: nat)
    requires n < Pow10(k)
    ensures 1 <= |DecimalText(n)| <= if k == 0 then 1 else k
    decreases n
  {
    if n >= 10 {
      assert Pow10(0) == 1 && Pow10(1) == 10;
      DecimalLength(n / 10, k - 1);
    }
  }

  lemma Pow10Value()
    ensures Pow10(19) == 10_000_000_000_000_000_000
    ensures Pow10(20) == 100_000_000_000_000_000_000
  {
    assert Pow10(5) == 100_000;
    assert Pow10(10) == 10_000_000_000 by { Pow10Add(5, 5); }
    assert Pow10(19) == 10_000_000_000_000_000_000 by { Pow10Add(10, 9); assert Pow10(9) == 1_000_000_000; }
    assert Pow10(20) == 100_000_000_000_000_000_000 by { Pow10Add(10, 10); }
  }

  lemma {:induction false} Pow10Add(a: nat, b: nat)
    ensures Pow10(a + b) == Pow10(a) * Pow10(b)
  {
    if b > 0 {
      Pow10Add(a, b - 1);
      assert Pow10(a + b) == 10 * Pow10(a + b - 1);
    }
  }

  /** The longest 64-bit texts: 20 digits unsigned, 19 digits for a magnitude
      up to 2^63. */
  lemma DecimalLength64(n: nat)
    ensures n < TWO_POW_64 ==> |DecimalText(n)| <= 20
    ensures n <= TWO_POW_63 ==> |DecimalText(n)| <= 19
  {
    Pow10Value();
    if n < TWO_POW_64 { DecimalLength(n, 20); }
    if n <= TWO_POW_63 { DecimalLength(n, 19); }
  }

  /** The base-10 text of a signed value. */
  function SignedText(v: int): (r: seq<Byte>)
    ensures |r| >= 1 && (r[0] == MINUS <==> v < 0)
  {
    if v < 0 then [MINUS] + DecimalText(-v) else DecimalText(v)
  }

  /** A signed text starts with '-' exactly for negative values, and the
      digits after it denote the magnitude. */
  lemma SignedRoundTrip(v: int)
    ensures var t := SignedText(v);
            |t| >= 1 && (t[0] == MINUS <==> v < 0)
            && (v < 0 ==> Canonical(t[1..]) && DigitsValue(t[1..]) == -v)
            && (v >= 0 ==> Canonical(t) && DigitsValue(t) == v)
  {
    if v < 0 {
      DecimalRoundTrip(-v);
      assert SignedText(v)[1..] == DecimalText(-v);
    } else {
      DecimalRoundTrip(v);
    }
  }
}
