/** Digit strings as numbers: the value of a string, most significant digit
    first, in a base; the normal form without leading zeros; and the
    canonical string of a natural number. */
module Numerals {
  import opened Digits

  function Pow(base: nat, e: nat): nat {
    if e == 0 then 1 else base * Pow(base, e - 1)
  }

  /** Every character of `s` is a digit whose value is below `base`. */
  predicate ValidDigits(s: string, base: nat) {
    forall k :: 0 <= k < |s| ==> 0 <= DigitValue(s[k]) < base
  }

  /** The number `s` denotes in `base`; the empty string denotes 0. */
  function Value(s: string, base: nat): nat
    requires ValidDigits(s, base)
    decreases |s|
  {
    if s == [] then 0
    else Value(s[..|s| - 1], base) * base + DigitValue(s[|s| - 1])
  }

  /** No leading '0' unless the string is exactly "0". */
  predicate IsNormalized(s: string) {
    |s| > 0 && (s[0] == '0' ==> |s| == 1)
  }

  predicate AllZeros(s: string) {
    forall k :: 0 <= k < |s| ==> s[k] == '0'
  }

  /** The canonical digit string of `n`. */
  function FromNat(n: nat, base: nat): (s: string)
    requires 2 <= base <= ALL_DIGIT_COUNT
    ensures ValidDigits(s, base) && IsNormalized(s)
    ensures Value(s, base) == n
    decreases n
  {
    DigitRoundTrip(n % base);
    if n < base then
      ValueSingle(ToDigit(n), base);
      [ToDigit(n)]
    else
      DivLess(n, base);
      var p, c := FromNat(n / base, base), ToDigit(n % base);
      assert p != "0" by {
        if p == "0" { ValueSingle('0', base); }
      }
      ValueAppend(p, c, base);
      DivModSplit(n, base);
      p + [c]
  }

  lemma DivLess(n: nat, base: nat)
    requires 2 <= base <= n
    ensures 1 <= n / base < n
  {
    var q, r := n / base, n % base;
    DivModSplit(n, base);
    assert 0 <= r < base;
    MulAtLeast2(q, base);
  }

  lemma MulAtLeast2(q: int, base: int)
    requires q >= 0 && base >= 2
    ensures q * base >= 2 * q
  {
  }

  lemma DivModSplit(n: nat, base: nat)
    requires base > 0
    ensures n == (n / base) * base + n % base
  {
  }

  /** Appending a digit shifts the number one place and adds the digit. */
  lemma ValueAppend(p: string, c: char, base: nat)
    requires ValidDigits(p, base) && 0 <= DigitValue(c) < base
    ensures ValidDigits(p + [c], base)
    ensures Value(p + [c], base) == Value(p, base) * base + DigitValue(c)
  {
    assert (p + [c])[..|p|] == p;
  }

  lemma ValueSingle(c: char, base: nat)
    requires 0 <= DigitValue(c) < base
    ensures ValidDigits([c], base) && Value([c], base) == DigitValue(c)
  {
    assert [c][..0] == [];
  }

  lemma MulDistrib(v: int, p: int, w: int, base: int, d: int)
    ensures (v * p + w) * base + d == v * (base * p) + (w * base + d)
  {
  }

  /** Positional notation: a string is its prefix shifted by the length of
      its suffix, plus the suffix. */
  lemma {:induction false} ValueConcat(s: string, t: string, base: nat)
    requires ValidDigits(s, base) && ValidDigits(t, base)
    ensures ValidDigits(s + t, base)
    ensures Value(s + t, base) == Value(s, base) * Pow(base, |t|) + Value(t, base)
    decreases |t|
  {
    if t == [] {
      assert s + t == s;
    } else {
      var t' := t[..|t| - 1];
      ValueConcat(s, t', base);
      assert (s + t)[..|s + t| - 1] == s + t';
      assert (s + t)[|s + t| - 1] == t[|t| - 1];
      MulDistrib(Value(s, base), Pow(base, |t'|), Value(t', base), base, DigitValue(t[|t| - 1]));
    }
  }

  /** The leading digit weighs `base` to the power of the rest's length. */
  lemma ValueCons(c: char, t: string, base: nat)
    requires 0 <= DigitValue(c) < base && ValidDigits(t, base)
    ensures ValidDigits([c] + t, base)
    ensures Value([c] + t, base) == DigitValue(c) * Pow(base, |t|) + Value(t, base)
  {
    ValueSingle(c, base);
    ValueConcat([c], t, base);
  }

  lemma {:induction false} AllZerosValue(s: string, base: nat)
    requires AllZeros(s) && base >= 1
    ensures ValidDigits(s, base) && Value(s, base) == 0
    decreases |s|
  {
    if s != [] {
      AllZerosValue(s[..|s| - 1], base);
    }
  }

  /** Leading zeros do not change the value. */
  lemma ZeroPrefixValue(z: string, t: string, base: nat)
    requires AllZeros(z) && base >= 1 && ValidDigits(t, base)
    ensures ValidDigits(z + t, base) && Value(z + t, base) == Value(t, base)
  {
    AllZerosValue(z, base);
    ValueConcat(z, t, base);
  }

  /** Trailing zeros multiply by a power of the base. */
  lemma ZeroSuffixValue(t: string, z: string, base: nat)
    requires AllZeros(z) && base >= 1 && ValidDigits(t, base)
    ensures ValidDigits(t + z, base) && Value(t + z, base) == Value(t, base) * Pow(base, |z|)
  {
    AllZerosValue(z, base);
    ValueConcat(t, z, base);
  }

  lemma PowPositive(base: nat, e: nat)
    requires base >= 1
    ensures Pow(base, e) >= 1
  {
  }

  lemma {:induction false} PowMonotone(base: nat, m: nat, n: nat)
    requires base >= 1 && m <= n
    ensures Pow(base, m) <= Pow(base, n)
    decreases n
  {
    if m < n {
      PowMonotone(base, m, n - 1);
      PowPositive(base, n - 1);
      MulAtLeast(base, Pow(base, n - 1));
      assert Pow(base, n) == base * Pow(base, n - 1);
    }
  }

  lemma BoundStep(v: int, p: int, base: int, d: int)
    requires 0 <= v < p && 0 <= d < base
    ensures v * base + d < base * p
  {
    assert v * base <= (p - 1) * base;
  }

  /** A string of `k` digits denotes less than `base^k`. */
  lemma {:induction false} ValueBound(s: string, base: nat)
    requires ValidDigits(s, base)
    ensures Value(s, base) < Pow(base, |s|)
    decreases |s|
  {
    if s != [] {
      ValueBound(s[..|s| - 1], base);
      BoundStep(Value(s[..|s| - 1], base), Pow(base, |s| - 1), base, DigitValue(s[|s| - 1]));
    }
  }

  /** A string of `k` digits whose first digit is not '0' denotes at least
      `base^(k-1)`. */
  lemma LeadingDigitBound(s: string, base: nat)
    requires ValidDigits(s, base) && |s| > 0 && s[0] != '0'
    ensures Value(s, base) >= Pow(base, |s| - 1)
  {
    assert s == [s[0]] + s[1..];
    ValueCons(s[0], s[1..], base);
    LeadingWeight(DigitValue(s[0]), Pow(base, |s| - 1), Value(s[1..], base));
  }

  lemma DivModUnique(v: int, base: int, d: int)
    requires base > 0 && 0 <= d < base
    ensures (v * base + d) / base == v && (v * base + d) % base == d
  {
    var x := v * base + d;
    var q, r := x / base, x % base;
    assert 0 <= r < base;
    assert q * base + r == v * base + d;
    MulSubDistrib(q, v, base);
    if q > v {
      MulAtLeast(q - v, base);
    } else if q < v {
      MulAtLeast(v - q, base);
      MulSubDistrib(v, q, base);
    }
  }

  lemma MulSubDistrib(a: int, b: int, c: int)
    ensures (a - b) * c == a * c - b * c
  {
  }

  lemma MulAtLeast(k: int, base: int)
    requires k >= 1 && base > 0
    ensures k * base >= base
  {
  }

  lemma LeadingWeight(d: int, p: int, v: int)
    requires d >= 1 && p >= 0 && v >= 0
    ensures d * p + v >= p
  {
  }

  /** Normal form is unique: encoding the value of a normalized string gives
      back that string. */
  lemma {:induction false} FromNatOfValue(s: string, base: nat)
    requires 2 <= base <= ALL_DIGIT_COUNT
    requires ValidDigits(s, base) && IsNormalized(s)
    ensures FromNat(Value(s, base), base) == s
    decreases |s|
  {
    var p, c := s[..|s| - 1], s[|s| - 1];
    var n := Value(s, base);
    assert n == Value(p, base) * base + DigitValue(c);
    DivModUnique(Value(p, base), base, DigitValue(c));
    CharRoundTrip(c);
    if |s| == 1 {
      assert p == [];
      assert n == DigitValue(c);
      assert s == [c];
    } else {
      assert p[0] == s[0] != '0';
      LeadingDigitBound(p, base);
      PowPositive(base, |p| - 1);
      MulAtLeast(Value(p, base), base);
      FromNatOfValue(p, base);
      assert FromNat(n, base) == FromNat(n / base, base) + [ToDigit(n % base)];
      assert s == p + [c];
    }
  }

  /** A normalized string of value `n` is the canonical string of `n`. */
  lemma CanonicalForm(s: string, n: nat, base: nat)
    requires 2 <= base <= ALL_DIGIT_COUNT
    requires ValidDigits(s, base) && IsNormalized(s) && Value(s, base) == n
    ensures s == FromNat(n, base)
  {
    FromNatOfValue(s, base);
  }

  /** Two normalized strings with the same value are the same string. */
  lemma NormalFormUnique(s: string, t: string, base: nat)
    requires 2 <= base <= ALL_DIGIT_COUNT
    requires ValidDigits(s, base) && IsNormalized(s)
    requires ValidDigits(t, base) && IsNormalized(t)
    requires Value(s, base) == Value(t, base)
    ensures s == t
  {
    FromNatOfValue(s, base);
    FromNatOfValue(t, base);
  }

  /** `strcmp(a, b) < 0` on strings that hold no NUL character. */
  predicate LexLess(a: string, b: string): (less: bool)
    ensures less ==> a != b
    decreases |a|
  {
    if a == [] then b != []
    else if b == [] then false
    else if a[0] != b[0] then a[0] < b[0]
    else LexLess(a[1..], b[1..])
  }
  /** `strcmp(a, b) < 0` and `strcmp(b, a) < 0` never hold together. */
  lemma {:induction false} LexLessAsymmetric(a: string, b: string)
    ensures LexLess(a, b) ==> !LexLess(b, a)
    decreases |a|
  {
    if a != [] && b != [] && a[0] == b[0] {
      LexLessAsymmetric(a[1..], b[1..]);
    }
  }


  lemma LeadingDigitCompare(da: int, db: int, p: int, va: int, vb: int)
    requires 0 <= da < db && 0 <= va < p && 0 <= vb
    ensures da * p + va < db * p + vb
  {
    assert (da + 1) * p <= db * p;
  }

  /** On strings of equal length, strcmp order is numeric order. */
  lemma {:induction false} LexLessValue(a: string, b: string, base: nat)
    requires |a| == |b| && ValidDigits(a, base) && ValidDigits(b, base)
    ensures LexLess(a, b) <==> Value(a, base) < Value(b, base)
    decreases |a|
  {
    if a != [] {
      assert a == [a[0]] + a[1..];
      assert b == [b[0]] + b[1..];
      ValueCons(a[0], a[1..], base);
      ValueCons(b[0], b[1..], base);
      var p := Pow(base, |a| - 1);
      if a[0] == b[0] {
        LexLessValue(a[1..], b[1..], base);
      } else {
        DigitOrder(a[0], b[0]);
        ValueBound(a[1..], base);
        ValueBound(b[1..], base);
        if a[0] < b[0] {
          LeadingDigitCompare(DigitValue(a[0]), DigitValue(b[0]), p, Value(a[1..], base), Value(b[1..], base));
        } else {
          LeadingDigitCompare(DigitValue(b[0]), DigitValue(a[0]), p, Value(b[1..], base), Value(a[1..], base));
        }
      }
    }
  }

  lemma ShorterIsSmaller(a: string, b: string, base: nat)
    requires ValidDigits(a, base) && ValidDigits(b, base) && base >= 1
    requires IsNormalized(b) && 0 < |a| < |b|
    ensures Value(a, base) < Value(b, base)
  {
    ValueBound(a, base);
    LeadingDigitBound(b, base);
    PowMonotone(base, |a|, |b| - 1);
  }

  /** The test `arithmatoy_sub` uses to refuse a negative difference:
      shorter, or equally long and smaller under strcmp, is exactly
      numerically smaller on normalized strings. */
  lemma NormalizedLess(a: string, b: string, base: nat)
    requires ValidDigits(a, base) && ValidDigits(b, base) && base >= 1
    requires IsNormalized(a) && IsNormalized(b)
    ensures (|a| < |b| || (|a| == |b| && LexLess(a, b))) <==> Value(a, base) < Value(b, base)
  {
    if |a| < |b| {
      ShorterIsSmaller(a, b, base);
    } else if |b| < |a| {
      ShorterIsSmaller(b, a, base);
    } else {
      LexLessValue(a, b, base);
    }
  }
}
