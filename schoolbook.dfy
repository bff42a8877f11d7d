/** Schoolbook arithmetic column by column: what the digit loops of
    `arithmatoy_add`, `arithmatoy_sub` and `arithmatoy_mul` compute in each
    column, as functions of the operands, and what the columns add up to. */
module Schoolbook {
  import opened Digits
  import opened Numerals

  // ---------------------------------------------------------------------
  // Arithmetic facts the columns rest on

  lemma CarryStep(sum: int, base: int, p: int)
    requires base > 0
    ensures (sum % base) * p + (sum / base) * (base * p) == sum * p
  {
    var q, r := sum / base, sum % base;
    assert sum == q * base + r;
    calc {
      r * p + q * (base * p);
      r * p + (q * base) * p;
      (q * base + r) * p;
    }
  }

  lemma MulLe(a: int, b: int, c: int)
    requires a <= b && c >= 0
    ensures a * c <= b * c
  {
  }

  lemma DivBelow(s: int, base: int, k: int)
    requires base > 0 && 0 <= s < k * base
    ensures s / base < k
  {
    var q := s / base;
    assert s == q * base + s % base;
    if q >= k {
      MulLe(k, q, base);
    }
  }

  lemma DivNonnegative(s: int, base: int)
    requires base > 0 && 0 <= s
    ensures 0 <= s / base
  {
    var q := s / base;
    assert s == q * base + s % base;
    if q < 0 {
      MulLe(q, -1, base);
    }
  }

  /** A column sum below twice the base gives a carry of 0 or 1. */
  lemma DivSmall(sum: int, base: int)
    requires base > 0 && 0 <= sum < 2 * base
    ensures sum / base == (if sum < base then 0 else 1)
    ensures sum % base == (if sum < base then sum else sum - base)
  {
    var q, r := sum / base, sum % base;
    assert sum == q * base + r;
    if sum < base {
      if q >= 1 {
        MulLe(1, q, base);
      } else if q <= -1 {
        MulLe(q, -1, base);
      }
    } else {
      if q >= 2 {
        MulLe(2, q, base);
      } else if q <= 0 {
        MulLe(q, 0, base);
      }
    }
  }

  // ---------------------------------------------------------------------
  // Subtraction: `b` is aligned to the right end of `a` (|b| <= |a|) and
  // columns are indexed by their position k in `a`.

  /** The digit of `b` under column `k`; 0 left of `b`'s first digit. */
  function RhsDigit(a: string, b: string, k: nat): int
    requires k < |a| && |b| <= |a|
  {
    if k >= |a| - |b| then DigitValue(b[k - (|a| - |b|)]) else 0
  }

  /** The digits of `b` under columns k..|a|-1. */
  function RhsTail(a: string, b: string, k: nat): string
    requires k <= |a| && |b| <= |a|
  {
    if k >= |a| - |b| then b[k - (|a| - |b|)..] else b
  }

  /** Column `k` of `a - b` less the borrow coming in from column k + 1. */
  function ColumnDiff(a: string, b: string, k: nat, borrow: nat): int
    requires k < |a| && |b| <= |a|
  {
    DigitValue(a[k]) - borrow - RhsDigit(a, b, k)
  }

  /** The borrow the columns k..|a|-1 pass on to column k - 1. */
  function Borrow(a: string, b: string, k: nat): (borrow: nat)
    requires k <= |a| && |b| <= |a|
    ensures borrow <= 1
    decreases |a| - k
  {
    if k == |a| then 0
    else if ColumnDiff(a, b, k, Borrow(a, b, k + 1)) < 0 then 1
    else 0
  }

  /** The digit value the subtraction writes in column `k`. */
  function SubDigit(a: string, b: string, k: nat, base: nat): int
    requires k < |a| && |b| <= |a|
  {
    var diff := ColumnDiff(a, b, k, Borrow(a, b, k + 1));
    if diff < 0 then diff + base else diff
  }

  /** One column: the written digit and the borrow out account for both
      operand digits and the borrow in. */
  lemma SubColumn(w: int, bv: int, av: int, borrow: int, borrow': int,
                  ld: int, rd: int, diff: int, base: int, p: int)
    requires w + bv == av + borrow * p
    requires diff == ld - borrow - rd + borrow' * base
    ensures (diff * p + w) + (rd * p + bv) == (ld * p + av) + borrow' * (base * p)
  {
    assert diff * p == ld * p - borrow * p - rd * p + borrow' * (base * p);
  }

  /** Every column digit is a digit of the base. */
  lemma SubDigitBound(a: string, b: string, k: nat, base: nat)
    requires ValidDigits(a, base) && ValidDigits(b, base)
    requires k < |a| && |b| <= |a|
    ensures 0 <= SubDigit(a, b, k, base) < base
    ensures SubDigit(a, b, k, base) == ColumnDiff(a, b, k, Borrow(a, b, k + 1)) + Borrow(a, b, k) * base
  {
    if k >= |a| - |b| {
      assert 0 <= DigitValue(b[k - (|a| - |b|)]) < base;
    }
  }

  /** Reading one more column of `b`, or a 0 left of its first digit. */
  lemma RhsTailValue(a: string, b: string, k: nat, base: nat)
    requires ValidDigits(b, base) && k < |a| && |b| <= |a|
    ensures ValidDigits(RhsTail(a, b, k), base) && ValidDigits(RhsTail(a, b, k + 1), base)
    ensures Value(RhsTail(a, b, k), base)
            == RhsDigit(a, b, k) * Pow(base, |a| - (k + 1)) + Value(RhsTail(a, b, k + 1), base)
  {
    var offset := |a| - |b|;
    if k >= offset {
      var j := k - offset;
      SuffixValue(b, j, base);
      assert RhsTail(a, b, k) == b[j..] && RhsTail(a, b, k + 1) == b[j + 1..];
      assert RhsDigit(a, b, k) == DigitValue(b[j]) && |b| - (j + 1) == |a| - (k + 1);
    } else {
      assert RhsDigit(a, b, k) == 0 && RhsTail(a, b, k) == b;
      if k + 1 == offset {
        assert RhsTail(a, b, k + 1) == b[0..] == b;
      } else {
        assert RhsTail(a, b, k + 1) == b;
      }
    }
  }

  /** The digits the subtraction writes in columns k..|a|-1. */
  function SubDigits(a: string, b: string, k: nat, base: nat): (s: string)
    requires ValidDigits(a, base) && ValidDigits(b, base) && k <= |a| && |b| <= |a|
    ensures |s| == |a| - k
    decreases |a| - k
  {
    if k == |a| then []
    else
      SubDigitBound(a, b, k, base);
      [ToDigit(SubDigit(a, b, k, base))] + SubDigits(a, b, k + 1, base)
  }

  /** Peeling the leading digit off a suffix of a digit string. */
  lemma SuffixValue(s: string, k: nat, base: nat)
    requires ValidDigits(s, base) && k < |s|
    ensures ValidDigits(s[k..], base) && ValidDigits(s[k + 1..], base)
    ensures Value(s[k..], base) == DigitValue(s[k]) * Pow(base, |s| - (k + 1)) + Value(s[k + 1..], base)
  {
    assert s[k..] == [s[k]] + s[k + 1..];
    ValueCons(s[k], s[k + 1..], base);
  }

  /** Peeling the leading column off the subtraction's digits. */
  lemma SubDigitsValue(a: string, b: string, k: nat, base: nat)
    requires base <= ALL_DIGIT_COUNT && ValidDigits(a, base) && ValidDigits(b, base)
    requires k < |a| && |b| <= |a| && ValidDigits(SubDigits(a, b, k + 1, base), base)
    ensures ValidDigits(SubDigits(a, b, k, base), base)
    ensures Value(SubDigits(a, b, k, base), base)
            == SubDigit(a, b, k, base) * Pow(base, |a| - (k + 1)) + Value(SubDigits(a, b, k + 1, base), base)
  {
    SubDigitBound(a, b, k, base);
    DigitRoundTrip(SubDigit(a, b, k, base));
    ValueCons(ToDigit(SubDigit(a, b, k, base)), SubDigits(a, b, k + 1, base), base);
  }


  /** Column `k` written out: the borrow out of it tops up a negative
      difference by one base. */
  lemma SubColumnDigit(a: string, b: string, k: nat, base: nat)
    requires k < |a| && |b| <= |a|
    ensures SubDigit(a, b, k, base)
            == DigitValue(a[k]) - Borrow(a, b, k + 1) - RhsDigit(a, b, k) + Borrow(a, b, k) * base
  {
  }

  /** Columns k..|a|-1 of a digit string, each at its weight. */
  function SuffixWeighted(a: string, k: nat, base: nat): int
    requires k <= |a|
    decreases |a| - k
  {
    if k == |a| then 0 else DigitValue(a[k]) * Pow(base, |a| - (k + 1)) + SuffixWeighted(a, k + 1, base)
  }

  /** Columns k..|a|-1 of `b` aligned under `a`, each at its weight. */
  function RhsWeighted(a: string, b: string, k: nat, base: nat): int
    requires k <= |a| && |b| <= |a|
    decreases |a| - k
  {
    if k == |a| then 0 else RhsDigit(a, b, k) * Pow(base, |a| - (k + 1)) + RhsWeighted(a, b, k + 1, base)
  }

  /** Columns k..|a|-1 of the difference, each at its weight. */
  function DiffWeighted(a: string, b: string, k: nat, base: nat): int
    requires k <= |a| && |b| <= |a|
    decreases |a| - k
  {
    if k == |a| then 0 else SubDigit(a, b, k, base) * Pow(base, |a| - (k + 1)) + DiffWeighted(a, b, k + 1, base)
  }

  /** Column by column, the written digits and `b` balance `a` and the
      borrow out of column `k`. */
  lemma {:induction false} BorrowBalance(a: string, b: string, k: nat, base: nat)
    requires |b| <= |a| && k <= |a|
    ensures DiffWeighted(a, b, k, base) + RhsWeighted(a, b, k, base)
            == SuffixWeighted(a, k, base) + Borrow(a, b, k) * Pow(base, |a| - k)
    decreases |a| - k
  {
    if k < |a| {
      BorrowBalance(a, b, k + 1, base);
      SubColumnDigit(a, b, k, base);
      assert |a| - k == (|a| - (k + 1)) + 1;
      SubColumn(DiffWeighted(a, b, k + 1, base), RhsWeighted(a, b, k + 1, base), SuffixWeighted(a, k + 1, base),
                Borrow(a, b, k + 1), Borrow(a, b, k), DigitValue(a[k]), RhsDigit(a, b, k),
                SubDigit(a, b, k, base), base, Pow(base, |a| - (k + 1)));
    }
  }

  lemma {:induction false} SuffixWeightedValue(a: string, k: nat, base: nat)
    requires ValidDigits(a, base) && k <= |a|
    ensures ValidDigits(a[k..], base) && Value(a[k..], base) == SuffixWeighted(a, k, base)
    decreases |a| - k
  {
    if k == |a| {
      assert a[k..] == [];
    } else {
      SuffixWeightedValue(a, k + 1, base);
      SuffixValue(a, k, base);
    }
  }

  lemma {:induction false} RhsWeightedValue(a: string, b: string, k: nat, base: nat)
    requires ValidDigits(b, base) && k <= |a| && |b| <= |a|
    ensures ValidDigits(RhsTail(a, b, k), base) && Value(RhsTail(a, b, k), base) == RhsWeighted(a, b, k, base)
    decreases |a| - k
  {
    if k == |a| {
      assert RhsTail(a, b, k) == [];
    } else {
      RhsWeightedValue(a, b, k + 1, base);
      RhsTailValue(a, b, k, base);
    }
  }

  lemma {:induction false} DiffWeightedValue(a: string, b: string, k: nat, base: nat)
    requires base <= ALL_DIGIT_COUNT && ValidDigits(a, base) && ValidDigits(b, base)
    requires k <= |a| && |b| <= |a|
    ensures ValidDigits(SubDigits(a, b, k, base), base)
    ensures Value(SubDigits(a, b, k, base), base) == DiffWeighted(a, b, k, base)
    decreases |a| - k
  {
    if k < |a| {
      DiffWeightedValue(a, b, k + 1, base);
      SubDigitsValue(a, b, k, base);
    }
  }

  /** The columns from `k` on denote the difference of the operands' digits
      from column `k` on, plus the borrow out of column `k` times the
      weight of that column. */
  lemma SubtractionValue(a: string, b: string, k: nat, base: nat)
    requires base <= ALL_DIGIT_COUNT && ValidDigits(a, base) && ValidDigits(b, base)
    requires |b| <= |a| && k <= |a|
    ensures ValidDigits(SubDigits(a, b, k, base), base)
    ensures Value(SubDigits(a, b, k, base), base) + Value(RhsTail(a, b, k), base)
            == Value(a[k..], base) + Borrow(a, b, k) * Pow(base, |a| - k)
  {
    BorrowBalance(a, b, k, base);
    SuffixWeightedValue(a, k, base);
    RhsWeightedValue(a, b, k, base);
    DiffWeightedValue(a, b, k, base);
  }

  /** Every subtraction column digit, read back from `SubDigits`. */
  lemma {:induction false} SubDigitsAt(a: string, b: string, k: nat, q: nat, base: nat)
    requires ValidDigits(a, base) && ValidDigits(b, base) && |b| <= |a| && k <= q < |a|
    ensures SubDigits(a, b, k, base)[q - k] == ToDigit(SubDigit(a, b, q, base))
    decreases q - k
  {
    if q > k {
      SubDigitsAt(a, b, k + 1, q, base);
    }
  }

  /** A string holding the column digits at every position is `SubDigits`. */
  lemma SubDigitsPointwise(a: string, b: string, s: string, base: nat)
    requires ValidDigits(a, base) && ValidDigits(b, base) && |b| <= |a| && |s| == |a|
    requires forall q :: 0 <= q < |a| ==> s[q] == ToDigit(SubDigit(a, b, q, base))
    ensures s == SubDigits(a, b, 0, base)
  {
    forall q | 0 <= q < |a|
      ensures s[q] == SubDigits(a, b, 0, base)[q]
    {
      SubDigitsAt(a, b, 0, q, base);
    }
  }

  // ---------------------------------------------------------------------
  // Addition and partial products: columns are numbered from the least
  // significant end, column 0 first.

  /** The digit of `s` in column `n`; 0 past its most significant digit. */
  function ColumnDigit(s: string, n: nat): int {
    if n < |s| then DigitValue(s[|s| - 1 - n]) else 0
  }

  /** The `n` least significant digits of `s` (all of them when n >= |s|). */
  function Low(s: string, n: nat): string {
    if n < |s| then s[|s| - n..] else s
  }

  /** Reading one more column of a digit string. */
  lemma LowValue(s: string, n: nat, base: nat)
    requires ValidDigits(s, base) && n > 0
    ensures ValidDigits(Low(s, n - 1), base) && ValidDigits(Low(s, n), base)
    ensures Value(Low(s, n), base) == ColumnDigit(s, n - 1) * Pow(base, n - 1) + Value(Low(s, n - 1), base)
  {
    if n - 1 < |s| {
      var k := |s| - n;
      SuffixValue(s, k, base);
      assert Low(s, n) == s[k..] && Low(s, n - 1) == s[k + 1..];
      assert ColumnDigit(s, n - 1) == DigitValue(s[k]) && |s| - (k + 1) == n - 1;
    } else {
      assert Low(s, n) == s && Low(s, n - 1) == s && ColumnDigit(s, n - 1) == 0;
    }
  }

  lemma LowAll(s: string, n: nat)
    requires |s| <= n
    ensures Low(s, n) == s
  {
  }

  /** The carry into column `n` of lhs + rhs. */
  function Carry(lhs: string, rhs: string, n: nat, base: nat): int
    requires base > 0
  {
    if n == 0 then 0
    else (ColumnDigit(lhs, n - 1) + ColumnDigit(rhs, n - 1) + Carry(lhs, rhs, n - 1, base)) / base
  }

  /** The digit value of column `n` of lhs + rhs. */
  function SumDigit(lhs: string, rhs: string, n: nat, base: nat): nat
    requires base > 0
  {
    (ColumnDigit(lhs, n) + ColumnDigit(rhs, n) + Carry(lhs, rhs, n, base)) % base
  }

  /** The digits of columns n-1..0 of lhs + rhs, most significant first. */
  function SumDigits(lhs: string, rhs: string, n: nat, base: nat): (s: string)
    requires base > 0
    ensures |s| == n
  {
    if n == 0 then [] else [ToDigit(SumDigit(lhs, rhs, n - 1, base))] + SumDigits(lhs, rhs, n - 1, base)
  }

  /** One column of the addition: digit `d` and carry `c` out of a column
      whose weight is `p`, over the columns below it. */
  lemma AddColumn(e: int, carry: int, l: int, r: int, ld: int, rd: int, base: int, p: int,
                  d: int, c: int, weight: int)
    requires base > 0 && weight == base * p
    requires d == (ld + rd + carry) % base && c == (ld + rd + carry) / base
    requires e + carry * p == l + r
    ensures d * p + e + c * weight == (ld * p + l) + (rd * p + r)
  {
    CarryStep(ld + rd + carry, base, p);
    assert (ld + rd + carry) * p == ld * p + rd * p + carry * p;
  }

  /** The carry is 0 or 1, and below the base. */
  lemma {:induction false} CarryBound(lhs: string, rhs: string, n: nat, base: nat)
    requires base > 0 && ValidDigits(lhs, base) && ValidDigits(rhs, base)
    ensures 0 <= Carry(lhs, rhs, n, base) <= 1 && Carry(lhs, rhs, n, base) < base
  {
    if n > 0 {
      CarryBound(lhs, rhs, n - 1, base);
      var l, r := ColumnDigit(lhs, n - 1), ColumnDigit(rhs, n - 1);
      assert 0 <= l < base && 0 <= r < base by {
        if n - 1 < |lhs| {
          assert 0 <= DigitValue(lhs[|lhs| - 1 - (n - 1)]) < base;
        }
        if n - 1 < |rhs| {
          assert 0 <= DigitValue(rhs[|rhs| - 1 - (n - 1)]) < base;
        }
      }
      DivSmall(l + r + Carry(lhs, rhs, n - 1, base), base);
    }
  }

  /** Peeling the leading column off the sum's digits. */
  lemma SumDigitsValue(lhs: string, rhs: string, n: nat, base: nat)
    requires 0 < base <= ALL_DIGIT_COUNT && n > 0 && ValidDigits(SumDigits(lhs, rhs, n - 1, base), base)
    ensures ValidDigits(SumDigits(lhs, rhs, n, base), base)
    ensures Value(SumDigits(lhs, rhs, n, base), base)
            == SumDigit(lhs, rhs, n - 1, base) * Pow(base, n - 1) + Value(SumDigits(lhs, rhs, n - 1, base), base)
  {
    DigitRoundTrip(SumDigit(lhs, rhs, n - 1, base));
    ValueCons(ToDigit(SumDigit(lhs, rhs, n - 1, base)), SumDigits(lhs, rhs, n - 1, base), base);
  }

  /** Column n-1's digit and the carry out of it share one column sum. */
  lemma SumColumn(lhs: string, rhs: string, n: nat, base: nat)
    requires base > 0 && n > 0
    ensures SumDigit(lhs, rhs, n - 1, base)
            == (ColumnDigit(lhs, n - 1) + ColumnDigit(rhs, n - 1) + Carry(lhs, rhs, n - 1, base)) % base
    ensures Carry(lhs, rhs, n, base)
            == (ColumnDigit(lhs, n - 1) + ColumnDigit(rhs, n - 1) + Carry(lhs, rhs, n - 1, base)) / base
  {
  }

  /** The low `n` columns of `s`, each digit at its weight. */
  function Weighted(s: string, n: nat, base: nat): int {
    if n == 0 then 0 else ColumnDigit(s, n - 1) * Pow(base, n - 1) + Weighted(s, n - 1, base)
  }

  /** The low `n` sum digits, each at its weight. */
  function SumWeighted(lhs: string, rhs: string, n: nat, base: nat): int
    requires base > 0
  {
    if n == 0 then 0 else SumDigit(lhs, rhs, n - 1, base) * Pow(base, n - 1) + SumWeighted(lhs, rhs, n - 1, base)
  }

  /** Column by column, the sum digits and the carry out of the top column
      balance the operands' columns. */
  lemma {:induction false} ColumnBalance(lhs: string, rhs: string, n: nat, base: nat)
    requires base > 0
    ensures SumWeighted(lhs, rhs, n, base) + Carry(lhs, rhs, n, base) * Pow(base, n)
            == Weighted(lhs, n, base) + Weighted(rhs, n, base)
  {
    if n > 0 {
      ColumnBalance(lhs, rhs, n - 1, base);
      SumColumn(lhs, rhs, n, base);
      AddColumn(SumWeighted(lhs, rhs, n - 1, base), Carry(lhs, rhs, n - 1, base),
                Weighted(lhs, n - 1, base), Weighted(rhs, n - 1, base),
                ColumnDigit(lhs, n - 1), ColumnDigit(rhs, n - 1), base, Pow(base, n - 1),
                SumDigit(lhs, rhs, n - 1, base), Carry(lhs, rhs, n, base), Pow(base, n));
    }
  }

  lemma {:induction false} LowWeighted(s: string, n: nat, base: nat)
    requires ValidDigits(s, base)
    ensures ValidDigits(Low(s, n), base) && Value(Low(s, n), base) == Weighted(s, n, base)
  {
    if n == 0 {
      assert Low(s, 0) == [];
    } else {
      LowWeighted(s, n - 1, base);
      LowValue(s, n, base);
    }
  }

  lemma {:induction false} SumDigitsWeighted(lhs: string, rhs: string, n: nat, base: nat)
    requires 0 < base <= ALL_DIGIT_COUNT
    ensures ValidDigits(SumDigits(lhs, rhs, n, base), base)
    ensures Value(SumDigits(lhs, rhs, n, base), base) == SumWeighted(lhs, rhs, n, base)
  {
    if n > 0 {
      SumDigitsWeighted(lhs, rhs, n - 1, base);
      SumDigitsValue(lhs, rhs, n, base);
    }
  }

  /** The first `n` columns of the sum, with the carry out of them, add up
      to the first `n` columns of the operands. */
  lemma AdditionValue(lhs: string, rhs: string, n: nat, base: nat)
    requires 0 < base <= ALL_DIGIT_COUNT && ValidDigits(lhs, base) && ValidDigits(rhs, base)
    ensures ValidDigits(SumDigits(lhs, rhs, n, base), base)
    ensures Value(SumDigits(lhs, rhs, n, base), base) + Carry(lhs, rhs, n, base) * Pow(base, n)
            == Value(Low(lhs, n), base) + Value(Low(rhs, n), base)
  {
    ColumnBalance(lhs, rhs, n, base);
    LowWeighted(lhs, n, base);
    LowWeighted(rhs, n, base);
    SumDigitsWeighted(lhs, rhs, n, base);
  }

  /** Every sum column digit, read back from `SumDigits`. */
  lemma {:induction false} SumDigitsAt(lhs: string, rhs: string, n: nat, k: nat, base: nat)
    requires base > 0 && k < n
    ensures SumDigits(lhs, rhs, n, base)[k] == ToDigit(SumDigit(lhs, rhs, n - 1 - k, base))
  {
    if k > 0 {
      SumDigitsAt(lhs, rhs, n - 1, k - 1, base);
    }
  }

  /** A string holding the sum's column digits in reverse is `SumDigits`. */
  lemma SumDigitsPointwise(lhs: string, rhs: string, s: string, base: nat)
    requires base > 0
    requires forall k :: 0 <= k < |s| ==> s[k] == ToDigit(SumDigit(lhs, rhs, |s| - 1 - k, base))
    ensures s == SumDigits(lhs, rhs, |s|, base)
  {
    forall k | 0 <= k < |s|
      ensures s[k] == SumDigits(lhs, rhs, |s|, base)[k]
    {
      SumDigitsAt(lhs, rhs, |s|, k, base);
    }
  }

  /** The column sums of lhs + rhs, written least significant first and
      with no carry out of the top, spell lhs + rhs once reversed. */
  lemma SumValue(lhs: string, rhs: string, written: string, s: string, base: nat)
    requires 0 < base <= ALL_DIGIT_COUNT && ValidDigits(lhs, base) && ValidDigits(rhs, base)
    requires |lhs| <= |written| && |rhs| <= |written| && Carry(lhs, rhs, |written|, base) == 0
    requires forall q :: 0 <= q < |written| ==> written[q] == ToDigit(SumDigit(lhs, rhs, q, base))
    requires |s| == |written| && forall k :: 0 <= k < |s| ==> s[k] == written[|s| - 1 - k]
    ensures ValidDigits(s, base) && Value(s, base) == Value(lhs, base) + Value(rhs, base)
  {
    forall k | 0 <= k < |s|
      ensures s[k] == ToDigit(SumDigit(lhs, rhs, |s| - 1 - k, base))
    {
      assert s[k] == written[|s| - 1 - k];
    }
    SumDigitsPointwise(lhs, rhs, s, base);
    AdditionValue(lhs, rhs, |s|, base);
    LowAll(lhs, |s|);
    LowAll(rhs, |s|);
  }

  /** The column differences of a - b spell a - b when b <= a. */
  lemma DifferenceValue(a: string, b: string, base: nat)
    requires base <= ALL_DIGIT_COUNT && ValidDigits(a, base) && ValidDigits(b, base)
    requires |b| <= |a| && Value(b, base) <= Value(a, base)
    ensures Borrow(a, b, 0) == 0
    ensures ValidDigits(SubDigits(a, b, 0, base), base)
    ensures Value(SubDigits(a, b, 0, base), base) == Value(a, base) - Value(b, base)
  {
    var s := SubDigits(a, b, 0, base);
    SubtractionValue(a, b, 0, base);
    assert a[0..] == a;
    assert RhsTail(a, b, 0) == b by {
      if |a| == |b| {
        assert b[0..] == b;
      }
    }
    ValueBound(s, base);
    NoBorrow(Value(s, base), Value(b, base), Value(a, base), Borrow(a, b, 0), Pow(base, |a| - 0));
  }

  /** A borrow out of the top column would make the difference at least
      the top column's weight. */
  lemma NoBorrow(v: int, bv: int, av: int, borrow: int, p: int)
    requires v + bv == av + borrow * p && 0 <= v < p && bv <= av && 0 <= borrow <= 1
    ensures borrow == 0 && v == av - bv
  {
    assert borrow * p == if borrow == 0 then 0 else p;
  }

  /** A string whose every column holds a digit of the base is valid. */
  lemma ColumnsValid(s: string, base: nat)
    requires forall c :: 0 <= c < |s| ==> 0 <= ColumnDigit(s, c) < base
    ensures ValidDigits(s, base)
  {
    forall k | 0 <= k < |s|
      ensures 0 <= DigitValue(s[k]) < base
    {
      assert ColumnDigit(s, |s| - 1 - k) == DigitValue(s[k]);
    }
  }

  // ---------------------------------------------------------------------
  // Multiplication by one digit `d`, column 0 first.

  /** The carry into column `n` of lhs * d. */
  function MulCarry(lhs: string, d: int, n: nat, base: nat): int
    requires base > 0
  {
    if n == 0 then 0 else (ColumnDigit(lhs, n - 1) * d + MulCarry(lhs, d, n - 1, base)) / base
  }

  /** The digit value of column `n` of lhs * d. */
  function ProductDigit(lhs: string, d: int, n: nat, base: nat): nat
    requires base > 0
  {
    (ColumnDigit(lhs, n) * d + MulCarry(lhs, d, n, base)) % base
  }

  /** The digits of columns n-1..0 of lhs * d, most significant first. */
  function ProductDigits(lhs: string, d: int, n: nat, base: nat): (s: string)
    requires base > 0
    ensures |s| == n
  {
    if n == 0 then [] else [ToDigit(ProductDigit(lhs, d, n - 1, base))] + ProductDigits(lhs, d, n - 1, base)
  }

  /** The low `n` product digits, each at its weight. */
  function ProductWeighted(lhs: string, d: int, n: nat, base: nat): int
    requires base > 0
  {
    if n == 0 then 0 else ProductDigit(lhs, d, n - 1, base) * Pow(base, n - 1) + ProductWeighted(lhs, d, n - 1, base)
  }

  /** One column of a product by a digit. */
  lemma MulColumn(w: int, carry: int, lw: int, ld: int, d: int, base: int, p: int,
                  digit: int, c: int, weight: int)
    requires base > 0 && weight == base * p
    requires digit == (ld * d + carry) % base && c == (ld * d + carry) / base
    requires w + carry * p == lw * d
    ensures digit * p + w + c * weight == (ld * p + lw) * d
  {
    CarryStep(ld * d + carry, base, p);
    assert (ld * d + carry) * p == ld * p * d + carry * p;
    assert (ld * p + lw) * d == ld * p * d + lw * d;
  }

  /** Column n-1's digit and the carry out of it share one column product. */
  lemma ProductColumn(lhs: string, d: int, n: nat, base: nat)
    requires base > 0 && n > 0
    ensures ProductDigit(lhs, d, n - 1, base)
            == (ColumnDigit(lhs, n - 1) * d + MulCarry(lhs, d, n - 1, base)) % base
    ensures MulCarry(lhs, d, n, base)
            == (ColumnDigit(lhs, n - 1) * d + MulCarry(lhs, d, n - 1, base)) / base
  {
  }

  /** Column by column, the product digits and the carry out of the top
      column make `d` times the low columns of lhs. */
  lemma {:induction false} MulBalance(lhs: string, d: int, n: nat, base: nat)
    requires base > 0
    ensures ProductWeighted(lhs, d, n, base) + MulCarry(lhs, d, n, base) * Pow(base, n)
            == Weighted(lhs, n, base) * d
  {
    if n > 0 {
      MulBalance(lhs, d, n - 1, base);
      ProductColumn(lhs, d, n, base);
      MulColumn(ProductWeighted(lhs, d, n - 1, base), MulCarry(lhs, d, n - 1, base),
                Weighted(lhs, n - 1, base), ColumnDigit(lhs, n - 1), d, base, Pow(base, n - 1),
                ProductDigit(lhs, d, n - 1, base), MulCarry(lhs, d, n, base), Pow(base, n));
    }
  }

  /** A digit times a digit plus a carry below the base carries less than
      the base: (base-1)^2 + (base-1) < base^2. */
  lemma MulCarryStep(ld: int, d: int, carry: int, base: int)
    requires 0 <= ld < base && 0 <= d < base && 0 <= carry < base
    ensures 0 <= ld * d + carry
    ensures 0 <= (ld * d + carry) / base < base
  {
    DigitProductBound(ld, d, base);
    DivBelow(ld * d + carry, base, base);
    DivNonnegative(ld * d + carry, base);
  }

  /** (base-1)^2 + (base-1) < base^2. */
  lemma DigitProductBound(ld: int, d: int, base: int)
    requires 0 <= ld < base && 0 <= d < base
    ensures 0 <= ld * d && ld * d + base <= base * base
  {
    var m := base - 1;
    MulLe(ld, m, d);
    MulLe(d, m, m);
    assert base * base == m * m + 2 * m + 1;
  }

  /** With valid digits the carry of a product by a digit stays a digit. */
  lemma {:induction false} MulCarryBound(lhs: string, d: int, n: nat, base: nat)
    requires ValidDigits(lhs, base) && 0 <= d < base
    ensures 0 <= MulCarry(lhs, d, n, base) < base
  {
    if n > 0 {
      MulCarryBound(lhs, d, n - 1, base);
      if n - 1 < |lhs| {
        assert ColumnDigit(lhs, n - 1) == DigitValue(lhs[|lhs| - 1 - (n - 1)]);
      }
      MulCarryStep(ColumnDigit(lhs, n - 1), d, MulCarry(lhs, d, n - 1, base), base);
    }
  }

  /** Peeling the leading column off the product's digits. */
  lemma ProductDigitsValue(lhs: string, d: int, n: nat, base: nat)
    requires 0 < base <= ALL_DIGIT_COUNT && n > 0 && ValidDigits(ProductDigits(lhs, d, n - 1, base), base)
    ensures ValidDigits(ProductDigits(lhs, d, n, base), base)
    ensures Value(ProductDigits(lhs, d, n, base), base)
            == ProductDigit(lhs, d, n - 1, base) * Pow(base, n - 1) + Value(ProductDigits(lhs, d, n - 1, base), base)
  {
    DigitRoundTrip(ProductDigit(lhs, d, n - 1, base));
    ValueCons(ToDigit(ProductDigit(lhs, d, n - 1, base)), ProductDigits(lhs, d, n - 1, base), base);
  }

  lemma {:induction false} ProductDigitsWeighted(lhs: string, d: int, n: nat, base: nat)
    requires 0 < base <= ALL_DIGIT_COUNT
    ensures ValidDigits(ProductDigits(lhs, d, n, base), base)
    ensures Value(ProductDigits(lhs, d, n, base), base) == ProductWeighted(lhs, d, n, base)
  {
    if n > 0 {
      ProductDigitsWeighted(lhs, d, n - 1, base);
      ProductDigitsValue(lhs, d, n, base);
    }
  }

  function Zeros(n: nat): (z: string)
    ensures |z| == n && AllZeros(z)
  {
    seq(n, _ => '0')
  }

  /** lhs * d: the carry out of the top column, then the product digits. */
  function Scaled(lhs: string, d: int, base: nat): (s: string)
    requires 0 < base <= ALL_DIGIT_COUNT && ValidDigits(lhs, base) && 0 <= d < base
    ensures |s| == |lhs| + 1
  {
    MulCarryBound(lhs, d, |lhs|, base);
    [ToDigit(MulCarry(lhs, d, |lhs|, base))] + ProductDigits(lhs, d, |lhs|, base)
  }

  /** The row `arithmatoy_mul` builds for digit `d` of rhs in position `i`,
      `len` characters wide: lhs * d, shifted left `i` places, with '0's
      filling both ends. */
  function PartialRow(lhs: string, d: int, i: nat, len: nat, base: nat): (s: string)
    requires 0 < base <= ALL_DIGIT_COUNT && ValidDigits(lhs, base) && 0 <= d < base
    requires |lhs| + i < len
    ensures |s| == len
  {
    Zeros(len - i - 1 - |lhs|) + Scaled(lhs, d, base) + Zeros(i)
  }

  /** lhs * d has the value it should. */
  lemma ScaledValue(lhs: string, d: int, base: nat)
    requires 0 < base <= ALL_DIGIT_COUNT && ValidDigits(lhs, base) && 0 <= d < base
    ensures ValidDigits(Scaled(lhs, d, base), base) && Value(Scaled(lhs, d, base), base) == Value(lhs, base) * d
  {
    var n := |lhs|;
    MulCarryBound(lhs, d, n, base);
    DigitRoundTrip(MulCarry(lhs, d, n, base));
    ProductDigitsWeighted(lhs, d, n, base);
    ValueCons(ToDigit(MulCarry(lhs, d, n, base)), ProductDigits(lhs, d, n, base), base);
    MulBalance(lhs, d, n, base);
    LowWeighted(lhs, n, base);
    LowAll(lhs, n);
  }

  /** The row holds lhs * d * base^i. */
  lemma PartialRowValue(lhs: string, d: int, i: nat, len: nat, base: nat)
    requires 0 < base <= ALL_DIGIT_COUNT && ValidDigits(lhs, base) && 0 <= d < base
    requires |lhs| + i < len
    ensures ValidDigits(PartialRow(lhs, d, i, len, base), base)
    ensures Value(PartialRow(lhs, d, i, len, base), base) == Value(lhs, base) * d * Pow(base, i)
  {
    var core := Scaled(lhs, d, base);
    ScaledValue(lhs, d, base);
    ZeroPrefixValue(Zeros(len - i - 1 - |lhs|), core, base);
    ZeroSuffixValue(Zeros(len - i - 1 - |lhs|) + core, Zeros(i), base);
  }

  /** The character of the row at index `q`. */
  lemma PartialRowAt(lhs: string, d: int, i: nat, len: nat, q: nat, base: nat)
    requires 0 < base <= ALL_DIGIT_COUNT && ValidDigits(lhs, base) && 0 <= d < base
    requires |lhs| + i < len && q < len
    ensures MulCarry(lhs, d, |lhs|, base) >= 0
    ensures q < len - i - 1 - |lhs| ==> PartialRow(lhs, d, i, len, base)[q] == '0'
    ensures q == len - i - 1 - |lhs| ==> PartialRow(lhs, d, i, len, base)[q] == ToDigit(MulCarry(lhs, d, |lhs|, base))
    ensures len - i - 1 - |lhs| < q < len - i ==>
              PartialRow(lhs, d, i, len, base)[q] == ToDigit(ProductDigit(lhs, d, len - i - 1 - q, base))
    ensures len - i <= q ==> PartialRow(lhs, d, i, len, base)[q] == '0'
  {
    MulCarryBound(lhs, d, |lhs|, base);
    var top := len - i - 1 - |lhs|;
    if top < q < len - i {
      ProductDigitsAt(lhs, d, |lhs|, q - top - 1, base);
    }
  }

  /** Every product column digit, read back from `ProductDigits`. */
  lemma {:induction false} ProductDigitsAt(lhs: string, d: int, n: nat, k: nat, base: nat)
    requires base > 0 && k < n
    ensures ProductDigits(lhs, d, n, base)[k] == ToDigit(ProductDigit(lhs, d, n - 1 - k, base))
  {
    if k > 0 {
      ProductDigitsAt(lhs, d, n - 1, k - 1, base);
    }
  }
}
