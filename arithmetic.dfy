/** `arithmatoy_add`, `arithmatoy_sub` and `arithmatoy_mul`: radix
    arithmetic on digit strings, one digit at a time, with the buffers the
    source fills by index. Each digit loop is proved against the column
    functions of `Schoolbook`. */
module Arithmatoy {
  import opened Digits
  import opened Numerals
  import opened Buffers
  import opened Schoolbook

  datatype Option<T> = None | Some(value: T)

  /** The C string terminator. */
  const NUL: char := '\0'

  function Max(a: nat, b: nat): nat {
    if a > b then a else b
  }

  /** Leading zeros are valid digits in every positive base, so dropping
      them changes nothing about validity. */
  lemma DroppedZerosValid(str: string, r: string, base: nat)
    requires |str| > 0 && 0 < |r| <= |str| && r == str[|str| - |r|..]
    requires AllZeros(str[..|str| - |r|])
    ensures ValidDigits(r, base) <==> ValidDigits(str, base)
  {
    var z := str[..|str| - |r|];
    assert str == z + r;
    if ValidDigits(r, base) {
      assert 0 <= DigitValue(r[0]) < base;
      forall k | 0 <= k < |str|
        ensures 0 <= DigitValue(str[k]) < base
      {
        if k < |z| {
          assert str[k] == '0';
        } else {
          assert str[k] == r[k - |z|];
        }
      }
    }
  }

  // ---------------------------------------------------------------------
  // arithmatoy_add

  /** `arithmatoy_add`: digits are added from the least significant end;
      an operand that runs out (or is empty from the start) counts as 0;
      a last carry becomes an extra leading digit. The result is
      normalised. The source has no test of the base: base 0 would divide
      by zero and a base above 36 would write '?' digits. */
  method Add(base: nat, lhs: string, rhs: string) returns (r: string)
    requires 1 <= base <= ALL_DIGIT_COUNT
    requires ValidDigits(lhs, base) && ValidDigits(rhs, base)
    requires |lhs| > 0 || |rhs| > 0
    ensures ValidDigits(r, base) && IsNormalized(r)
    ensures Value(r, base) == Value(lhs, base) + Value(rhs, base)
    ensures |r| <= Max(|lhs|, |rhs|) + 1
  {
    var maxLen := if |lhs| > |rhs| then |lhs| else |rhs|;
    var result := new char[maxLen + 2];  // +1 for a last carry, +1 for NUL
    var index := AddColumns(result, base, lhs, rhs);
    result[index] := NUL;
    ghost var written := result[..index];
    Reverse(result, index);
    var sumDigits := result[..index];
    SumValue(lhs, rhs, written, sumDigits, base);
    r := DropLeadingZeros(sumDigits);
    DroppedZerosValue(sumDigits, r, base);
  }

  /** The digit loop of `arithmatoy_add`: the column sums, least
      significant first, into `result[0..index)`; it runs while either
      operand has digits left or a carry is pending, so the carry out of
      the last column is 0. */
  method AddColumns(result: array<char>, base: nat, lhs: string, rhs: string) returns (index: nat)
    requires 1 <= base <= ALL_DIGIT_COUNT
    requires ValidDigits(lhs, base) && ValidDigits(rhs, base)
    requires result.Length == Max(|lhs|, |rhs|) + 2
    modifies result
    ensures |lhs| <= index && |rhs| <= index && index <= Max(|lhs|, |rhs|) + 1
    ensures Carry(lhs, rhs, index, base) == 0
    ensures forall q :: 0 <= q < index ==> result[q] == ToDigit(SumDigit(lhs, rhs, q, base))
    ensures forall q :: index <= q < result.Length ==> result[q] == old(result[q])
  {
    // lhsLen and rhsLen count the digits not yet read; the source keeps
    // one less and lets the unsigned counter wrap to SIZE_MAX at the end.
    var lhsLen, rhsLen := |lhs|, |rhs|;
    var maxLen := Max(lhsLen, rhsLen);
    var carry := 0;
    index := 0;
    while lhsLen > 0 || rhsLen > 0 || carry != 0
      invariant lhsLen == if index <= |lhs| then |lhs| - index else 0
      invariant rhsLen == if index <= |rhs| then |rhs| - index else 0
      invariant carry == Carry(lhs, rhs, index, base)
      invariant index <= maxLen || (index == maxLen + 1 && carry == 0)
      invariant forall q :: 0 <= q < index ==> result[q] == ToDigit(SumDigit(lhs, rhs, q, base))
      invariant forall q :: index <= q < result.Length ==> result[q] == old(result[q])
      decreases lhsLen + rhsLen, carry
    {
      CarryBound(lhs, rhs, index, base);
      var lhsDigit := 0;
      if lhsLen > 0 {
        lhsDigit := DigitValue(lhs[lhsLen - 1]);
        lhsLen := lhsLen - 1;
      }
      var rhsDigit := 0;
      if rhsLen > 0 {
        rhsDigit := DigitValue(rhs[rhsLen - 1]);
        rhsLen := rhsLen - 1;
      }
      assert lhsDigit == ColumnDigit(lhs, index) && rhsDigit == ColumnDigit(rhs, index);
      assert 0 <= lhsDigit < base && 0 <= rhsDigit < base;
      var sum := lhsDigit + rhsDigit + carry;
      DivSmall(sum, base);
      carry := sum / base;
      sum := sum % base;
      assert sum == SumDigit(lhs, rhs, index, base) && carry == Carry(lhs, rhs, index + 1, base);
      result[index] := ToDigit(sum);
      index := index + 1;
    }
  }

  // ---------------------------------------------------------------------
  // arithmatoy_sub

  /** `arithmatoy_sub`: refused (None, the source's NULL) for a base of 36
      or more, and when lhs < rhs, which the source decides on the
      normalised operands by length and then by strcmp. Otherwise the
      digits are subtracted from the least significant end with a borrow
      that runs on through the rest of lhs, and the result is normalised. */
  method Sub(base: nat, lhs: string, rhs: string) returns (r: Option<string>)
    requires base < ALL_DIGIT_COUNT ==> |lhs| > 0 && |rhs| > 0
    requires base < ALL_DIGIT_COUNT ==> ValidDigits(lhs, base) && ValidDigits(rhs, base)
    ensures r.None? <==> base >= ALL_DIGIT_COUNT || Value(lhs, base) < Value(rhs, base)
    ensures r.Some? ==> base < ALL_DIGIT_COUNT && ValidDigits(r.value, base) && IsNormalized(r.value)
                        && Value(r.value, base) == Value(lhs, base) - Value(rhs, base)
  {
    if base >= ALL_DIGIT_COUNT {
      return None;
    }
    var a := DropLeadingZeros(lhs);
    var b := DropLeadingZeros(rhs);
    DroppedZerosValue(lhs, a, base);
    DroppedZerosValue(rhs, b, base);
    var lhsLen, rhsLen := |a|, |b|;
    assert 0 <= DigitValue(a[0]) < base;
    NormalizedLess(a, b, base);
    if lhsLen < rhsLen || (lhsLen == rhsLen && LexLess(a, b)) {
      return None;
    }

    var result := new char[lhsLen + 1](_ => NUL);  // calloc
    var borrow := SubtractColumns(result, base, a, b);
    borrow := PropagateBorrow(result, base, a, b, borrow);
    result[lhsLen] := NUL;
    var diffDigits := result[..lhsLen];
    SubDigitsPointwise(a, b, diffDigits, base);
    DifferenceValue(a, b, base);
    var d := DropLeadingZeros(diffDigits);
    DroppedZerosValue(diffDigits, d, base);
    r := Some(d);
  }

  /** The first digit loop of `arithmatoy_sub`, over the columns where both
      operands have digits: column by column from the right, the digit of
      `a - b` is written into `result` and the borrow passed on. */
  method SubtractColumns(result: array<char>, base: nat, a: string, b: string) returns (borrow: int)
    requires base < ALL_DIGIT_COUNT && ValidDigits(a, base) && ValidDigits(b, base)
    requires |b| <= |a| && result.Length == |a| + 1
    modifies result
    ensures borrow == Borrow(a, b, |a| - |b|)
    ensures forall q :: |a| - |b| <= q < |a| ==> result[q] == ToDigit(SubDigit(a, b, q, base))
    ensures forall q :: 0 <= q < |a| - |b| || q == |a| ==> result[q] == old(result[q])
  {
    var lhsLen, rhsLen := |a|, |b|;
    borrow := 0;
    var i: int := lhsLen - 1;
    var j: int := rhsLen - 1;
    var k: int := lhsLen - 1;
    while j >= 0
      invariant -1 <= j <= i < lhsLen && i - j == lhsLen - rhsLen && k == i
      invariant borrow == Borrow(a, b, i + 1)
      invariant forall q :: i < q < lhsLen ==> result[q] == ToDigit(SubDigit(a, b, q, base))
      invariant forall q :: 0 <= q <= i || q == lhsLen ==> result[q] == old(result[q])
    {
      assert 0 <= DigitValue(a[i]) && DigitValue(b[j]) < base;
      assert RhsDigit(a, b, i) == DigitValue(b[j]);
      var diff := DigitValue(a[i]) - borrow - DigitValue(b[j]);
      if diff < 0 {
        diff := diff + base;
        borrow := 1;
      } else {
        borrow := 0;
      }
      assert diff == SubDigit(a, b, i, base) && borrow == Borrow(a, b, i);
      result[k] := ToDigit(diff);
      k := k - 1;
      i := i - 1;
      j := j - 1;
    }
  }

  /** The second digit loop of `arithmatoy_sub`, over the columns where only
      `a` has digits: the borrow runs on until a column absorbs it. */
  method PropagateBorrow(result: array<char>, base: nat, a: string, b: string, borrowIn: int)
      returns (borrow: int)
    requires base < ALL_DIGIT_COUNT && ValidDigits(a, base) && ValidDigits(b, base)
    requires |b| <= |a| && result.Length == |a| + 1
    requires borrowIn == Borrow(a, b, |a| - |b|)
    modifies result
    ensures borrow == Borrow(a, b, 0)
    ensures forall q :: 0 <= q < |a| - |b| ==> result[q] == ToDigit(SubDigit(a, b, q, base))
    ensures forall q :: |a| - |b| <= q <= |a| ==> result[q] == old(result[q])
  {
    var lhsLen := |a|;
    borrow := borrowIn;
    var i: int := lhsLen - |b| - 1;
    var k: int := i;
    while i >= 0
      invariant -1 <= i < lhsLen - |b| && k == i
      invariant borrow == Borrow(a, b, i + 1)
      invariant forall q :: i < q < lhsLen - |b| ==> result[q] == ToDigit(SubDigit(a, b, q, base))
      invariant forall q :: lhsLen - |b| <= q <= lhsLen ==> result[q] == old(result[q])
    {
      assert 0 <= DigitValue(a[i]) && RhsDigit(a, b, i) == 0;
      var diff := DigitValue(a[i]) - borrow;
      if diff < 0 {
        diff := diff + base;
      } else {
        borrow := 0;
      }
      assert diff == SubDigit(a, b, i, base) && borrow == Borrow(a, b, i);
      result[k] := ToDigit(diff);
      k := k - 1;
      i := i - 1;
    }
  }

  // ---------------------------------------------------------------------
  // arithmatoy_mul

  /** The inner loop of `arithmatoy_mul`: writes `lhs * digit`, shifted
      left by `i` places, into the first `resultLen` characters of the
      `partial` buffer (which hold '0's on entry), then the last carry
      above them when it is not 0. Fails as soon as a digit of lhs is not
      below the base, compared as unsigned so that the invalid-character
      sentinel fails too. */
  method PartialProduct(partial: array<char>, resultLen: nat, base: nat, lhs: string, i: nat, digit: int)
      returns (ok: bool)
    requires 0 <= digit < base < ALL_DIGIT_COUNT
    requires |lhs| + i < resultLen <= partial.Length
    requires forall q :: 0 <= q < resultLen ==> partial[q] == '0'
    modifies partial
    ensures ok <==> ValidDigits(lhs, base)
    ensures ok ==> ValidDigits(lhs, base) && partial[..resultLen] == PartialRow(lhs, digit, i, resultLen, base)
    ensures forall q :: resultLen <= q < partial.Length ==> partial[q] == old(partial[q])
  {
    var lhsLen := |lhs|;
    var carry := 0;
    for j := 0 to lhsLen
      invariant carry == MulCarry(lhs, digit, j, base) && 0 <= carry < base
      invariant forall c :: 0 <= c < j ==> 0 <= ColumnDigit(lhs, c) < base
      invariant forall q :: resultLen - i - j <= q < resultLen - i ==>
                  partial[q] == ToDigit(ProductDigit(lhs, digit, resultLen - i - 1 - q, base))
      invariant forall q :: 0 <= q < resultLen - i - j || resultLen - i <= q < resultLen ==> partial[q] == '0'
      invariant forall q :: resultLen <= q < partial.Length ==> partial[q] == old(partial[q])
    {
      var lhsDigit := DigitValue(lhs[lhsLen - j - 1]);
      SentinelFailsBase(lhs[lhsLen - j - 1], base);
      if AsUnsigned(lhsDigit) >= base {
        return false;
      }
      var pos := resultLen - j - i - 1;
      var product := lhsDigit * digit + DigitValue(partial[pos]) + carry;
      assert lhsDigit == ColumnDigit(lhs, j) && DigitValue(partial[pos]) == 0;
      MulCarryStep(lhsDigit, digit, carry, base);
      carry := product / base;
      assert product % base == ProductDigit(lhs, digit, j, base) && carry == MulCarry(lhs, digit, j + 1, base);
      partial[pos] := ToDigit(product % base);
    }
    ColumnsValid(lhs, base);
    var top := resultLen - lhsLen - i - 1;
    if carry != 0 {
      partial[top] := ToDigit(carry);
    }
    ok := true;
    forall q | 0 <= q < resultLen
      ensures partial[q] == PartialRow(lhs, digit, i, resultLen, base)[q]
    {
      PartialRowAt(lhs, digit, i, resultLen, q, base);
    }
  }

  /** `memset(partial, '0', result_len)`: the first `n` cells become '0'. */
  method Memset(partial: array<char>, n: nat)
    requires n <= partial.Length
    modifies partial
    ensures forall q :: 0 <= q < n ==> partial[q] == '0'
    ensures forall q :: n <= q < partial.Length ==> partial[q] == old(partial[q])
  {
    forall q | 0 <= q < n {
      partial[q] := '0';
    }
  }

  /** Adding row `d * base^i` of the product to the running sum. */
  lemma AccumulateRow(va: int, acc: int, row: int, sum: int, d: int, p: int, w: int, w': int)
    requires row == va * d * p && acc == va * w && sum == acc + row && w' == d * p + w
    ensures sum == va * w'
  {
  }

  /** Adding the row of digit `i` of b to a running sum of the rows below
      it gives the rows up to and including it. */
  lemma RowStep(a: string, b: string, i: nat, len: nat, base: nat, before: int, row: string, after: int)
    requires 0 < base <= ALL_DIGIT_COUNT && ValidDigits(a, base) && |a| + i < len
    requires 0 <= ColumnDigit(b, i) < base
    requires row == PartialRow(a, ColumnDigit(b, i), i, len, base)
    requires before == Value(a, base) * Weighted(b, i, base)
    requires ValidDigits(row, base) ==> after == before + Value(row, base)
    ensures ValidDigits(row, base)
    ensures after == Value(a, base) * Weighted(b, i + 1, base)
  {
    var d := ColumnDigit(b, i);
    PartialRowValue(a, d, i, len, base);
    assert Weighted(b, i + 1, base) == d * Pow(base, i) + Weighted(b, i, base);
    AccumulateRow(Value(a, base), before, Value(row, base), after,
                  d, Pow(base, i), Weighted(b, i, base), Weighted(b, i + 1, base));
  }

  /** `arithmatoy_mul`: refused (None) for a base of 36 or more, and when a
      digit of either normalised operand is not below the base. Otherwise
      the longer operand is multiplied by each digit of the shorter, the
      i-th partial product shifted i places, and the partial products are
      summed with `Add`, starting from the empty string. */
  method Mul(base: nat, lhs: string, rhs: string) returns (r: Option<string>)
    requires base < ALL_DIGIT_COUNT ==> |lhs| > 0 && |rhs| > 0
    ensures r.None? <==> base >= ALL_DIGIT_COUNT || !ValidDigits(lhs, base) || !ValidDigits(rhs, base)
    ensures r.Some? ==> base < ALL_DIGIT_COUNT && ValidDigits(lhs, base) && ValidDigits(rhs, base)
                        && ValidDigits(r.value, base) && IsNormalized(r.value)
                        && Value(r.value, base) == Value(lhs, base) * Value(rhs, base)
  {
    if base >= ALL_DIGIT_COUNT {
      return None;
    }
    var x := DropLeadingZeros(lhs);
    var y := DropLeadingZeros(rhs);
    DroppedZerosValid(lhs, x, base);
    DroppedZerosValid(rhs, y, base);
    var a, b := x, y;
    if |a| < |b| {
      a, b := b, a;
    }
    assert (ValidDigits(a, base) && ValidDigits(b, base)) <==> (ValidDigits(x, base) && ValidDigits(y, base));
    var rows := MulRows(base, a, b);
    if rows.None? {
      return None;
    }
    var result := rows.value;
    var product := DropLeadingZeros(result);
    DropNormalized(result, product);
    DroppedZerosValue(lhs, x, base);
    DroppedZerosValue(rhs, y, base);
    assert Value(a, base) * Value(b, base) == Value(x, base) * Value(y, base);
    r := Some(product);
  }

  /** The outer loop of `arithmatoy_mul`: for each digit of `b` from the
      least significant, the partial product of `a` by that digit, shifted
      into its place, is added to the running sum. Fails at the first digit
      of either operand that is not below the base. */
  method MulRows(base: nat, a: string, b: string) returns (r: Option<string>)
    requires base < ALL_DIGIT_COUNT && |a| > 0 && |b| > 0
    ensures r.None? <==> !ValidDigits(a, base) || !ValidDigits(b, base)
    ensures r.Some? ==> ValidDigits(r.value, base) && IsNormalized(r.value)
                        && Value(r.value, base) == Value(a, base) * Value(b, base)
  {
    var bLen := |b|;
    var result: string := [];  // calloc: the empty string
    var partial := new char[|a| + bLen + 1](_ => NUL);
    for i := 0 to bLen
      invariant forall k :: bLen - i <= k < bLen ==> 0 <= DigitValue(b[k]) < base
      invariant i == 0 ==> result == []
      invariant i > 0 ==> ValidDigits(a, base) && ValidDigits(result, base) && IsNormalized(result)
                          && Value(result, base) == Value(a, base) * Weighted(b, i, base)
    {
      var next := MulRow(base, a, b, i, partial, result);
      if next.None? {
        return None;
      }
      result := next.value;
    }
    LowWeighted(b, bLen, base);
    LowAll(b, bLen);
    r := Some(result);
  }

  /** One round of the outer loop of `arithmatoy_mul`: the partial product
      of `a` by the digit of `b` in column `i` is written into the cleared
      buffer and added to the running sum, which then holds `a` times the
      low `i + 1` digits of `b`. Fails when that digit of `b`, or any digit
      of `a`, is not below the base. */
  method MulRow(base: nat, a: string, b: string, i: nat, partial: array<char>, result: string)
      returns (next: Option<string>)
    requires base < ALL_DIGIT_COUNT && |a| > 0 && i < |b| && partial.Length == |a| + |b| + 1
    requires i == 0 ==> result == []
    requires i > 0 ==> ValidDigits(a, base) && ValidDigits(result, base) && IsNormalized(result)
                       && Value(result, base) == Value(a, base) * Weighted(b, i, base)
    modifies partial
    ensures next.None? <==> !ValidDigits(a, base) || !(0 <= DigitValue(b[|b| - 1 - i]) < base)
    ensures next.Some? ==> ValidDigits(a, base) && ValidDigits(next.value, base) && IsNormalized(next.value)
                           && Value(next.value, base) == Value(a, base) * Weighted(b, i + 1, base)
    ensures next.Some? ==> ValidDigits(a, base) && 0 <= DigitValue(b[|b| - 1 - i]) < base
                           && partial[..|a| + |b|] == PartialRow(a, DigitValue(b[|b| - 1 - i]), i, |a| + |b|, base)
  {
    var resultLen := |a| + |b|;
    Memset(partial, resultLen);
    var rhsDigit := DigitValue(b[|b| - i - 1]);
    SentinelFailsBase(b[|b| - i - 1], base);
    if AsUnsigned(rhsDigit) >= base {
      return None;
    }
    assert rhsDigit == ColumnDigit(b, i) && 0 <= ColumnDigit(b, i) < base;
    var ok := PartialProduct(partial, resultLen, base, a, i, rhsDigit);
    if !ok {
      return None;
    }
    var row := partial[..resultLen];
    ghost var before := if i == 0 then 0 else Value(result, base);
    PartialRowValue(a, rhsDigit, i, resultLen, base);
    var sum := Add(base, result, row);
    RowStep(a, b, i, resultLen, base, before, row, Value(sum, base));
    next := Some(sum);
  }
}
