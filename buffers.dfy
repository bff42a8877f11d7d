/** The two string helpers of arithmatoy: `reverse` swaps the characters of
    a buffer in place, `drop_leading_zeros` skips over leading '0's. */
module Buffers {
  import opened Digits
  import opened Numerals

  /** `reverse`: the first `len` characters of the buffer (the string up to
      its NUL terminator, found by `strlen` in the source) are mirrored in
      place, and nothing else changes. */
  method Reverse(str: array<char>, len: nat)
    requires len <= str.Length
    modifies str
    ensures forall k :: 0 <= k < len ==> str[k] == old(str[len - 1 - k])
    ensures forall k :: len <= k < str.Length ==> str[k] == old(str[k])
  {
    for i := 0 to len / 2
      invariant forall k :: 0 <= k < i ==> str[k] == old(str[len - 1 - k]) && str[len - 1 - k] == old(str[k])
      invariant forall k :: i <= k < len - i ==> str[k] == old(str[k])
      invariant forall k :: len <= k < str.Length ==> str[k] == old(str[k])
    {
      var temp := str[i];
      str[i] := str[len - i - 1];
      str[len - i - 1] := temp;
    }
  }

  /** `drop_leading_zeros`: the suffix left after skipping leading '0's,
      keeping one '0' when every character was one. The source reads the
      NUL terminator to stop, and steps back before the start of an empty
      string; hence the requirement of a non-empty input. */
  method DropLeadingZeros(str: string) returns (r: string)
    requires |str| > 0
    ensures IsNormalized(r)
    ensures |r| <= |str| && r == str[|str| - |r|..]
    ensures AllZeros(str[..|str| - |r|])
  {
    var k := 0;
    while k < |str| && str[k] == '0'
      invariant 0 <= k <= |str|
      invariant AllZeros(str[..k])
    {
      k := k + 1;
    }
    if k == |str| {
      k := k - 1;
    }
    r := str[k..];
  }

  /** Dropping leading zeros keeps the value, in every base. */
  lemma DroppedZerosValue(str: string, r: string, base: nat)
    requires ValidDigits(str, base) && |str| > 0
    requires |r| <= |str| && r == str[|str| - |r|..]
    requires AllZeros(str[..|str| - |r|])
    ensures ValidDigits(r, base) && Value(r, base) == Value(str, base)
  {
    var z := str[..|str| - |r|];
    assert str == z + r;
    assert '0' == str[0] || IsDigitChar(str[0]);
    assert base >= 1 by {
      assert 0 <= DigitValue(str[0]) < base;
    }
    ZeroPrefixValue(z, r, base);
  }

  /** Dropping leading zeros is the identity on a normalized string. */
  lemma DropNormalized(str: string, r: string)
    requires IsNormalized(str)
    requires |r| <= |str| && r == str[|str| - |r|..] && IsNormalized(r)
    requires AllZeros(str[..|str| - |r|])
    ensures r == str
  {
  }
}
