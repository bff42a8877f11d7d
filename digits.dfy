/** The digit codec of arithmatoy: one character of the alphabet
    `0123456789abcdefghijklmnopqrstuvwxyz` against its value 0..35. */
module Digits {

  /** The alphabet; a digit's value is its position in this string. */
  const ALL_DIGITS: string := "0123456789abcdefghijklmnopqrstuvwxyz"
  const ALL_DIGIT_COUNT: nat := 36

  /** What `get_digit_value` returns for a character outside the alphabet. */
  const INVALID_DIGIT: int := -1

  /** The values of C's `unsigned int`, used where the source compares a
      digit value as unsigned (the sentinel -1 then reads as UINT_MAX). */
  const UINT_MODULUS: nat := 0x1_0000_0000

  predicate IsDigitChar(c: char) {
    ('0' <= c <= '9') || ('a' <= c <= 'z')
  }

  /** `get_digit_value`: '0'-'9' are 0-9, 'a'-'z' are 10-35, anything else
      is the sentinel. */
  function DigitValue(c: char): (v: int)
    ensures IsDigitChar(c) <==> 0 <= v
    ensures !IsDigitChar(c) ==> v == INVALID_DIGIT
    ensures v < ALL_DIGIT_COUNT
  {
    if '0' <= c <= '9' then c as int - '0' as int
    else if 'a' <= c <= 'z' then c as int - 'a' as int + 10
    else INVALID_DIGIT
  }

  /** `to_digit`: the character of a value, or '?' above 35 (the source's
      `value >= 0` test always holds for an unsigned value). */
  function ToDigit(value: nat): (c: char)
    ensures value < ALL_DIGIT_COUNT <==> IsDigitChar(c)
    ensures value >= ALL_DIGIT_COUNT ==> c == '?'
  {
    if value <= 9 then ('0' as int + value) as char
    else if value <= 35 then ('a' as int + (value - 10)) as char
    else '?'
  }

  /** The conversion of an `int` to `unsigned int`: a value in range is
      kept, and a negative value down to -2^32 wraps around by 2^32. */
  function AsUnsigned(v: int): (u: nat)
    ensures u < UINT_MODULUS
    ensures 0 <= v < UINT_MODULUS ==> u == v
    ensures v < 0 && 0 <= v + UINT_MODULUS ==> u == v + UINT_MODULUS
  {
    v % UINT_MODULUS
  }

  /** A digit's value is its position in the alphabet. */
  lemma AlphabetPosition(c: char)
    requires IsDigitChar(c)
    ensures |ALL_DIGITS| == ALL_DIGIT_COUNT && ALL_DIGITS[DigitValue(c)] == c
  {
  }

  lemma AlphabetDigit(v: nat)
    requires v < ALL_DIGIT_COUNT
    ensures ToDigit(v) == ALL_DIGITS[v]
  {
  }

  lemma DigitRoundTrip(v: nat)
    requires v < ALL_DIGIT_COUNT
    ensures IsDigitChar(ToDigit(v)) && DigitValue(ToDigit(v)) == v
  {
  }

  lemma CharRoundTrip(c: char)
    requires IsDigitChar(c)
    ensures ToDigit(DigitValue(c)) == c
  {
  }

  /** Digit order is character order, which is what lets strcmp compare
      numbers of equal length. */
  lemma DigitOrder(c: char, d: char)
    requires IsDigitChar(c) && IsDigitChar(d)
    ensures c < d <==> DigitValue(c) < DigitValue(d)
  {
  }

  /** An invalid character, read as unsigned, fails every base test. */
  lemma SentinelFailsBase(c: char, base: nat)
    requires base < UINT_MODULUS
    ensures AsUnsigned(DigitValue(c)) >= base <==> !(0 <= DigitValue(c) < base)
  {
  }
}
