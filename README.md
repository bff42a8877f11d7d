# arithmatoy in Dafny

A model of arithmatoy's core with proofs.

arithmatoy does arbitrary-precision unsigned arithmetic on numbers written as
character strings: most significant digit first, over the alphabet
`0123456789abcdefghijklmnopqrstuvwxyz`, in a base chosen per call. The model
also covers the exercises that come with it: unary naturals, factorial and
Fibonacci.

The abstraction function is `Numerals.Value`, the number a digit string
denotes in a base. Against it the model proves:
- addition, subtraction and multiplication over the naturals;
- the carry and borrow invariants of the digit loops;
- the normal form of every result.

Modules:

- `Digits` (`digits.dfy`): the digit codec `get_digit_value` / `to_digit`, the
  `-1` sentinel, and how that sentinel reads as an `unsigned int`.
- `Numerals` (`numerals.dfy`): the abstraction function and the lemmas about it.
  - `Value` is the value of a digit string; `ValidDigits` says every digit is
    below the base; `IsNormalized` says there is no leading '0' except in "0".
  - `FromNat` is the canonical string of a natural number. `CanonicalForm`
    shows that a normalized string of the right value is that string.
  - `LexLess` models `strcmp` on equal lengths and is proved to agree with
    value order.
- `Buffers` (`buffers.dfy`): `reverse` as an in-place loop on an `array<char>`,
  and `drop_leading_zeros` as a loop that returns a suffix.
- `Schoolbook` (`schoolbook.dfy`): the column-by-column definition of the
  three algorithms. It defines the carry, borrow and product carry of each
  column, the digit each column writes, and the digits of a partial product.
  It proves what these add up to.
- `Arithmatoy` (`arithmetic.dfy`): `arithmatoy_add`, `arithmatoy_sub` and
  `arithmatoy_mul` as methods.
  - They fill buffers by index, as the C code does.
  - Each digit loop is its own method, proved against the `Schoolbook`
    functions.
  - A refused call (the C `NULL`) is `None`.
- `Tp` (`tp.dfy`): the Python exercises in `tests/tp.py`.
  - Unary numerals `S...S0` with successor, addition and multiplication, all
    defined by counting 'S'.
  - `facto_ite` and `fibo_ite` as loops, proved equal to `facto_rec` and
    `fibo_rec`.

Points where the code's behaviour is easy to mistake, which the model follows:
- `arithmatoy_sub` and `arithmatoy_mul` refuse base 36 (`base >= ALL_DIGIT_COUNT`,
  src/arithmatoy.c:98, :164), although the alphabet has 36 digits. `Sub` and
  `Mul` return `None` for base 36.
- `arithmatoy_add` accepts one empty operand and counts it as 0, because
  `arithmatoy_mul` starts its sum as the empty string from `calloc` (:184)
  and passes it to `arithmatoy_add`.
- Only `arithmatoy_mul` detects invalid digits, through its unsigned `>= base`
  tests (:201, :208), where the sentinel -1 reads as `UINT_MAX`. `Add` and `Sub`
  therefore require valid digits.

## Model

| member | source | states |
|---|---|---|
| Digits.DigitValue | src/arithmatoy.c:13-17 | a character of the alphabet gets a value in 0..35, anything else gets the sentinel -1 |
| Digits.ToDigit | src/arithmatoy.c:19-23 | values 0..35 give an alphabet character, every larger value gives '?' |
| Digits.AlphabetPosition | src/arithmatoy.c:10-17 | a digit's value is its position in the alphabet string of 36 characters |
| Digits.AlphabetDigit | src/arithmatoy.c:10-23 | `to_digit(v)` is the character at position v of the alphabet |
| Digits.DigitRoundTrip | src/arithmatoy.c:13-23 | `get_digit_value(to_digit(v)) == v` for every v in 0..35 |
| Digits.CharRoundTrip | src/arithmatoy.c:13-23 | `to_digit(get_digit_value(c)) == c` for every character of the alphabet |
| Digits.DigitOrder | src/arithmatoy.c:13-17 | character order and digit-value order agree on the alphabet |
| Digits.AsUnsigned | src/arithmatoy.c:200-208 | the conversion to `unsigned int` stays below 2^32, keeps a value in range, and adds 2^32 to a negative value such as the sentinel |
| Digits.SentinelFailsBase | src/arithmatoy.c:200-203 | with the value read as unsigned, `>= base` holds exactly when the character is not a digit below the base, sentinel included |
| Numerals.FromNatOfValue | src/arithmatoy.c:34-38 | every valid normalized string is the canonical string of its value |
| Numerals.CanonicalForm | src/arithmatoy.c:82 | a valid normalized string of value n is `FromNat(n)`, so the operations' results are canonical |
| Numerals.NormalFormUnique | src/arithmatoy.c:34-38 | two valid normalized strings with the same value are equal |
| Numerals.LexLess | src/arithmatoy.c:108 | `strcmp(lhs, rhs) < 0` on strings without NUL: it never holds for equal strings |
| Numerals.LexLessAsymmetric | src/arithmatoy.c:108 | `strcmp(a, b) < 0` and `strcmp(b, a) < 0` never hold together |
| Numerals.LexLessValue | src/arithmatoy.c:108 | on strings of equal length, `strcmp(lhs, rhs) < 0` holds exactly when value(lhs) < value(rhs) |
| Numerals.ShorterIsSmaller | src/arithmatoy.c:108 | a non-empty string shorter than a normalized one has a smaller value |
| Numerals.NormalizedLess | src/arithmatoy.c:108 | on normalized operands the refusal test of `sub` holds exactly when value(lhs) < value(rhs) |
| Buffers.Reverse | src/arithmatoy.c:25-33 | `new[k] == old[len-1-k]` for every k < len, and the rest of the buffer is unchanged |
| Buffers.DropLeadingZeros | src/arithmatoy.c:34-38 | the result is a normalized suffix of a non-empty input, and everything dropped was '0' |
| Buffers.DroppedZerosValue | src/arithmatoy.c:34-38 | the suffix has the same value as the input in every base |
| Buffers.DropNormalized | src/arithmatoy.c:228 | on a string that is already normalized, the final `drop_leading_zeros` of `mul` changes nothing |
| Schoolbook.CarryBound | src/arithmatoy.c:66-78 | the carry of `add` is always 0 or 1 |
| Schoolbook.ColumnBalance | src/arithmatoy.c:71-78 | the sum digits of the low n columns at their weights, plus carry·base^n, equal the low n digits of lhs plus those of rhs |
| Schoolbook.AdditionValue | src/arithmatoy.c:71-78 | the loop invariant of `add` on strings: value(emitted digits) + carry·base^n == value(low n of lhs) + value(low n of rhs) |
| Schoolbook.SumValue | src/arithmatoy.c:71-81 | the digits the loop wrote, reversed, denote value(lhs) + value(rhs) once the carry is 0 and both operands are consumed |
| Schoolbook.SubDigitBound | src/arithmatoy.c:124-130 | each digit `sub` writes is in 0..base-1, and it is the column difference plus base when a borrow is taken |
| Schoolbook.BorrowBalance | src/arithmatoy.c:123-145 | the difference digits of the columns from k up, plus those of rhs, equal those of lhs plus borrow·base^(columns) |
| Schoolbook.SubtractionValue | src/arithmatoy.c:118-145 | the borrow invariant on strings: value(difference) + value(rhs part) == value(lhs part) + borrow·base^(columns) |
| Schoolbook.DifferenceValue | src/arithmatoy.c:118-147 | when rhs <= lhs the borrow out of the top column is 0 and the written digits denote value(lhs) - value(rhs) |
| Schoolbook.MulBalance | src/arithmatoy.c:206-215 | the partial-product digits of the low n columns, plus carry·base^n, equal the low n digits of lhs times the digit |
| Schoolbook.MulCarryBound | src/arithmatoy.c:205-215 | the carry of the inner loop of `mul` stays below the base, so one digit holds it |
| Schoolbook.ScaledValue | src/arithmatoy.c:205-219 | lhs times one digit, with the last carry on top, is valid and has value value(lhs)·d |
| Schoolbook.PartialRowValue | src/arithmatoy.c:198-219 | the i-th partial row fills `result_len` digits and has value value(lhs)·d·base^i |
| Schoolbook.PartialRowAt | src/arithmatoy.c:198-219 | which character the i-th partial row holds at each position: '0' padding, the last carry, or a product digit |
| Arithmatoy.Add | src/arithmatoy.c:52-83 | with valid digits and at least one non-empty operand, the result is valid, normalized and has value value(lhs) + value(rhs), in at most max_len + 1 digits |
| Arithmatoy.AddColumns | src/arithmatoy.c:66-78 | the loop reads every digit of both operands, writes at most max_len + 1 column digits (so the `max_len + 2` buffer fits the NUL) and ends with carry 0 |
| Arithmatoy.Sub | src/arithmatoy.c:97-150 | `None` exactly when base >= 36 or value(lhs) < value(rhs); otherwise a valid normalized string of value value(lhs) - value(rhs) |
| Arithmatoy.SubtractColumns | src/arithmatoy.c:118-134 | the first loop writes the difference digit of each column where both operands have digits, and hands on the borrow of those columns |
| Arithmatoy.PropagateBorrow | src/arithmatoy.c:136-145 | the second loop writes the remaining difference digits, carrying the borrow through the rest of lhs |
| Arithmatoy.Mul | src/arithmatoy.c:163-230 | `None` exactly when base >= 36 or some digit of either operand is not below the base; otherwise a valid normalized string of value value(lhs)·value(rhs) |
| Arithmatoy.DroppedZerosValid | src/arithmatoy.c:168-169 | normalizing the operands neither hides nor creates an invalid digit |
| Arithmatoy.MulRows | src/arithmatoy.c:183-227 | the outer loop fails exactly on an invalid digit, and otherwise sums the rows to value(a)·value(b) |
| Arithmatoy.MulRow | src/arithmatoy.c:197-226 | one round takes the sum from value(a) times the low i digits of b to value(a) times the low i+1 digits, or fails on an invalid digit |
| Arithmatoy.PartialProduct | src/arithmatoy.c:205-219 | the inner loop succeeds exactly when lhs is valid, and then leaves the i-th partial row in the buffer |
| Arithmatoy.Memset | src/arithmatoy.c:198 | the first `result_len` cells become '0', and the rest of the buffer is unchanged |
| Arithmatoy.RowStep | src/arithmatoy.c:221-222 | adding the i-th row to the sum of the rows below it gives value(a) times the low i+1 digits of b |
| Tp.Repeat | tests/tp.py:5 | `c * n` is a string of length n holding c in every position |
| Tp.Count | tests/tp.py:13-14 | `s.count(c)` is at most the length of s, and 0 exactly when c does not occur in s |
| Tp.RepeatCount | tests/tp.py:5 | `"S" * n` contains exactly n 'S' |
| Tp.CountConcat | tests/tp.py:13-14 | `count` of a concatenation is the sum of the counts |
| Tp.NombreEntier | tests/tp.py:4-5 | `nombre_entier(n)` is a numeral with exactly n 'S' (none for negative n) |
| Tp.NumeralRoundTrip | tests/tp.py:4-5 | every numeral `S...S0` is `nombre_entier` of its 'S'-count |
| Tp.NumeralsEqual | tests/tp.py:4-5 | two numerals with the same 'S'-count are equal |
| Tp.S | tests/tp.py:8-9 | the successor adds one 'S' and keeps a numeral a numeral |
| Tp.SuccOfNumeral | tests/tp.py:8-9 | `S(nombre_entier(k)) == nombre_entier(k + 1)` |
| Tp.Addition | tests/tp.py:12-15 | the result is a numeral whose 'S'-count is count(a) + count(b) |
| Tp.AdditionOfNumerals | tests/tp.py:12-15 | `addition(nombre_entier(x), nombre_entier(y)) == nombre_entier(x + y)` |
| Tp.AdditionZero | tests/tp.py:12-15 | "0" is neutral on both sides for numerals |
| Tp.AdditionAssociative | tests/tp.py:12-15 | `addition` is associative |
| Tp.Multiplication | tests/tp.py:18-21 | the result is a numeral whose 'S'-count is count(a)·count(b) |
| Tp.MultiplicationOfNumerals | tests/tp.py:18-21 | `multiplication(nombre_entier(x), nombre_entier(y)) == nombre_entier(x * y)` |
| Tp.MultiplicationCommutative | tests/tp.py:18-21 | `multiplication` is commutative |
| Tp.MultiplicationOne | tests/tp.py:18-21 | "S0" is a right identity for numerals |
| Tp.MultiplicationDistributes | tests/tp.py:12-21 | `multiplication` distributes over `addition` |
| Tp.FactoRec | tests/tp.py:31-34 | n! is at least 1 and at least n |
| Tp.FactoIte | tests/tp.py:24-28 | the loop returns `facto_rec(n)` for n >= 0, and 1 for negative n (empty range) |
| Tp.FiboRec | tests/tp.py:37-40 | F(n) is non-negative for n >= 0 and positive for n >= 1 |
| Tp.FiboIte | tests/tp.py:42-51 | the loop returns `fibo_rec(n)` for n >= 0, and 1 for negative n, where `fibo_rec` returns n |

## Left out

- The `VERBOSE` flag and its `fprintf` tracing (src/arithmatoy.c:8, :53-55) are left out: they are logging only.
- Allocation failure is left out, together with `debug_abort`/`abort` and the `fprintf` failure messages (src/arithmatoy.c:62-64, :112-116, :185-194, :233-236). These concern host memory, not arithmetic. A `new` array cannot fail.
- `arithmatoy_free` and pointer ownership are left out.
  - `drop_leading_zeros` returns a pointer into its argument, and `mul` never frees earlier sums.
  - Results are modelled as string values.
- The `lhs == NULL || rhs == NULL` tests of `sub` and `mul` are left out: a Dafny string cannot be null.
- `strlen` is modelled by a length parameter of `Reverse` and by the length of a `string`. The NUL terminator is written where the source writes it.
- The `int` counters `i`, `j` and `k` of `sub` (src/arithmatoy.c:119-121), which limit operands to `INT_MAX` digits, are modelled as unbounded integers. So is its digit difference, which the source computes in `unsigned int` and converts back to `int` (:124, :137). The values agree for every valid digit.
- The `size_t` counters of `add`, which wrap to `SIZE_MAX` when an operand runs out, are left out. `AddColumns` models them as counts of unread digits that stop at 0, the same test.
- Add: the source does not test the base. The model requires 1 <= base <= 36, because base 0 divides by zero and a base above 36 can write '?' digits, which have no value.
- Add: digits of the operands must be valid in the base, because the source computes on the -1 sentinel without checking.
- Sub: digits of the operands must be valid in the base, for the same reason.
- Add, Sub and Mul: operands must be non-empty where the source calls `drop_leading_zeros` on them. For Add, at least one operand must be non-empty. On an empty string that function reads before the start of its buffer.
- Each digit loop of `add`, `sub` and `mul` is in a method of its own (`AddColumns`, `SubtractColumns`, `PropagateBorrow`, `PartialProduct`, `MulRow`). They run in the order the source runs them, on the same buffers.
- MulRow: the array of the sum is not modelled. `mul` takes a fresh string from `arithmatoy_add` on each round, so the running sum is a string value.
- `golden_phi`, `sqrt5` and `pow` in tests/tp.py are left out: they compute in floating point.
- FactoRec: defined on naturals only, because `facto_rec` recurses without end on a negative argument.
- `utils.h` is not part of this model; it only declares `debug_abort`.
