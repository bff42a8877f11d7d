/** The exercises of the practical session: unary naturals written as
    strings `S...S0` (one 'S' per successor), and factorial and Fibonacci,
    each computed by recursion and by a loop. */
module Tp {

  /** The Python string repetition `c * n`, for `n >= 0`. */
  function Repeat(c: char, n: nat): (r: string)
    ensures |r| == n && forall k :: 0 <= k < n ==> r[k] == c
  {
    if n == 0 then [] else [c] + Repeat(c, n - 1)
  }

  /** `str.count(c)` for a one-character pattern. */
  function Count(s: string, c: char): (n: nat)
    ensures n <= |s|
    ensures n == 0 <==> c !in s
  {
    if |s| == 0 then 0 else (if s[0] == c then 1 else 0) + Count(s[1..], c)
  }

  /** A well-formed unary numeral: a run of 'S' closed by one '0'. */
  predicate IsNumeral(s: string) {
    |s| >= 1 && s[|s| - 1] == '0' && forall k :: 0 <= k < |s| - 1 ==> s[k] == 'S'
  }

  lemma {:induction false} CountConcat(s: string, t: string, c: char)
    ensures Count(s + t, c) == Count(s, c) + Count(t, c)
    decreases |s|
  {
    if |s| == 0 {
      assert s + t == t;
    } else {
      assert (s + t)[1..] == s[1..] + t;
      CountConcat(s[1..], t, c);
    }
  }

  lemma {:induction false} RepeatCount(c: char, n: nat)
    ensures Count(Repeat(c, n), c) == n
    decreases n
  {
    if n > 0 {
      assert Repeat(c, n)[1..] == Repeat(c, n - 1);
      RepeatCount(c, n - 1);
    }
  }

  /** The 'S'-count of `"S" * n + "0"` is `n`. */
  lemma UnaryCount(n: nat)
    ensures Count(Repeat('S', n) + "0", 'S') == n
  {
    CountConcat(Repeat('S', n), "0", 'S');
    RepeatCount('S', n);
    assert Count("0", 'S') == 0 by {
      assert "0"[1..] == [];
    }
  }

  /** `nombre_entier`: the numeral of `n`. A negative `n` repeats 'S' no
      times, as Python's `"S" * n` does, and gives "0". */
  function NombreEntier(n: int): (r: string)
    ensures IsNumeral(r)
    ensures Count(r, 'S') == if n < 0 then 0 else n
  {
    var k := if n < 0 then 0 else n;
    UnaryCount(k);
    Repeat('S', k) + "0"
  }

  /** Every well-formed numeral is `nombre_entier` of its 'S'-count. */
  lemma {:induction false} NumeralRoundTrip(s: string)
    requires IsNumeral(s)
    ensures s == NombreEntier(Count(s, 'S'))
    decreases |s|
  {
    if |s| == 1 {
      assert s == "0";
      assert Count(s, 'S') == 0 by {
        assert s[1..] == [];
      }
      assert NombreEntier(0) == "0";
    } else {
      var t := s[1..];
      assert IsNumeral(t) by {
        assert forall k :: 0 <= k < |t| - 1 ==> t[k] == s[k + 1];
      }
      NumeralRoundTrip(t);
      var n := Count(t, 'S');
      assert Count(s, 'S') == n + 1;
      assert Repeat('S', n + 1) == [s[0]] + Repeat('S', n);
      assert s == [s[0]] + t;
    }
  }

  /** `S`: the successor prepends one 'S'. */
  function S(n: string): (r: string)
    ensures Count(r, 'S') == Count(n, 'S') + 1
    ensures IsNumeral(n) ==> IsNumeral(r)
  {
    assert ("S" + n)[1..] == n;
    "S" + n
  }

  lemma SuccOfNumeral(k: nat)
    ensures S(NombreEntier(k)) == NombreEntier(k + 1)
  {
    assert Repeat('S', k + 1) == "S" + Repeat('S', k);
  }

  /** `addition`: a numeral whose 'S'-count is the sum of the operands'. */
  function Addition(a: string, b: string): (r: string)
    ensures IsNumeral(r)
    ensures Count(r, 'S') == Count(a, 'S') + Count(b, 'S')
  {
    var aCount := Count(a, 'S');
    var bCount := Count(b, 'S');
    UnaryCount(aCount + bCount);
    Repeat('S', aCount + bCount) + "0"
  }

  lemma AdditionOfNumerals(x: nat, y: nat)
    ensures Addition(NombreEntier(x), NombreEntier(y)) == NombreEntier(x + y)
  {
    NumeralsEqual(Addition(NombreEntier(x), NombreEntier(y)), NombreEntier(x + y));
  }

  /** "0" is a neutral element on numerals. */
  lemma AdditionZero(a: string)
    requires IsNumeral(a)
    ensures Addition(a, "0") == a && Addition("0", a) == a
  {
    assert Count("0", 'S') == 0 by {
      assert "0"[1..] == [];
    }
    NumeralsEqual(Addition(a, "0"), a);
    NumeralsEqual(Addition("0", a), a);
  }

  lemma AdditionAssociative(a: string, b: string, c: string)
    ensures Addition(Addition(a, b), c) == Addition(a, Addition(b, c))
  {
    NumeralsEqual(Addition(Addition(a, b), c), Addition(a, Addition(b, c)));
  }

  /** `multiplication`: a numeral whose 'S'-count is the product of the
      operands'. */
  function Multiplication(a: string, b: string): (r: string)
    ensures IsNumeral(r)
    ensures Count(r, 'S') == Count(a, 'S') * Count(b, 'S')
  {
    var aCount := Count(a, 'S');
    var bCount := Count(b, 'S');
    UnaryCount(aCount * bCount);
    Repeat('S', aCount * bCount) + "0"
  }

  lemma MultiplicationOfNumerals(x: nat, y: nat)
    ensures Multiplication(NombreEntier(x), NombreEntier(y)) == NombreEntier(x * y)
  {
    NumeralsEqual(Multiplication(NombreEntier(x), NombreEntier(y)), NombreEntier(x * y));
  }

  lemma MultiplicationCommutative(a: string, b: string)
    ensures Multiplication(a, b) == Multiplication(b, a)
  {
    NumeralsEqual(Multiplication(a, b), Multiplication(b, a));
  }

  /** "S0" is a neutral element on numerals. */
  lemma MultiplicationOne(a: string)
    requires IsNumeral(a)
    ensures Multiplication(a, "S0") == a
  {
    assert Count("S0", 'S') == 1 by {
      assert "S0"[1..] == "0";
      assert "0"[1..] == [];
    }
    NumeralsEqual(Multiplication(a, "S0"), a);
  }

  lemma MultiplicationDistributes(a: string, b: string, c: string)
    ensures Multiplication(a, Addition(b, c)) == Addition(Multiplication(a, b), Multiplication(a, c))
  {
    var x, y, z := Count(a, 'S'), Count(b, 'S'), Count(c, 'S');
    assert x * (y + z) == x * y + x * z;
    NumeralsEqual(Multiplication(a, Addition(b, c)), Addition(Multiplication(a, b), Multiplication(a, c)));
  }

  /** Two numerals with the same 'S'-count are equal. */
  lemma NumeralsEqual(s: string, t: string)
    requires IsNumeral(s) && IsNumeral(t) && Count(s, 'S') == Count(t, 'S')
    ensures s == t
  {
    NumeralRoundTrip(s);
    NumeralRoundTrip(t);
  }

  /** `facto_rec`; the source recurses without end on a negative argument,
      hence the natural parameter. */
  function FactoRec(n: nat): (r: nat)
    ensures r >= 1 && r >= n
  {
    if n == 0 then 1 else n * FactoRec(n - 1)
  }

  /** `facto_ite`: the product `1 * 2 * ... * n`, which is 1 when the range
      `1..n` is empty. */
  method FactoIte(n: int) returns (result: int)
    ensures n >= 0 ==> result == FactoRec(n)
    ensures n < 0 ==> result == 1
  {
    result := 1;
    var i := 1;
    while i < n + 1
      invariant 1 <= i && (n >= 0 ==> i <= n + 1) && (n < 0 ==> i == 1)
      invariant result == FactoRec(i - 1)
      decreases n + 1 - i
    {
      assert FactoRec(i) == i * FactoRec(i - 1);
      result := result * i;
      i := i + 1;
    }
  }

  /** `fibo_rec`: an argument at most 1 is returned as it is. */
  function FiboRec(n: int): (r: int)
    ensures n >= 0 ==> r >= 0
    ensures n >= 1 ==> r >= 1
    decreases n
  {
    if n <= 1 then n else FiboRec(n - 1) + FiboRec(n - 2)
  }

  /** `fibo_ite`: `(a, b)` walks the pairs `(F(k - 1), F(k))`. A negative
      argument skips both early returns and the empty loop, and gives 1. */
  method FiboIte(n: int) returns (r: int)
    ensures n >= 0 ==> r == FiboRec(n)
    ensures n < 0 ==> r == 1
  {
    if n == 0 {
      return 0;
    } else if n == 1 {
      return 1;
    }
    var a, b := 0, 1;
    var i := 2;
    while i < n + 1
      invariant 2 <= i && (n >= 2 ==> i <= n + 1) && (n < 0 ==> i == 2)
      invariant a == FiboRec(i - 2) && b == FiboRec(i - 1)
      decreases n + 1 - i
    {
      a, b := b, a + b;
      i := i + 1;
    }
    r := b;
  }
}
