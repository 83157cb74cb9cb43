/**
  Integer bit operations as the source language has them: integers are unbounded
  and negative ones behave as an infinite two's complement.  The model keeps the
  source's masks (`value & ~(alignment - 1)`, `value & ((1 << bits) - 1)`) and
  the lemmas below give their arithmetic meaning.
*/
module Bits {

  function Max(x: int, y: int): int {
    if x >= y then x else y
  }

  function Min(x: int, y: int): int {
    if x <= y then x else y
  }

  /** Distance of x from the two fixed points 0 and -1 of halving. */
  function Magnitude(x: int): nat {
    if x >= 0 then x else -x - 1
  }

  /** Bitwise conjunction; `/` and `%` by 2 round down, which is the arithmetic shift. */
  function And(x: int, y: int): int
    decreases Magnitude(x)
  {
    if x == 0 || y == 0 then 0
    else if x == -1 then y
    else if y == -1 then x
    else 2 * And(x / 2, y / 2) + (if x % 2 == 1 && y % 2 == 1 then 1 else 0)
  }

  /** Bitwise complement. */
  function Not(x: int): int {
    -x - 1
  }

  function Pow2(k: nat): (p: int)
    ensures p > 0
  {
    if k == 0 then 1 else 2 * Pow2(k - 1)
  }

  /** The source's test for a power of two. */
  predicate PassesPow2Test(n: int) {
    And(n, n - 1) == 0
  }

  lemma DivModUnique(x: int, d: int, q: int, r: int)
    requires d > 0 && 0 <= r < d && x == d * q + r
    ensures x / d == q && x % d == r
  {
    var q', r' := x / d, x % d;
    assert d * (q - q') == r' - r;
    assert q - q' >= 1 ==> d * (q - q') >= d;
    assert q - q' <= -1 ==> d * (q - q') <= -d;
  }

  lemma MulMonotone(d: int, i: int, j: int)
    requires d >= 0 && i <= j
    ensures d * i <= d * j
  {
    assert d * (j - i) >= 0;
  }

  /** Two different multiples of d are at least d apart. */
  lemma MultiplesApart(d: int, x: int, y: int)
    requires d > 0 && x % d == 0 && y % d == 0 && x < y
    ensures x + d <= y
  {
    var i, j := x / d, y / d;
    if j <= i {
      MulMonotone(d, j, i);
    } else {
      MulMonotone(d, i + 1, j);
      assert d * (i + 1) == d * i + d;
    }
  }

  lemma HalveMod(x: int, p: int)
    requires p > 0
    ensures x % (2 * p) == 2 * ((x / 2) % p) + x % 2
  {
    var q, r := (x / 2) / p, (x / 2) % p;
    assert x / 2 == p * q + r;
    assert x == 2 * p * q + (2 * r + x % 2);
    DivModUnique(x, 2 * p, q, 2 * r + x % 2);
  }

  /** Masking with k ones is the remainder by 2^k. */
  lemma {:induction false} AndMask(x: int, k: nat)
    ensures And(x, Pow2(k) - 1) == x % Pow2(k)
    decreases k
  {
    if k == 0 {
    } else if x == -1 {
      DivModUnique(-1, Pow2(k), -1, Pow2(k) - 1);
    } else if x != 0 {
      AndMask(x / 2, k - 1);
      HalveMod(x, Pow2(k - 1));
      assert (Pow2(k) - 1) / 2 == Pow2(k - 1) - 1 && (Pow2(k) - 1) % 2 == 1;
    }
  }

  /** A mask and its complement split every number. */
  lemma {:induction false} AndSplits(x: int, y: int)
    ensures And(x, y) + And(x, Not(y)) == x
    decreases Magnitude(x)
  {
    if x != 0 && x != -1 && y != 0 && y != -1 {
      AndSplits(x / 2, y / 2);
      assert Not(y) / 2 == Not(y / 2) && Not(y) % 2 == 1 - y % 2;
    }
  }

  /** Clearing the k low bits rounds down to a multiple of 2^k. */
  lemma AndClear(x: int, k: nat)
    ensures And(x, Not(Pow2(k) - 1)) == x - x % Pow2(k)
  {
    AndMask(x, k);
    AndSplits(x, Pow2(k) - 1);
  }

  lemma {:induction false} AndSelf(x: int)
    ensures And(x, x) == x
    decreases Magnitude(x)
  {
    if x != 0 && x != -1 {
      AndSelf(x / 2);
    }
  }

  /** The test `n & (n - 1) == 0` accepts exactly the powers of two among the positive numbers. */
  lemma {:induction false} Pow2TestExact(n: int)
    requires n > 0
    ensures PassesPow2Test(n) <==> exists k: nat :: n == Pow2(k)
    decreases n
  {
    if n == 1 {
      assert n == Pow2(0);
    } else if n % 2 == 1 {
      AndSelf(n / 2);
      assert And(n, n - 1) == 2 * (n / 2);
      forall k: nat ensures n != Pow2(k) {
        if k > 0 { assert Pow2(k) % 2 == 0; }
      }
    } else {
      assert (n - 1) / 2 == n / 2 - 1;
      assert And(n, n - 1) == 2 * And(n / 2, n / 2 - 1);
      Pow2TestExact(n / 2);
      assert PassesPow2Test(n) <==> PassesPow2Test(n / 2);
      if PassesPow2Test(n) {
        var k: nat :| n / 2 == Pow2(k);
        assert n == Pow2(k + 1);
      } else {
        forall k: nat ensures n != Pow2(k) {
          if k > 0 { assert Pow2(k) == 2 * Pow2(k - 1); }
        }
      }
    }
  }

  /** What the source's alignment expressions mean for a power-of-two alignment. */
  lemma AlignmentMeaning(v: int, n: int)
    requires n > 0 && PassesPow2Test(n)
    ensures And(v, Not(n - 1)) == v - v % n
    ensures And(v, n - 1) == v % n
  {
    Pow2TestExact(n);
    var k: nat :| n == Pow2(k);
    AndClear(v, k);
    AndMask(v, k);
  }
}
