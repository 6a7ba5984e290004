// Integer facts shared by the arithmetic modules: powers of two and of ten, bit lengths, and products.
module Arithmetic {

  function Max(a: int, b: int): int {
    if a < b then b else a
  }

  function Abs(a: int): nat {
    if a < 0 then -a else a
  }

  function Pow(base: nat, n: nat): (r: nat)
    ensures base > 0 ==> r > 0
  {
    if n == 0 then 1 else base * Pow(base, n - 1)
  }

  function Pow2(n: nat): (r: nat)
    ensures r > 0
  {
    if n == 0 then 1 else 2 * Pow2(n - 1)
  }

  // Number of bits of n without leading zeros; the bit length of zero is zero.
  function BitLength(n: nat): nat {
    if n == 0 then 0 else 1 + BitLength(n / 2)
  }

  lemma MulLeft(c: int, a: int, b: int)
    requires 0 <= c && a <= b
    ensures c * a <= c * b
  {
  }

  lemma MulLeftStrict(c: int, a: int, b: int)
    requires 0 < c && a < b
    ensures c * a < c * b
  {
  }

  lemma MulLeftCancel(c: int, a: int, b: int)
    requires 0 < c
    ensures c * a < c * b <==> a < b
    ensures c * a == c * b <==> a == b
  {
    if a < b {
      MulLeftStrict(c, a, b);
    } else if b < a {
      MulLeftStrict(c, b, a);
    }
  }

  // Replacing a factor by a product of two.
  lemma SplitFactor(c: int, p: int, a: int, b: int)
    requires p == a * b
    ensures c * p == c * a * b && c * p == c * b * a && c * p == a * (b * c) && c * p == b * (a * c)
    ensures c * p == a * b * c && c * p == b * a * c
  {
  }

  lemma MulPositive(a: int, b: int)
    requires 0 < a && 0 < b
    ensures 0 < a * b
  {
  }

  lemma {:induction false} Pow2Add(a: nat, b: nat)
    ensures Pow2(a + b) == Pow2(a) * Pow2(b)
  {
    if a == 0 {
      assert Pow2(0) == 1;
    } else {
      Pow2Add(a - 1, b);
      assert Pow2(a + b) == 2 * Pow2(a - 1 + b);
    }
  }

  lemma Pow2Twice(n: nat)
    ensures Pow2(n + 1) == 2 * Pow2(n)
  {
  }

  lemma {:induction false} Pow2Monotone(a: nat, b: nat)
    requires a <= b
    ensures Pow2(a) <= Pow2(b)
  {
    if a < b {
      Pow2Monotone(a, b - 1);
    }
  }

  // A positive integer lies between the two powers of two that its bit length names.
  lemma {:induction false} BitLengthBounds(n: nat)
    requires n > 0
    ensures BitLength(n) >= 1
    ensures Pow2(BitLength(n) - 1) <= n < Pow2(BitLength(n))
  {
    if n == 1 {
      assert BitLength(1) == 1 + BitLength(0);
    } else {
      BitLengthBounds(n / 2);
    }
  }

  // The quotient is the only integer whose multiple brackets the dividend.
  lemma QuotientUnique(a: int, d: int, q: int)
    requires d > 0
    requires d * q <= a < d * (q + 1)
    ensures a / d == q && a % d == a - d * q
  {
    var q', r := a / d, a % d;
    assert a == d * q' + r;
    assert d * (q' + 1) == d * q' + d;
    MulLeftCancel(d, q', q + 1);
    MulLeftCancel(d, q, q' + 1);
  }

  lemma QuotientBrackets(a: int, d: int)
    requires d > 0
    ensures d * (a / d) <= a < d * (a / d + 1)
  {
    assert a == d * (a / d) + a % d;
    assert d * (a / d + 1) == d * (a / d) + d;
  }

  // A common positive factor does not change the order of two numbers.
  lemma ScaleCancels(a: real, b: real, u: real)
    requires u > 0.0
    ensures a * u < b * u <==> a < b
    ensures a * u == b * u <==> a == b
  {
    if a < b {
      assert (b - a) * u > 0.0;
    } else if b < a {
      assert (a - b) * u > 0.0;
    }
  }
}
