// The encoder of Binary64 rounds correctly: nearest value, ties to the even pattern, subnormals included.
//
// Every finite value is an integer number of units of 2^-Scale(f), so distances are compared as integers: for
// x = num/den the distance of a pattern is |Units * den - InUnits|, a fixed positive multiple of the real one.
module Binary64Rounding {
  import opened Arithmetic
  import opened Wrappers
  import opened Binary64

  // Value of any pattern in units; also defined on zero and past the greatest finite pattern. The first two
  // blocks of the exponent field share one spacing, and every later block doubles it.
  function Units(f: Format, bits: nat): nat {
    if bits < 2 * Pow2(f.mant) then bits else 2 * Units(f, bits - Pow2(f.mant))
  }

  // x in units is InUnits(f, x) / x.den
  function InUnits(f: Format, x: Rational): int
    requires Proper(f)
  {
    x.num * Pow2(Scale(f))
  }

  function Gap(f: Format, bits: nat, y: int, den: int): nat {
    Abs(Units(f, bits) * den - y)
  }

  // bits is a nearest pattern to y/den units, and is even whenever another pattern is equally near.
  ghost predicate NearestEven(f: Format, bits: nat, y: int, den: int) {
    && (forall c: nat :: Gap(f, bits, y, den) <= Gap(f, c, y, den))
    && (forall c: nat :: c != bits && Gap(f, c, y, den) == Gap(f, bits, y, den) ==> bits % 2 == 0)
  }

  // ------------------------------------------------------------------ patterns and units

  // s steps of the exponent field above the subnormals, with integral significand n.
  ghost predicate Normalized(f: Format, s: nat, n: nat) {
    n <= 2 * Pow2(f.mant) && (s == 0 || Pow2(f.mant) <= n)
  }

  lemma {:induction false} UnitsOfParts(f: Format, s: nat, n: nat)
    requires Normalized(f, s, n)
    ensures s * Pow2(f.mant) >= 0
    ensures Units(f, s * Pow2(f.mant) + n) == n * Pow2(s)
  {
    var m := Pow2(f.mant);
    if s == 0 {
      assert 0 * m == 0;
      assert Pow2(0) == 1;
      if n == 2 * m {
        assert Units(f, n - m) == n - m;
      }
    } else {
      UnitsOfParts(f, s - 1, n);
      assert s * m == (s - 1) * m + m;
      assert Pow2(s) == 2 * Pow2(s - 1);
      SplitFactor(n, Pow2(s), 2, Pow2(s - 1));
    }
  }

  // Every pattern has parts with a significand below the upper end.
  lemma {:induction false} PartsOf(f: Format, bits: nat) returns (s: nat, n: nat)
    ensures n < 2 * Pow2(f.mant) && Normalized(f, s, n)
    ensures bits == s * Pow2(f.mant) + n
    ensures Units(f, bits) == n * Pow2(s)
    decreases bits
  {
    var m := Pow2(f.mant);
    if bits < 2 * m {
      s, n := 0, bits;
      assert 0 * m == 0;
    } else {
      s, n := PartsOf(f, bits - m);
      assert (s + 1) * m == s * m + m;
      s := s + 1;
    }
    UnitsOfParts(f, s, n);
  }

  lemma UnitsStep(f: Format, bits: nat)
    ensures Units(f, bits) < Units(f, bits + 1)
  {
    var s, n := PartsOf(f, bits);
    UnitsOfParts(f, s, n + 1);
    assert (n + 1) * Pow2(s) == n * Pow2(s) + Pow2(s);
  }

  lemma {:induction false} UnitsMonotone(f: Format, a: nat, b: nat)
    ensures a < b ==> Units(f, a) < Units(f, b)
    ensures a <= b ==> Units(f, a) <= Units(f, b)
    decreases b
  {
    if a < b {
      UnitsMonotone(f, a, b - 1);
      UnitsStep(f, b - 1);
    }
  }

  lemma UnitsOrder(f: Format, a: nat, b: nat)
    ensures a < b <==> Units(f, a) < Units(f, b)
  {
    UnitsMonotone(f, a, b);
    UnitsMonotone(f, b, a);
  }

  lemma PatternLimitUnits(f: Format)
    ensures Units(f, PatternLimit(f)) == Pow2(f.mant + 2 * f.bias)
  {
    assert (2 * f.bias + 1) * Pow2(f.mant) == 2 * f.bias * Pow2(f.mant) + Pow2(f.mant);
    UnitsOfParts(f, 2 * f.bias, Pow2(f.mant));
    Pow2Add(f.mant, 2 * f.bias);
  }

  lemma ShiftUp(n: int, t: nat, k: nat)
    requires k <= t
    ensures n * Pow2(t - k) * Pow2(k) == n * Pow2(t)
    ensures n * Pow2(k) * Pow2(t - k) == n * Pow2(t)
  {
    Pow2Add(t - k, k);
    SplitFactor(n, Pow2(t), Pow2(t - k), Pow2(k));
  }

  // n * 2^(t-k), seen as n * 2^t over 2^k.
  lemma ShiftedInteger(n: int, t: nat, k: nat)
    ensures Equal(TimesPower(n, t - k), Fraction(n * Pow2(t), Pow2(k)))
  {
    if t >= k {
      ShiftUp(n, t, k);
    } else {
      ShiftUp(n, k, t);
    }
  }

  // Quotient and remainder of a pattern by the size m of its fraction field.
  lemma FieldsOf(m: int, s: int, n: int, bits: int, limit: int)
    requires m > 0 && s >= 0 && 0 <= n < 2 * m && (s == 0 || m <= n) && bits == s * m + n
    ensures bits / m == if n < m then 0 else s + 1
    ensures bits % m == if n < m then n else n - m
    ensures bits < limit * m <==> bits / m < limit
    ensures n == 0 <==> bits == 0
  {
    MulLeft(m, 0, s);
    assert m * (s + 1) == s * m + m && m * (s + 2) == s * m + 2 * m;
    if n < m {
      QuotientUnique(bits, m, 0);
    } else {
      QuotientUnique(bits, m, s + 1);
    }
    QuotientBrackets(bits, m);
    MulLeftCancel(m, bits / m, limit);
    MulLeftCancel(m, limit, bits / m + 1);
  }

  lemma TimesPowerPositive(n: int, e: int)
    ensures TimesPower(n, e).num > 0 <==> n > 0
    ensures TimesPower(n, e).num == 0 <==> n == 0
  {
    if e >= 0 {
      MulLeftCancel(Pow2(e), 0, n);
    }
  }

  // A pattern decodes exactly when it is positive and finite, and then to its number of units.
  lemma DecodeIsUnits(f: Format, bits: nat)
    requires Proper(f)
    ensures Decode(f, bits).Success? <==> PositiveFinite(f, bits)
    ensures PositiveFinite(f, bits) ==>
      Decode(f, bits).value.num > 0 && Equal(Decode(f, bits).value, Fraction(Units(f, bits), Pow2(Scale(f))))
  {
    var s, n := PartsOf(f, bits);
    FieldsOf(Pow2(f.mant), s, n, bits, 2 * f.bias + 1);
    ShiftedInteger(n, s, Scale(f));
    TimesPowerPositive(n, s - Scale(f));
  }

  // ------------------------------------------------------------------ nearest patterns

  lemma GapDown(f: Format, c: nat, b: nat, y: int, den: int)
    requires den > 0 && c <= b && Units(f, b) * den <= y
    ensures Gap(f, b, y, den) == y - Units(f, b) * den <= Gap(f, c, y, den)
    ensures c < b ==> Gap(f, b, y, den) < Gap(f, c, y, den)
  {
    UnitsMonotone(f, c, b);
    MulLeft(den, Units(f, c), Units(f, b));
    if c < b {
      MulLeftStrict(den, Units(f, c), Units(f, b));
    }
  }

  lemma GapUp(f: Format, b: nat, c: nat, y: int, den: int)
    requires den > 0 && b <= c && y <= Units(f, b) * den
    ensures Gap(f, b, y, den) == Units(f, b) * den - y <= Gap(f, c, y, den)
    ensures b < c ==> Gap(f, b, y, den) < Gap(f, c, y, den)
  {
    UnitsMonotone(f, b, c);
    MulLeft(den, Units(f, b), Units(f, c));
    if b < c {
      MulLeftStrict(den, Units(f, b), Units(f, c));
    }
  }

  // Between two neighbouring patterns, the nearer one, or the even one of two equally near, is NearestEven.
  lemma NearestOfBracket(f: Format, b: nat, p: nat, y: int, den: int)
    requires den > 0
    requires Units(f, b) * den <= y < Units(f, b + 1) * den
    requires p == b || p == b + 1
    requires p == b ==> y - Units(f, b) * den <= Units(f, b + 1) * den - y
    requires p == b + 1 ==> Units(f, b + 1) * den - y <= y - Units(f, b) * den
    requires y - Units(f, b) * den == Units(f, b + 1) * den - y ==> p % 2 == 0
    ensures NearestEven(f, p, y, den)
  {
    forall c: nat
      ensures Gap(f, p, y, den) <= Gap(f, c, y, den)
      ensures c != p && Gap(f, c, y, den) == Gap(f, p, y, den) ==> p % 2 == 0
    {
      GapDown(f, b, b, y, den);
      GapUp(f, b + 1, b + 1, y, den);
      if c <= b {
        GapDown(f, c, b, y, den);
      } else {
        GapUp(f, b + 1, c, y, den);
      }
    }
  }

  // ------------------------------------------------------------------ comparisons across denominators

  lemma ScaledLess(a: int, b: int, w: int, a': int, b': int)
    requires w > 0 && a' == a * w && b' == b * w
    ensures (a < b <==> a' < b') && (a == b <==> a' == b')
  {
    MulLeftCancel(w, a, b);
  }

  // x < 2^(i-j), cross-multiplied by the power that avoids the case split.
  lemma BelowPowerCross(x: Rational, i: nat, j: nat)
    ensures BelowPower(x, i - j) <==> x.num * Pow2(j) < x.den * Pow2(i)
  {
    if i >= j {
      ShiftUp(x.den, i, j);
      ScaledLess(x.num, x.den * Pow2(i - j), Pow2(j), x.num * Pow2(j), x.den * Pow2(i));
    } else {
      ShiftUp(x.num, j, i);
      ScaledLess(x.num * Pow2(j - i), x.den, Pow2(i), x.num * Pow2(j), x.den * Pow2(i));
    }
  }

  // x / 2^(i-j) as the quotient of x.num * 2^j by x.den * 2^i, up to a common factor w.
  lemma OverPowerScale(x: Rational, i: nat, j: nat) returns (w: nat)
    ensures w > 0
    ensures OverPower(x, i - j).num * w == x.num * Pow2(j)
    ensures OverPower(x, i - j).den * w == x.den * Pow2(i)
  {
    if i >= j {
      ShiftUp(x.den, i, j);
      w := Pow2(j);
    } else {
      ShiftUp(x.num, j, i);
      w := Pow2(i);
    }
  }

  lemma ProductsOrdered(a: int, b: int, c: int, d: int)
    requires 0 <= a <= c && 0 <= b <= d
    ensures a * b <= c * d
    ensures a < c && 0 < d ==> a * b < c * d
    ensures b < d && 0 < c ==> a * b < c * d
  {
    MulLeft(a, b, d);
    MulLeft(d, a, c);
    if a < c && 0 < d {
      MulLeftStrict(d, a, c);
    }
    MulLeft(b, a, c);
    if b < d && 0 < c {
      MulLeftStrict(c, b, d);
    }
  }

  lemma SwapFactors(a: int, b: int)
    ensures a * b == b * a
  {
  }

  lemma BelowPowerMonotone(x: Rational, e: int, e': int)
    requires BelowPower(x, e) && e <= e'
    ensures BelowPower(x, e')
  {
    var j := if e < 0 then -e else 0;
    BelowPowerCross(x, e + j, j);
    BelowPowerCross(x, e' + j, j);
    Pow2Monotone(e + j, e' + j);
    MulLeft(x.den, Pow2(e + j), Pow2(e' + j));
  }

  // ------------------------------------------------------------------ what the algorithm computes

  // The leading exponent is the binary order of magnitude of x.
  lemma LeadingExponentBrackets(x: Rational)
    requires x.num > 0
    ensures !BelowPower(x, LeadingExponent(x)) && BelowPower(x, LeadingExponent(x) + 1)
  {
    var a, b := BitLength(x.num), BitLength(x.den);
    BitLengthBounds(x.num);
    BitLengthBounds(x.den);
    BelowPowerCross(x, a - 1, b);
    BelowPowerCross(x, a, b - 1);
    CrossBounds(x.num, x.den, Pow2(a - 1), Pow2(a), Pow2(b - 1), Pow2(b));
  }

  lemma CrossBounds(num: int, den: int, loNum: int, hiNum: int, loDen: int, hiDen: int)
    requires 0 < loNum <= num < hiNum && 0 < loDen <= den < hiDen
    ensures den * loNum <= num * hiDen && num * loDen < den * hiNum
  {
    ProductsOrdered(den, loNum, hiDen, num);
    ProductsOrdered(loDen, num, den, hiNum);
    SwapFactors(hiDen, num);
    SwapFactors(loDen, num);
  }

  // Steps of the exponent field at which x is rounded.
  function Steps(f: Format, x: Rational): nat
    requires Proper(f) && x.num > 0
  {
    RoundingShift(f, x) + Scale(f)
  }

  // The quotient that is rounded to an integral significand.
  function Scaled(f: Format, x: Rational): Rational
    requires Proper(f) && x.num > 0
  {
    OverPower(x, RoundingShift(f, x))
  }

  lemma RoundHalfEvenBracket(q: Rational)
    ensures var n, r := q.num / q.den, RoundHalfEven(q);
      && n * q.den <= q.num < (n + 1) * q.den
      && (r == n || r == n + 1)
      && (r == n ==> 2 * q.num <= n * q.den + (n + 1) * q.den)
      && (r == n + 1 ==> n * q.den + (n + 1) * q.den <= 2 * q.num)
      && (2 * q.num == n * q.den + (n + 1) * q.den ==> r % 2 == 0)
  {
    var n := q.num / q.den;
    QuotientBrackets(q.num, q.den);
    assert q.num == q.den * n + q.num % q.den;
    assert (n + 1) * q.den == q.den * (n + 1) == q.den * n + q.den;
  }

  lemma CompareScaled(n: int, num: int, den: int, w: int, y: int, d: int, p: int)
    requires w > 0 && num * w == y && den * w == d * p
    ensures n * den * w == n * p * d
    ensures n * den <= num <==> n * p * d <= y
    ensures n * den < num <==> n * p * d < y
    ensures num < n * den <==> y < n * p * d
  {
    SplitFactor(n, d * p, d, p);
    SplitFactor(n, den * w, den, w);
    ScaledLess(n * den, num, w, n * p * d, y);
  }

  // The integral significand at the rounding shift fills the format: neither too short nor too long.
  lemma SignificandRange(f: Format, x: Rational)
    requires Proper(f) && x.num > 0
    ensures var n := Scaled(f, x).num / Scaled(f, x).den;
      0 <= n < 2 * Pow2(f.mant) && (Steps(f, x) > 0 ==> Pow2(f.mant) <= n)
  {
    var e: int, s: int, k: int := LeadingExponent(x), Steps(f, x), Scale(f);
    var q := Scaled(f, x);
    assert s - k == RoundingShift(f, x);
    var w := OverPowerScale(x, s, k);
    LeadingExponentBrackets(x);
    MulPositive(x.num, Pow2(k));
    SignificandBelow(f, x, e, s, k, w, q);
    if s > 0 {
      SignificandAbove(f, x, e, s, k, w, q);
      QuotientRange(q.num, q.den, Pow2(f.mant), 2 * Pow2(f.mant));
    } else {
      ScaledLess(0, q.num, w, 0, x.num * Pow2(k));
      QuotientRange(q.num, q.den, 0, 2 * Pow2(f.mant));
    }
  }

  lemma QuotientRange(a: int, d: int, lo: int, hi: int)
    requires d > 0 && d * lo <= a < d * hi
    ensures lo <= a / d < hi
  {
    QuotientBrackets(a, d);
    MulLeftCancel(d, a / d, hi);
    MulLeftCancel(d, lo, a / d + 1);
  }

  lemma SignificandBelow(f: Format, x: Rational, e: int, s: nat, k: nat, w: nat, q: Rational)
    requires x.num > 0 && w > 0 && BelowPower(x, e + 1) && e - f.mant <= s - k
    requires q.num * w == x.num * Pow2(k) && q.den * w == x.den * Pow2(s)
    ensures q.num < q.den * (2 * Pow2(f.mant))
  {
    hide Pow2, BelowPower;
    var m := f.mant + 1;
    BelowPowerMonotone(x, e + 1, s + m - k);
    BelowPowerCross(x, s + m, k);
    Pow2Add(s, m);
    SplitFactor(x.den, Pow2(s + m), Pow2(s), Pow2(m));
    CompareScaled(Pow2(m), q.num, q.den, w, x.num * Pow2(k), x.den, Pow2(s));
    Pow2Twice(f.mant);
  }

  lemma SignificandAbove(f: Format, x: Rational, e: int, s: nat, k: nat, w: nat, q: Rational)
    requires x.num > 0 && w > 0 && !BelowPower(x, e) && e - f.mant == s - k
    requires q.num * w == x.num * Pow2(k) && q.den * w == x.den * Pow2(s)
    ensures q.den * Pow2(f.mant) <= q.num
  {
    var m := f.mant;
    assert !BelowPower(x, s + m - k);
    BelowPowerCross(x, s + m, k);
    Pow2Add(s, m);
    SplitFactor(x.den, Pow2(s + m), Pow2(s), Pow2(m));
    CompareScaled(Pow2(m), q.num, q.den, w, x.num * Pow2(k), x.den, Pow2(s));
  }

  // The pattern the algorithm arrives at, before the range check.
  function Pattern(f: Format, x: Rational): int
    requires Proper(f) && x.num > 0
  {
    Steps(f, x) * Pow2(f.mant) + RoundHalfEven(Scaled(f, x))
  }

  lemma EvenPart(f: Format, s: nat, n: int)
    requires Proper(f)
    ensures (s * Pow2(f.mant) + n) % 2 == n % 2
  {
    assert Pow2(f.mant) == 2 * Pow2(f.mant - 1);
    SplitFactor(s, Pow2(f.mant), 2, Pow2(f.mant - 1));
    TwiceEven(s * Pow2(f.mant - 1), n);
  }

  lemma TwiceEven(h: int, n: int)
    ensures (2 * h + n) % 2 == n % 2
  {
  }

  lemma PatternParts(f: Format, x: Rational)
    requires Proper(f) && x.num > 0
    ensures var r := RoundHalfEven(Scaled(f, x));
      r >= 0 && Normalized(f, Steps(f, x), r) && Pattern(f, x) >= 0 && Units(f, Pattern(f, x)) == r * Pow2(Steps(f, x))
  {
    SignificandRange(f, x);
    RoundHalfEvenBracket(Scaled(f, x));
    UnitsOfParts(f, Steps(f, x), RoundHalfEven(Scaled(f, x)));
  }

  // The pattern is nearest to x among all patterns, ties to even.
  lemma PatternNearest(f: Format, x: Rational)
    requires Proper(f) && x.num > 0
    ensures Pattern(f, x) >= 0 && NearestEven(f, Pattern(f, x), InUnits(f, x), x.den)
  {
    var s: int, k: int, q := Steps(f, x), Scale(f), Scaled(f, x);
    var n, r := q.num / q.den, RoundHalfEven(q);
    assert s - k == RoundingShift(f, x);
    var w := OverPowerScale(x, s, k);
    SignificandRange(f, x);
    RoundHalfEvenBracket(q);
    UnitsOfParts(f, s, n);
    UnitsOfParts(f, s, n + 1);
    EvenPart(f, s, r);
    var b := s * Pow2(f.mant) + n;
    CompareScaled(n, q.num, q.den, w, InUnits(f, x), x.den, Pow2(s));
    CompareScaled(n + 1, q.num, q.den, w, InUnits(f, x), x.den, Pow2(s));
    CompareMidpoint(n * q.den, (n + 1) * q.den, q.num, w,
      Units(f, b) * x.den, Units(f, b + 1) * x.den, InUnits(f, x));
    NearestOfBracket(f, b, b + (r - n), InUnits(f, x), x.den);
  }

  lemma CompareMidpoint(lo: int, hi: int, v: int, w: int, lo': int, hi': int, v': int)
    requires w > 0 && lo * w == lo' && hi * w == hi' && v * w == v'
    ensures lo + hi <= 2 * v <==> lo' + hi' <= 2 * v'
    ensures lo + hi == 2 * v <==> lo' + hi' == 2 * v'
  {
    MulLeftCancel(w, 2 * v, lo + hi);
    assert w * (2 * v) == 2 * (v * w) && w * (lo + hi) == lo * w + hi * w;
  }
}
