// What the rounding algorithm guarantees: acceptance range, nearest value, exact retraction, monotonicity.
module Binary64Theorems {
  import opened Arithmetic
  import opened Wrappers
  import opened Binary64
  import opened Binary64Rounding

  // |x - y|
  function Distance(x: Rational, y: Rational): Rational {
    MulPositive(x.den, y.den);
    Fraction(Abs(x.num * y.den - y.num * x.den), x.den * y.den)
  }

  predicate AtMost(x: Rational, y: Rational) {
    x.num * y.den <= y.num * x.den
  }

  predicate Less(x: Rational, y: Rational) {
    x.num * y.den < y.num * x.den
  }

  // ------------------------------------------------------------------ encoding an exact value

  // r is v units.
  ghost predicate IsUnits(f: Format, r: Rational, v: nat)
    requires Proper(f)
  {
    r.num * Pow2(Scale(f)) == r.den * v
  }

  lemma BelowPowerUnits(f: Format, r: Rational, v: nat, i: nat)
    requires Proper(f) && IsUnits(f, r, v)
    ensures BelowPower(r, i - Scale(f)) <==> v < Pow2(i)
  {
    BelowPowerCross(r, i, Scale(f));
    MulLeftCancel(r.den, v, Pow2(i));
  }

  lemma TruncateUnits(f: Format, r: Rational, n: nat, i: nat)
    requires Proper(f) && IsUnits(f, r, n * Pow2(i))
    ensures Truncate(OverPower(r, i - Scale(f))) == n
  {
    var q := OverPower(r, i - Scale(f));
    var w := OverPowerScale(r, i, Scale(f));
    ExactQuotient(q.num, q.den, w, r.den, Pow2(i), n);
  }

  lemma ExactQuotient(a: int, d: int, w: int, c: int, p: int, n: int)
    requires d > 0 && w > 0 && d * w == c * p && a * w == c * (n * p)
    ensures a / d == n
  {
    SplitFactor(n, d * w, d, w);
    SplitFactor(n, c * p, c, p);
    assert c * (n * p) == n * (c * p);
    ScaledLess(a, n * d, w, a * w, n * d * w);
    QuotientUnique(a, d, n) by {
      assert d * n == n * d && d * (n + 1) == d * n + d;
    }
  }

  lemma LeadingExponentUnits(f: Format, r: Rational, v: nat, j: nat)
    requires Proper(f) && r.num > 0 && IsUnits(f, r, v) && Pow2(j) <= v < Pow2(j + 1)
    ensures LeadingExponent(r) == j - Scale(f)
  {
    var e := LeadingExponent(r);
    LeadingExponentBrackets(r);
    BelowPowerUnits(f, r, v, j);
    BelowPowerUnits(f, r, v, j + 1);
    if e < j - Scale(f) {
      BelowPowerMonotone(r, e + 1, j - Scale(f));
    } else if j - Scale(f) < e {
      BelowPowerMonotone(r, j + 1 - Scale(f), e);
    }
  }

  // The bit composition of the encoder places significand n at step s.
  lemma EncodeParts(f: Format, r: Rational, s: nat, n: nat)
    requires Proper(f) && r.num > 0 && IsUnits(f, r, n * Pow2(s))
    requires Normalized(f, s, n) && n < 2 * Pow2(f.mant)
    ensures Encode(f, r) == s * Pow2(f.mant) + n
  {
    var m, k: int := f.mant, Scale(f);
    BelowPowerUnits(f, r, n * Pow2(s), m);
    if n < Pow2(m) {
      assert Pow2(0) == 1;
      TruncateUnits(f, r, n, 0);
      assert 0 * Pow2(m) == 0;
    } else {
      Pow2Add(m, s);
      ProductsOrdered(Pow2(m), Pow2(s), n, Pow2(s));
      ProductsOrdered(n, Pow2(s), Pow2(m + 1), Pow2(s));
      Pow2Add(m + 1, s);
      Pow2Monotone(m, m + s);
      LeadingExponentUnits(f, r, n * Pow2(s), m + s);
      TruncateUnits(f, r, n, s);
      var e := LeadingExponent(r);
      assert e - m == s - k && e + f.bias == s + 1;
      assert (s + 1) * Pow2(m) == s * Pow2(m) + Pow2(m);
    }
  }

  // A significand that was rounded up to the next power of two carries into the exponent field.
  lemma EncodeCarried(f: Format, r: Rational, s: nat, n: nat)
    requires Proper(f) && r.num > 0 && n > 0 && IsUnits(f, r, n * Pow2(s)) && Normalized(f, s, n)
    ensures Encode(f, r) == s * Pow2(f.mant) + n
  {
    if n < 2 * Pow2(f.mant) {
      EncodeParts(f, r, s, n);
    } else {
      CarryStep(Pow2(f.mant), s, Pow2(s), Pow2(s + 1));
      EncodeParts(f, r, s + 1, Pow2(f.mant));
    }
  }

  lemma CarryStep(m: int, s: int, p: int, p': int)
    requires p' == 2 * p
    ensures m * p' == 2 * m * p && (s + 1) * m + m == s * m + 2 * m
  {
    SplitFactor(m, p', 2, p);
  }

  lemma PatternInRange(f: Format, r: Rational, s: nat, n: nat)
    requires Proper(f) && IsUnits(f, r, n * Pow2(s)) && Normalized(f, s, n)
    ensures s * Pow2(f.mant) >= 0
    ensures BelowPower(r, f.bias + 1) <==> s * Pow2(f.mant) + n < PatternLimit(f)
    ensures s * Pow2(f.mant) + n == 0 <==> n == 0
  {
    MulLeft(Pow2(f.mant), 0, s);
    PatternLimitUnits(f);
    UnitsOfParts(f, s, n);
    UnitsOrder(f, s * Pow2(f.mant) + n, PatternLimit(f));
    BelowPowerUnits(f, r, n * Pow2(s), f.mant + 2 * f.bias);
    assert f.mant + 2 * f.bias - (Scale(f) as int) == f.bias + 1;
    assert 0 * Pow2(f.mant) == 0;
  }

  // The rounded value is the pattern's value, and its range check is the pattern's.
  lemma RoundIsPattern(f: Format, x: Rational)
    requires Proper(f) && x.num > 0
    ensures Pattern(f, x) >= 0
    ensures Round(f, x) ==
      if PositiveFinite(f, Pattern(f, x)) then Success(Pattern(f, x)) else Failure(UnderflowOrOverflow)
  {
    var s, n := Steps(f, x), RoundHalfEven(Scaled(f, x));
    var result := TimesPower(n, RoundingShift(f, x));
    PatternParts(f, x);
    ShiftedInteger(n, s, Scale(f));
    TimesPowerPositive(n, RoundingShift(f, x));
    SwapFactors(result.den, n * Pow2(s));
    PatternInRange(f, result, s, n);
    if n > 0 {
      EncodeCarried(f, result, s, n);
    }
  }

  // ------------------------------------------------------------------ distances

  // |x - v| for v of u units is the gap of u, up to factors that do not depend on u.
  lemma DistanceIsGap(f: Format, x: Rational, v: Rational, b: nat)
    requires Proper(f) && v.num * Pow2(Scale(f)) == Units(f, b) * v.den
    ensures Distance(x, v).num * Pow2(Scale(f)) == v.den * Gap(f, b, InUnits(f, x), x.den)
  {
    GapScale(x.num, x.den, v.num, v.den, Pow2(Scale(f)), Units(f, b));
  }

  lemma GapScale(xn: int, xd: int, vn: int, vd: int, k: int, u: int)
    requires k > 0 && vd > 0 && vn * k == u * vd
    ensures Abs(xn * vd - vn * xd) * k == vd * Abs(u * xd - xn * k)
  {
    SplitFactor(xd, vn * k, vn, k);
    SplitFactor(xd, u * vd, u, vd);
    AbsScale(xn * vd, vn * xd, k, xn * k, u * xd, vd);
  }

  lemma AbsScale(a: int, b: int, k: int, a': int, b': int, d: int)
    requires k > 0 && d > 0 && a * k == d * a' && b * k == d * b'
    ensures Abs(a - b) * k == d * Abs(b' - a')
  {
    MulDifference(a, b, k);
    MulDifference(b, a, k);
    MulDifference(a', b', d);
    MulDifference(b', a', d);
    ScaledLess(a, b, k, a * k, b * k);
    MulLeftCancel(d, a', b');
  }

  lemma MulDifference(a: int, b: int, c: int)
    ensures (a - b) * c == a * c - b * c && c * (a - b) == c * a - c * b
  {
  }

  lemma ComparedDistances(xd: int, k: int, nb: int, vb: int, gb: int, nc: int, vc: int, gc: int)
    requires xd > 0 && k > 0 && vb > 0 && vc > 0 && nb * k == vb * gb && nc * k == vc * gc
    ensures nb * (xd * vc) <= nc * (xd * vb) <==> gb <= gc
    ensures nb * (xd * vc) == nc * (xd * vb) <==> gb == gc
  {
    var w := xd * vb * vc;
    MulPositive(xd, vb);
    MulPositive(xd * vb, vc);
    assert nb * (xd * vc) * k == w * gb by {
      assert nb * (xd * vc) * k == (xd * vc) * (nb * k);
      assert (xd * vc) * (vb * gb) == w * gb;
    }
    assert nc * (xd * vb) * k == w * gc by {
      assert nc * (xd * vb) * k == (xd * vb) * (nc * k);
      assert (xd * vb) * (vc * gc) == w * gc;
    }
    ScaledLess(nb * (xd * vc), nc * (xd * vb), k, w * gb, w * gc);
    ScaledLess(nc * (xd * vb), nb * (xd * vc), k, w * gc, w * gb);
    MulLeftCancel(w, gb, gc);
    MulLeftCancel(w, gc, gb);
  }

  // ------------------------------------------------------------------ thresholds

  // The nearest pattern reaches t exactly beyond the midpoint of t-1 and t, or on it when t is even.
  lemma Threshold(f: Format, p: nat, t: nat, y: int, den: int)
    requires den > 0 && t >= 1 && NearestEven(f, p, y, den)
    ensures var mid := Units(f, t - 1) * den + Units(f, t) * den;
      p >= t <==> mid < 2 * y || (mid == 2 * y && t % 2 == 0)
  {
    UnitsOrder(f, t - 1, t);
    MulLeftStrict(den, Units(f, t - 1), Units(f, t));
    assert Gap(f, p, y, den) <= Gap(f, t, y, den) && Gap(f, p, y, den) <= Gap(f, t - 1, y, den);
    if p < t {
      if Units(f, t) * den <= y {
        GapDown(f, p, t, y, den);
      } else if Units(f, t - 1) * den <= y {
        GapDown(f, p, t - 1, y, den);
        GapUp(f, t, t, y, den);
      }
    } else {
      if y <= Units(f, t - 1) * den {
        GapUp(f, t - 1, p, y, den);
      } else if y <= Units(f, t) * den {
        GapUp(f, t, p, y, den);
        GapDown(f, t - 1, t - 1, y, den);
      }
    }
  }

  lemma MidpointOrder(u: int, a: int, b: int, xn: int, xd: int, yn: int, yd: int)
    requires xd > 0 && yd > 0 && u == a + b && xn * yd <= yn * xd
    ensures a * xd + b * xd < 2 * xn ==> a * yd + b * yd < 2 * yn
    ensures a * xd + b * xd == 2 * xn ==> a * yd + b * yd <= 2 * yn
  {
    assert a * xd + b * xd == u * xd && a * yd + b * yd == u * yd;
    assert u * yd * xd == u * xd * yd;
    ScaledLess(2 * yn, u * yd, xd, 2 * (yn * xd), u * yd * xd);
    ScaledLess(2 * xn, u * xd, yd, 2 * (xn * yd), u * xd * yd);
    ScaledLess(u * xd, 2 * xn, yd, u * xd * yd, 2 * (xn * yd));
    ScaledLess(u * yd, 2 * yn, xd, u * yd * xd, 2 * (yn * xd));
  }

  // ------------------------------------------------------------------ theorems

  // Larger numbers round to larger patterns.
  lemma PatternMonotone(f: Format, x: Rational, y: Rational)
    requires Proper(f) && x.num > 0 && y.num > 0 && AtMost(x, y)
    ensures 0 <= Pattern(f, x) <= Pattern(f, y)
  {
    PatternNearest(f, x);
    PatternNearest(f, y);
    var t := Pattern(f, x);
    if t > 0 {
      Threshold(f, t, t, InUnits(f, x), x.den);
      Threshold(f, Pattern(f, y), t, InUnits(f, y), y.den);
      UnitsOrdered(x.num, x.den, y.num, y.den, Pow2(Scale(f)));
      var a, b := Units(f, t - 1), Units(f, t);
      MidpointOrder(a + b, a, b, InUnits(f, x), x.den, InUnits(f, y), y.den);
    }
  }

  lemma UnitsOrdered(xn: int, xd: int, yn: int, yd: int, k: int)
    requires k > 0 && xn * yd <= yn * xd
    ensures xn * k * yd <= yn * k * xd
  {
    MulLeft(k, xn * yd, yn * xd);
    assert k * (xn * yd) == xn * k * yd && k * (yn * xd) == yn * k * xd;
  }

  lemma RoundMonotone(f: Format, x: Rational, y: Rational)
    requires Proper(f) && AtMost(x, y) && Round(f, x).Success? && Round(f, y).Success?
    ensures Round(f, x).value <= Round(f, y).value
  {
    RoundIsPattern(f, x);
    RoundIsPattern(f, y);
    PatternMonotone(f, x, y);
  }

  // The rounding depends on the number alone, not on the fraction that represents it.
  lemma RoundOfEqual(f: Format, x: Rational, y: Rational)
    requires Proper(f) && Equal(x, y)
    ensures Round(f, x) == Round(f, y)
  {
    SameSign(x.num, x.den, y.num, y.den);
    if x.num > 0 {
      RoundIsPattern(f, x);
      RoundIsPattern(f, y);
      PatternMonotone(f, x, y);
      PatternMonotone(f, y, x);
    }
  }

  lemma SameSign(xn: int, xd: int, yn: int, yd: int)
    requires xd > 0 && yd > 0 && xn * yd == yn * xd
    ensures xn > 0 <==> yn > 0
  {
    ScaledLess(0, xn, yd, 0, xn * yd);
    ScaledLess(0, yn, xd, 0, yn * xd);
  }

  // Rounding a representable number returns its own pattern.
  lemma Retraction(f: Format, bits: nat)
    requires Proper(f) && PositiveFinite(f, bits)
    ensures Decode(f, bits).Success? && Round(f, Decode(f, bits).value) == Success(bits)
  {
    DecodeIsUnits(f, bits);
    var x := Decode(f, bits).value;
    RoundIsPattern(f, x);
    PatternNearest(f, x);
    ExactIsNearest(f, bits, Pattern(f, x), InUnits(f, x), x.den);
  }

  lemma ExactIsNearest(f: Format, bits: nat, p: nat, y: int, den: int)
    requires den > 0 && Units(f, bits) * den == y && NearestEven(f, p, y, den)
    ensures p == bits
  {
    hide Units, Pow2;
    assert Gap(f, p, y, den) <= Gap(f, bits, y, den) == 0;
    SameProduct(den, Units(f, p), Units(f, bits), y);
    MulLeftCancel(den, Units(f, p), Units(f, bits));
    UnitsOrder(f, p, bits);
    UnitsOrder(f, bits, p);
  }

  lemma SameProduct(den: int, u: int, v: int, y: int)
    requires u * den == y && v * den == y
    ensures den * u == den * v
  {
  }

  // Least number not rounded to zero (exclusive): half the least subnormal.
  function UnderflowBound(f: Format): Rational
    requires Proper(f)
  {
    Fraction(1, Pow2(Scale(f) + 1))
  }

  // Halfway between the greatest finite value and the next power of two: for BINARY64, 2^1024 - 2^970.
  function OverflowBound(f: Format): Rational
    requires Proper(f)
  {
    TimesPower(Pow2(f.mant + 2) - 1, f.bias - f.mant - 1)
  }

  lemma LastMidpoint(f: Format)
    requires Proper(f)
    ensures PatternLimit(f) >= 1 && PatternLimit(f) % 2 == 0
    ensures Units(f, PatternLimit(f) - 1) + Units(f, PatternLimit(f))
      == 2 * ((Pow2(f.mant + 2) - 1) * Pow2(2 * f.bias - 2))
  {
    hide Pow2, Units, PatternLimit;
    var m, b := Pow2(f.mant), 2 * f.bias;
    EvenPart(f, b + 1, 0);
    UnitsOfParts(f, b - 1, 2 * m - 1);
    UnitsOfParts(f, b - 1, 2 * m);
    Pow2Twice(f.mant);
    Pow2Twice(f.mant + 1);
    Pow2Twice(b - 2);
    MidpointValue(m, b, Pow2(b - 1), Pow2(b - 2), Pow2(f.mant + 2));
    LimitIs(f);
  }

  lemma LimitIs(f: Format)
    ensures PatternLimit(f) == (2 * f.bias + 1) * Pow2(f.mant)
  {
  }

  lemma MidpointValue(m: int, b: int, p: int, h: int, m4: int)
    requires m > 0 && b >= 1 && p == 2 * h && m4 == 4 * m
    ensures (b + 1) * m >= 1 && (b + 1) * m == (b - 1) * m + 2 * m
    ensures (2 * m - 1) * p + 2 * m * p == 2 * ((m4 - 1) * h)
  {
    MulLeft(m, 0, b - 1);
    assert (2 * m - 1) * p + 2 * m * p == (4 * m - 1) * p;
    assert (4 * m - 1) * (2 * h) == 2 * ((4 * m - 1) * h);
  }

  // Rounding succeeds exactly for numbers above half the least subnormal and below the overflow midpoint.
  lemma AcceptanceRange(f: Format, x: Rational)
    requires Proper(f)
    ensures Round(f, x).Success? <==> Less(UnderflowBound(f), x) && Less(x, OverflowBound(f))
  {
    hide Pow2, Units, PatternLimit, Round, Pattern, InUnits, TimesPower;
    if x.num <= 0 {
      NonPositiveRefused(f, x);
    } else {
      var k, p, y, d := Pow2(Scale(f)), Pattern(f, x), InUnits(f, x), x.den;
      RoundIsPattern(f, x);
      PatternNearest(f, x);
      FirstPatterns(f);
      Threshold(f, p, 1, y, d);
      LastMidpoint(f);
      Threshold(f, p, PatternLimit(f), y, d);
      UnderflowInUnits(f, x);
      var n := Pow2(f.mant + 2) - 1;
      ShiftedInteger(n, 2 * f.bias - 2, Scale(f));
      var bound := OverflowBound(f);
      assert 2 * f.bias - 2 - (Scale(f) as int) == f.bias - f.mant - 1;
      InUnitsIs(f, x);
      BoundInUnits(bound.num, bound.den, n * Pow2(2 * f.bias - 2), k, x.num, d,
        Units(f, PatternLimit(f) - 1), Units(f, PatternLimit(f)));
    }
  }

  lemma NonPositiveRefused(f: Format, x: Rational)
    requires Proper(f) && x.num <= 0
    ensures Round(f, x).Failure? && !Less(UnderflowBound(f), x)
  {
    hide Pow2;
    MulLeft(Pow2(Scale(f) + 1), x.num, 0);
  }

  lemma FirstPatterns(f: Format)
    ensures Units(f, 0) == 0 && Units(f, 1) == 1
  {
  }

  lemma InUnitsIs(f: Format, x: Rational)
    requires Proper(f) && x.num > 0
    ensures InUnits(f, x) == x.num * Pow2(Scale(f))
  {
  }

  lemma UnderflowInUnits(f: Format, x: Rational)
    requires Proper(f) && x.num > 0
    ensures Less(UnderflowBound(f), x) <==> x.den < 2 * InUnits(f, x)
  {
    hide Pow2;
    Pow2Twice(Scale(f));
    SplitFactor(x.num, Pow2(Scale(f) + 1), 2, Pow2(Scale(f)));
  }

  lemma BoundInUnits(bn: int, bd: int, v: int, k: int, xn: int, xd: int, u: int, u': int)
    requires bd > 0 && k > 0 && xd > 0 && bn * k == v * bd && u + u' == 2 * v
    ensures xn * bd < bn * xd <==> 2 * (xn * k) < u * xd + u' * xd
  {
    assert u * xd + u' * xd == 2 * (v * xd) by {
      assert (u + u') * xd == u * xd + u' * xd;
    }
    assert xn * bd * k == xn * k * bd;
    assert bn * xd * k == v * xd * bd by {
      SplitFactor(xd, bn * k, bn, k);
      SplitFactor(xd, v * bd, v, bd);
    }
    ScaledLess(xn * bd, bn * xd, k, xn * k * bd, v * xd * bd);
    ScaledLess(xn * k, v * xd, bd, xn * k * bd, v * xd * bd);
  }

  // v is no nearer to x than u is.
  predicate AsNear(x: Rational, u: Rational, v: Rational) {
    AtMost(Distance(x, u), Distance(x, v))
  }

  predicate EquallyNear(x: Rational, u: Rational, v: Rational) {
    Equal(Distance(x, u), Distance(x, v))
  }

  // bits decodes to a nearest positive finite value, and is even when another pattern is equally near
  // (roundTiesToEven, section 4.3.1 of IEEE 754-2019).
  ghost predicate CorrectlyRounded(f: Format, x: Rational, bits: int)
    requires Proper(f)
  {
    && 0 <= bits
    && PositiveFinite(f, bits)
    && Decode(f, bits).Success?
    && forall c: nat :: PositiveFinite(f, c) ==>
      && Decode(f, c).Success?
      && AsNear(x, Decode(f, bits).value, Decode(f, c).value)
      && (c != bits && EquallyNear(x, Decode(f, bits).value, Decode(f, c).value) ==> bits % 2 == 0)
  }

  lemma CorrectRounding(f: Format, x: Rational)
    requires Proper(f) && Round(f, x).Success?
    ensures CorrectlyRounded(f, x, Round(f, x).value)
  {
    RoundIsPattern(f, x);
    PatternNearest(f, x);
    var bits := Pattern(f, x);
    DecodeIsUnits(f, bits);
    forall c: nat | PositiveFinite(f, c)
      ensures Decode(f, c).Success? && AsNear(x, Decode(f, bits).value, Decode(f, c).value)
      ensures c != bits && EquallyNear(x, Decode(f, bits).value, Decode(f, c).value) ==> bits % 2 == 0
    {
      DecodeIsUnits(f, c);
      NearerPattern(f, x, bits, Decode(f, bits).value, c, Decode(f, c).value);
    }
  }

  lemma NearerPattern(f: Format, x: Rational, b: nat, u: Rational, c: nat, v: Rational)
    requires Proper(f) && u.num * Pow2(Scale(f)) == Units(f, b) * u.den && v.num * Pow2(Scale(f)) == Units(f, c) * v.den
    ensures AsNear(x, u, v) <==> Gap(f, b, InUnits(f, x), x.den) <= Gap(f, c, InUnits(f, x), x.den)
    ensures EquallyNear(x, u, v) <==> Gap(f, b, InUnits(f, x), x.den) == Gap(f, c, InUnits(f, x), x.den)
  {
    var y := InUnits(f, x);
    DistanceIsGap(f, x, u, b);
    DistanceIsGap(f, x, v, c);
    ComparedDistances(x.den, Pow2(Scale(f)), Distance(x, u).num, u.den, Gap(f, b, y, x.den),
      Distance(x, v).num, v.den, Gap(f, c, y, x.den));
  }

  // ------------------------------------------------------------------ the program's format

  // For binary64 the accepted numbers are those above 2^-1075 and below 2^1024 - 2^970.
  lemma AcceptanceBinary64(x: Rational)
    ensures Proper(BINARY64)
    ensures Round(BINARY64, x).Success? <==> x.den < x.num * Pow2(1075) && x.num < x.den * (Pow2(1024) - Pow2(970))
  {
    hide Pow2, Round;
    AcceptanceRange(BINARY64, x);
    Pow2Add(54, 970);
    assert (Pow2(54) - 1) * Pow2(970) == Pow2(1024) - Pow2(970);
  }
}
