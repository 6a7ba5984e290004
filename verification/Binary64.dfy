// Decoding and correctly rounded encoding of binary floating point by integer arithmetic only.
//
// The algorithms are stated for a binary interchange format with `mant` stored significand bits and exponent
// bias `bias`; the program uses BINARY64 = Format(52, 1023) (section 3.4 of IEEE 754-2019). A rational number is
// a numerator and a positive denominator, as in the program; nothing requires lowest terms.
module Binary64 {
  import opened Arithmetic
  import opened Wrappers

  datatype Fraction = Fraction(num: int, den: int)

  type Rational = x: Fraction | x.den > 0 witness Fraction(0, 1)

  datatype Format = Format(mant: nat, bias: nat)

  const BINARY64 := Format(52, 1023)

  ghost predicate Proper(f: Format) {
    f.mant >= 1 && f.bias >= 1
  }

  datatype Error = NotPositiveFinite | ZeroDifficulty | NonPositive | UnderflowOrOverflow

  // ------------------------------------------------------------------ rationals and powers of two

  // x < 2^e
  predicate BelowPower(x: Rational, e: int) {
    if e >= 0 then x.num < x.den * Pow2(e) else x.num * Pow2(-e) < x.den
  }

  // n * 2^e
  function TimesPower(n: int, e: int): Rational {
    if e >= 0 then Fraction(n * Pow2(e), 1) else Fraction(n, Pow2(-e))
  }

  // x / 2^e
  function OverPower(x: Rational, e: int): Rational {
    if e >= 0 then
      MulPositive(x.den, Pow2(e));
      Fraction(x.num, x.den * Pow2(e))
    else
      Fraction(x.num * Pow2(-e), x.den)
  }

  // The integer part of a nonnegative rational.
  function Truncate(x: Rational): int {
    x.num / x.den
  }

  predicate Equal(x: Rational, y: Rational) {
    x.num * y.den == y.num * x.den
  }

  // ------------------------------------------------------------------ the format

  // Unit in which every finite value of the format is an integer: 2^-Scale(f) is the least subnormal.
  function Scale(f: Format): nat
    requires Proper(f)
  {
    f.bias - 1 + f.mant
  }

  // One past the pattern of the greatest finite value.
  function PatternLimit(f: Format): nat {
    (2 * f.bias + 1) * Pow2(f.mant)
  }

  predicate PositiveFinite(f: Format, bits: nat) {
    0 < bits < PatternLimit(f)
  }

  // Value of a positive finite pattern.
  function Decode(f: Format, bits: nat): Result<Rational, Error>
    requires Proper(f)
  {
    var exponent := bits / Pow2(f.mant);
    if exponent >= 2 * f.bias + 1 then Failure(NotPositiveFinite)
    else
      var fraction := bits % Pow2(f.mant);
      var significand := if exponent != 0 then fraction + Pow2(f.mant) else fraction;
      var shift := if exponent != 0 then exponent - f.bias - f.mant else 1 - f.bias - f.mant;
      var value := TimesPower(significand, shift);
      if value.num == 0 then Failure(ZeroDifficulty) else Success(value)
  }

  // Exponent of the leading bit of a positive rational: bit lengths, then one correction.
  function LeadingExponent(x: Rational): int
    requires x.num > 0
  {
    var e := BitLength(x.num) - BitLength(x.den);
    if BelowPower(x, e) then e - 1 else e
  }

  // Round half to even of a nonnegative rational to an integer.
  function RoundHalfEven(x: Rational): int {
    var n, r := x.num / x.den, x.num % x.den;
    if 2 * r > x.den || (2 * r == x.den && n % 2 == 1) then n + 1 else n
  }

  function RoundingShift(f: Format, x: Rational): int
    requires Proper(f) && x.num > 0
  {
    Max(LeadingExponent(x) - f.mant, 1 - f.bias - f.mant)
  }

  // Pattern of a rational number that the format represents exactly.
  function Encode(f: Format, result: Rational): int
    requires Proper(f) && result.num > 0
  {
    if BelowPower(result, 1 - f.bias) then Truncate(OverPower(result, 1 - f.bias - f.mant))
    else
      var e := LeadingExponent(result);
      var sig := Truncate(OverPower(result, e - f.mant));
      (e + f.bias) * Pow2(f.mant) + (sig - Pow2(f.mant))
  }

  function Round(f: Format, x: Rational): Result<int, Error>
    requires Proper(f)
  {
    if x.num <= 0 then Failure(NonPositive)
    else
      var shift := RoundingShift(f, x);
      var n := RoundHalfEven(OverPower(x, shift));
      var result := TimesPower(n, shift);
      if result.num <= 0 || !BelowPower(result, f.bias + 1) then Failure(UnderflowOrOverflow)
      else Success(Encode(f, result))
  }
}
