// Canonical decimal amounts: at most fourteen digits, and at most twenty-four places without a trailing zero.
module Decimal {
  import opened Wrappers
  import opened Arithmetic
  import opened Digits

  datatype Error = Noncanonical | Negative

  const PLACES: nat := 24
  const UNIT: nat := 1_000_000_000_000_000_000_000_000
  const LIMIT: nat := 100_000_000_000_000

  // 0|[1-9][0-9]{0,13}
  predicate Whole(w: string) {
    w == "0" || (1 <= |w| <= 14 && AllDigits(w) && w[0] != '0')
  }

  // [0-9]{0,23}[1-9]
  predicate Places(f: string) {
    1 <= |f| <= 24 && AllDigits(f) && f[|f| - 1] != '0'
  }

  // The language of canonical decimals.
  ghost predicate Canonical(s: string) {
    Whole(s) || exists w: string, f: string :: Joined(s, w, f)
  }

  ghost predicate Joined(s: string, w: string, f: string) {
    s == w + "." + f && Whole(w) && Places(f)
  }

  // Position of the first point, or the length.
  function Point(s: string): (k: nat)
    ensures k <= |s| && forall i :: 0 <= i < k ==> s[i] != '.'
    ensures k < |s| ==> s[k] == '.'
  {
    if s == "" || s[0] == '.' then 0 else 1 + Point(s[1..])
  }

  function DigitCount(s: string): nat {
    if s == "" then 0 else DigitCount(s[1..]) + if s[0] == '.' then 0 else 1
  }

  // The number a canonical string names.
  function DecimalOf(s: string): Result<real, Error> {
    var k := Point(s);
    if !Whole(s[..k]) || (k < |s| && !Places(s[k + 1..])) || DigitCount(s) > 38 then Failure(Noncanonical)
    else if k == |s| then Success(Number(s) as real)
    else Success(Number(s[..k]) as real + Number(s[k + 1..]) as real / Pow(10, |s[k + 1..]|) as real)
  }

  function PrintUnits(n: nat): string {
    Print(n / UNIT) + if n % UNIT != 0 then "." + Strip(Padded(PLACES, n % UNIT)) else ""
  }

  // x cut off after twenty-four places, in canonical form.
  function Amount(x: real): Result<string, Error> {
    if x < 0.0 then Failure(Negative)
    else
      var s := PrintUnits((x * UNIT as real).Floor);
      match DecimalOf(s)
      case Failure(e) => Failure(e)
      case Success(_) => Success(s)
  }

  // ------------------------------------------------------------------ the parser accepts exactly the language

  lemma {:induction false} PointAt(s: string, k: nat)
    requires k <= |s| && (k < |s| ==> s[k] == '.') && forall i :: 0 <= i < k ==> s[i] != '.'
    ensures Point(s) == k
  {
    if k > 0 {
      PointAt(s[1..], k - 1);
    }
  }

  lemma {:induction false} DigitCountAtMost(s: string)
    ensures DigitCount(s) <= |s|
    ensures (exists i :: 0 <= i < |s| && s[i] == '.') ==> DigitCount(s) < |s|
  {
    if s != "" {
      DigitCountAtMost(s[1..]);
      if i :| 0 <= i < |s| && s[i] == '.' && i > 0 {
        assert s[1..][i - 1] == '.';
      }
    }
  }

  lemma WholeHasNoPoint(w: string)
    requires Whole(w)
    ensures AllDigits(w) && forall i :: 0 <= i < |w| ==> w[i] != '.'
  {
    if w == "0" {
      assert |w| == 1;
    }
  }

  // Units of the last place.
  function UnitsOf(w: string, f: string): nat
    requires AllDigits(w) && AllDigits(f) && |f| <= PLACES
  {
    Number(w) * UNIT + Number(f) * Pow(10, PLACES - |f|)
  }

  lemma UnitIsPower()
    ensures Pow(10, PLACES) == UNIT && Pow(10, 14) == LIMIT && Pow(10, 38) == LIMIT * UNIT
  {
    PowAdd(12, 12);
    PowAdd(14, 24);
    assert Pow(10, 12) == 1_000_000_000_000;
    assert Pow(10, 14) == LIMIT;
  }

  lemma {:induction false} PowAdd(a: nat, b: nat)
    ensures Pow(10, a + b) == Pow(10, a) * Pow(10, b)
  {
    if a > 0 {
      PowAdd(a - 1, b);
      SplitFactor(Pow(10, b), Pow(10, a), 10, Pow(10, a - 1));
    }
  }

  lemma QuotientInUnits(w: real, n: real, p: real, q: real, u: real)
    requires p > 0.0 && u == p * q
    ensures (w + n / p) * u == w * u + n * q
  {
    assert (n / p) * u == ((n / p) * p) * q;
    assert (n / p) * p == n;
  }

  lemma JoinedValue(s: string, w: string, f: string)
    requires Joined(s, w, f)
    ensures AllDigits(w)
    ensures DecimalOf(s) == Success(Number(w) as real + Number(f) as real / Pow(10, |f|) as real)
  {
    hide Number, Pow, Point, DigitCount;
    WholeHasNoPoint(w);
    assert s[|w|] == '.';
    assert forall i :: 0 <= i < |w| ==> s[i] == w[i];
    PointAt(s, |w|);
    assert s[..|w|] == w && s[|w| + 1..] == f;
    DigitCountAtMost(s);
  }

  lemma JoinedUnits(s: string, w: string, f: string)
    requires Joined(s, w, f)
    ensures AllDigits(w) && DecimalOf(s).Success? && DecimalOf(s).value * UNIT as real == UnitsOf(w, f) as real
  {
    hide DecimalOf, Joined, Number, Pow;
    assert Places(f) by {
      JoinedParts(s, w, f);
    }
    JoinedValue(s, w, f);
    var k := PLACES - |f|;
    PowAdd(|f|, k);
    UnitIsPower();
    ToReal(Pow(10, |f|), Pow(10, k));
    ToReal(Number(w), UNIT);
    ToReal(Number(f), Pow(10, k));
    QuotientInUnits(Number(w) as real, Number(f) as real, Pow(10, |f|) as real, Pow(10, k) as real, UNIT as real);
  }

  lemma JoinedParts(s: string, w: string, f: string)
    requires Joined(s, w, f)
    ensures Whole(w) && Places(f)
  {
  }

  lemma ToReal(a: int, b: int)
    ensures (a * b) as real == a as real * b as real
  {
  }

  lemma WholeUnits(s: string)
    requires Whole(s)
    ensures AllDigits(s) && DecimalOf(s) == Success(Number(s) as real)
  {
    WholeHasNoPoint(s);
    PointAt(s, |s|);
    assert s[..|s|] == s;
    DigitCountAtMost(s);
  }

  lemma DecimalAccepts(s: string)
    ensures DecimalOf(s).Success? <==> Canonical(s)
  {
    var k := Point(s);
    if DecimalOf(s).Success? {
      if k < |s| {
        assert s == s[..k] + "." + s[k + 1..];
        assert Joined(s, s[..k], s[k + 1..]);
      } else {
        assert s[..k] == s;
      }
    }
    if Whole(s) {
      WholeUnits(s);
    } else if w: string, f: string :| Joined(s, w, f) {
      JoinedUnits(s, w, f);
    }
  }

  // ------------------------------------------------------------------ printing then reading

  lemma WholeOfPrint(n: nat)
    ensures Whole(Print(n)) <==> n < LIMIT
  {
    NumberOfPrint(n);
    UnitIsPower();
    var w := Print(n);
    if n >= LIMIT {
      NumberBelow(w);
      if |w| <= 14 {
        PowMonotone(|w|, 14);
      }
    } else if n > 0 {
      NumberAtLeast(w);
      if |w| > 14 {
        PowMonotone(14, |w| - 1);
      }
    }
  }

  lemma {:induction false} PowMonotone(a: nat, b: nat)
    requires a <= b
    ensures Pow(10, a) <= Pow(10, b)
  {
    if a < b {
      PowMonotone(a, b - 1);
    }
  }

  lemma PlacesOfUnits(r: nat)
    requires 0 < r < UNIT
    ensures var f := Strip(Padded(PLACES, r)); Places(f) && Number(f) * Pow(10, PLACES - |f|) == r
  {
    UnitIsPower();
    var p := Padded(PLACES, r);
    var f := Strip(p);
    NumberOfPadded(PLACES, r);
    StripZeros(p);
    NumberOfZeros(f, PLACES - |f|);
  }

  lemma PrintedUnits(n: nat)
    requires n < LIMIT * UNIT
    ensures Canonical(PrintUnits(n)) && DecimalOf(PrintUnits(n)).Success?
    ensures DecimalOf(PrintUnits(n)).value * UNIT as real == n as real
  {
    var w, r := Print(n / UNIT), n % UNIT;
    WholeOfPrint(n / UNIT);
    NumberOfPrint(n / UNIT);
    if r != 0 {
      PlacesOfUnits(r);
      var f := Strip(Padded(PLACES, r));
      assert Joined(PrintUnits(n), w, f);
      JoinedUnits(PrintUnits(n), w, f);
    } else {
      assert PrintUnits(n) == w;
      WholeUnits(w);
      ToReal(n / UNIT, UNIT);
    }
  }

  lemma TooManyUnits(n: nat)
    requires n >= LIMIT * UNIT
    ensures DecimalOf(PrintUnits(n)).Failure?
  {
    var s, w := PrintUnits(n), Print(n / UNIT);
    WholeOfPrint(n / UNIT);
    PointAt(s, |w|);
    assert s[..|w|] == w;
  }

  lemma FloorScaled(x: real)
    requires x >= 0.0
    ensures var n := (x * UNIT as real).Floor; n >= 0 && (n < LIMIT * UNIT <==> x < LIMIT as real)
  {
    ToReal(LIMIT, UNIT);
    if x < LIMIT as real {
      assert x * UNIT as real < LIMIT as real * UNIT as real;
    } else {
      assert x * UNIT as real >= LIMIT as real * UNIT as real;
    }
  }

  // Printing succeeds exactly below 10^14, and what it prints is x cut off after twenty-four places.
  lemma AmountTruncates(x: real)
    ensures Amount(x).Success? <==> 0.0 <= x < LIMIT as real
    ensures Amount(x).Success? ==>
      && Canonical(Amount(x).value) && DecimalOf(Amount(x).value).Success?
      && DecimalOf(Amount(x).value).value * UNIT as real == (x * UNIT as real).Floor as real
  {
    if x >= 0.0 {
      FloorScaled(x);
      var n := (x * UNIT as real).Floor;
      if n < LIMIT * UNIT {
        PrintedUnits(n);
      } else {
        TooManyUnits(n);
      }
    }
  }

  // The printed amount is the largest multiple of 10^-24 that is at most x.
  lemma AmountBounds(x: real)
    requires Amount(x).Success?
    ensures DecimalOf(Amount(x).value).Success?
    ensures var v := DecimalOf(Amount(x).value).value; v <= x < v + 1.0 / UNIT as real
  {
    hide Amount, DecimalOf;
    AmountTruncates(x);
    UnitsBracket(DecimalOf(Amount(x).value).value, x, UNIT as real);
  }

  lemma UnitsBracket(v: real, x: real, u: real)
    requires u > 0.0 && v * u <= x * u < v * u + 1.0
    ensures v <= x < v + 1.0 / u
  {
    assert (v + 1.0 / u) * u == v * u + 1.0;
    ScaleCancels(x, v, u);
    ScaleCancels(x, v + 1.0 / u, u);
  }

  // ------------------------------------------------------------------ reading then printing

  lemma UnitsSplit(w: string, f: string)
    requires Whole(w) && Places(f)
    ensures AllDigits(w)
    ensures var n := UnitsOf(w, f); n / UNIT == Number(w) && n % UNIT == Number(f) * Pow(10, PLACES - |f|)
    ensures var r := Number(f) * Pow(10, PLACES - |f|); 0 < r < UNIT && Padded(PLACES, r) == f + Zeros(PLACES - |f|)
  {
    WholeHasNoPoint(w);
    UnitIsPower();
    var k := PLACES - |f|;
    var p, r := f + Zeros(k), Number(f) * Pow(10, k);
    NumberOfZeros(f, k);
    NumberBelow(p);
    PaddedOfNumber(p);
    PlacesPositive(f);
    MulPositive(Number(f), Pow(10, k));
    QuotientUnique(UnitsOf(w, f), UNIT, Number(w));
  }

  lemma PlacesPositive(f: string)
    requires Places(f)
    ensures Number(f) > 0
  {
    assert Value(f[|f| - 1]) > 0;
  }

  lemma WholePrints(w: string)
    requires Whole(w)
    ensures AllDigits(w) && Print(Number(w)) == w && Number(w) < LIMIT
  {
    WholeHasNoPoint(w);
    PrintOfNumber(w);
    WholeOfPrint(Number(w));
  }

  lemma WholePrinted(s: string, n: nat)
    requires Whole(s) && AllDigits(s) && n == Number(s) * UNIT
    ensures PrintUnits(n) == s && n < LIMIT * UNIT
  {
    WholePrints(s);
    QuotientUnique(n, UNIT, Number(s));
  }

  lemma JoinedPrinted(s: string, w: string, f: string, n: nat)
    requires Joined(s, w, f) && AllDigits(w) && n == UnitsOf(w, f)
    ensures PrintUnits(n) == s && n < LIMIT * UNIT
  {
    hide Number, Pow, Strip, Padded, Print;
    UnitsSplit(w, f);
    WholePrints(w);
    StripPadded(f, PLACES - |f|);
    assert n == n / UNIT * UNIT + n % UNIT;
  }

  lemma CanonicalPrints(s: string, n: nat)
    requires DecimalOf(s).Success? && DecimalOf(s).value * UNIT as real == n as real
    ensures PrintUnits(n) == s && n < LIMIT * UNIT
  {
    hide DecimalOf, Joined, Number, Pow, PrintUnits;
    DecimalAccepts(s);
    if Whole(s) {
      WholeUnits(s);
      ToReal(Number(s), UNIT);
      WholePrinted(s, n);
    } else {
      var w: string, f: string :| Joined(s, w, f);
      JoinedUnits(s, w, f);
      JoinedParts(s, w, f);
      JoinedPrinted(s, w, f, n);
    }
  }

  // A canonical string is what printing the number it names gives, so a number has one canonical string.
  lemma DecimalRoundTrip(s: string)
    requires DecimalOf(s).Success?
    ensures Amount(DecimalOf(s).value) == Success(s)
    ensures 0.0 <= DecimalOf(s).value < LIMIT as real
  {
    var v := DecimalOf(s).value;
    DecimalIsUnits(s);
    var n := (v * UNIT as real).Floor;
    CanonicalPrints(s, n);
    ScaleCancels(v, 0.0, UNIT as real);
    FloorScaled(v);
  }

  lemma DecimalIsUnits(s: string)
    requires DecimalOf(s).Success?
    ensures DecimalOf(s).value * UNIT as real == (DecimalOf(s).value * UNIT as real).Floor as real >= 0.0
  {
    DecimalAccepts(s);
    if Whole(s) {
      WholeUnits(s);
      ToReal(Number(s), UNIT);
    } else {
      var w: string, f: string :| Joined(s, w, f);
      JoinedUnits(s, w, f);
    }
  }

  // The check on the number of digits never refuses what the pattern accepts.
  lemma DigitCountRedundant(s: string)
    requires Canonical(s)
    ensures DigitCount(s) <= 38
  {
    DecimalAccepts(s);
  }

  // Canonical decimals are ASCII.
  lemma DecimalAscii(s: string)
    requires DecimalOf(s).Success?
    ensures forall i :: 0 <= i < |s| ==> s[i] < 128 as char
  {
    hide Number, Pow, DigitCount;
    var k := Point(s);
    forall i | 0 <= i < |s|
      ensures s[i] < 128 as char
    {
      if i < k {
        WholeHasNoPoint(s[..k]);
        assert s[i] == s[..k][i];
        assert IsDigit(s[..k][i]);
      } else if i > k {
        assert s[i] == s[k + 1..][i - k - 1];
      }
    }
  }
}
