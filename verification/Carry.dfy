// Whether a recipient's credits can come from truncating to twelve places and carrying the remainder.
module Carry {
  import opened Wrappers
  import opened Arithmetic

  // One credit: the exact amount, and what was paid. A recipient's credits are in order.
  datatype Credit = Credit(actual: real, paid: real)

  const PLACES12: real := 1000000000000.0
  const STEP: real := 1.0 / 1000000000000.0

  function Floor12(x: real): real {
    (x * PLACES12).Floor as real / PLACES12
  }

  function Ceiling12(x: real): real {
    if Floor12(x) == x then x else Floor12(x) + STEP
  }

  // A single payment within the bounds that rounding with a carried remainder allows.
  predicate PaidPlausible(c: Credit) {
    c.paid == Floor12(c.actual) || c.paid == Ceiling12(c.actual)
  }

  // What the credits of a history still owed, or had paid ahead, in total.
  function Prefix(rows: seq<Credit>): real {
    if rows == [] then 0.0 else Prefix(rows[..|rows| - 1]) + (rows[|rows| - 1].actual - rows[|rows| - 1].paid)
  }

  predicate InRange(x: real) {
    0.0 <= x < STEP
  }

  // From this opening remainder, every remainder along the history is in range.
  ghost predicate Carries(rows: seq<Credit>, opening: real) {
    forall k {:trigger rows[..k]} :: 0 <= k <= |rows| ==> InRange(opening + Prefix(rows[..k]))
  }

  ghost predicate Feasible(rows: seq<Credit>) {
    exists opening: real :: Carries(rows, opening)
  }

  lemma CarriesSnoc(rows: seq<Credit>, n: nat, opening: real)
    requires n < |rows|
    ensures Carries(rows[..n + 1], opening) <==>
      Carries(rows[..n], opening) && InRange(opening + Prefix(rows[..n + 1]))
  {
    var a, b := rows[..n], rows[..n + 1];
    assert b[..n + 1] == b;
    forall k | 0 <= k <= n
      ensures a[..k] == b[..k]
    {
    }
    assert forall k :: 0 <= k <= n ==> b[..k] == a[..k];
  }

  lemma PrefixSnoc(rows: seq<Credit>, n: nat)
    requires n < |rows|
    ensures Prefix(rows[..n + 1]) == Prefix(rows[..n]) + (rows[n].actual - rows[n].paid)
  {
    assert rows[..n + 1][..n] == rows[..n];
  }

  // The openings that carry a history are those from lower up to upper.
  ghost predicate OpeningRange(rows: seq<Credit>, lower: real, upper: real) {
    forall opening: real {:trigger Carries(rows, opening)} :: Carries(rows, opening) <==> lower <= opening < upper
  }

  lemma EmptyRange(rows: seq<Credit>)
    requires rows == []
    ensures OpeningRange(rows, 0.0, STEP)
  {
    forall opening: real
      ensures Carries(rows, opening) <==> 0.0 <= opening < STEP
    {
      assert rows[..0] == [];
      assert Carries(rows, opening) <==> InRange(opening + Prefix(rows[..0]));
    }
  }

  function Larger(a: real, b: real): real {
    if a < b then b else a
  }

  function Smaller(a: real, b: real): real {
    if a < b then a else b
  }

  lemma RangeStep(rows: seq<Credit>, n: nat, lower: real, upper: real)
    requires n < |rows| && OpeningRange(rows[..n], lower, upper)
    ensures var prefix := Prefix(rows[..n + 1]);
      OpeningRange(rows[..n + 1], Larger(lower, -prefix), Smaller(upper, STEP - prefix))
  {
    var longer := rows[..n + 1];
    var prefix := Prefix(longer);
    forall opening: real
      ensures Carries(longer, opening) <==> Larger(lower, -prefix) <= opening < Smaller(upper, STEP - prefix)
    {
      CarriesSnoc(rows, n, opening);
      assert Carries(rows[..n], opening) <==> lower <= opening < upper;
    }
  }

  // Intersects the ranges of possible opening remainders: reports a history exactly when no opening remainder is
  // possible, and then at the first credit that rules out the last one.
  method FirstInconsistent(rows: seq<Credit>) returns (r: Option<nat>)
    ensures r.None? <==> Feasible(rows)
    ensures r.Some? ==> r.value < |rows| && Feasible(rows[..r.value]) && !Feasible(rows[..r.value + 1])
  {
    hide Carries;
    var prefix, lower, upper := 0.0, 0.0, STEP;
    EmptyRange(rows[..0]);
    for n := 0 to |rows|
      invariant prefix == Prefix(rows[..n]) && lower < upper && OpeningRange(rows[..n], lower, upper)
    {
      PrefixSnoc(rows, n);
      RangeStep(rows, n, lower, upper);
      assert Carries(rows[..n], lower);
      prefix := prefix + (rows[n].actual - rows[n].paid);
      lower := Larger(lower, -prefix);
      upper := Smaller(upper, STEP - prefix);
      if lower >= upper {
        StillInfeasible(rows, n + 1);
        return Some(n);
      }
    }
    assert rows[..|rows|] == rows;
    assert Carries(rows, lower);
    r := None;
  }

  lemma CarriesPrefix(rows: seq<Credit>, n: nat, opening: real)
    requires n <= |rows| && Carries(rows, opening)
    ensures Carries(rows[..n], opening)
  {
    forall k | 0 <= k <= n
      ensures InRange(opening + Prefix(rows[..n][..k]))
    {
      assert rows[..n][..k] == rows[..k];
    }
  }

  // What no opening remainder explains stays unexplained.
  lemma StillInfeasible(rows: seq<Credit>, n: nat)
    requires n <= |rows| && !Feasible(rows[..n])
    ensures !Feasible(rows)
  {
    forall opening: real
      ensures !Carries(rows, opening)
    {
      if Carries(rows, opening) {
        CarriesPrefix(rows, n, opening);
      }
    }
  }

  // ------------------------------------------------------------------ honest histories

  // Pays what is due cut off to twelve places, and carries the rest.
  function PayOut(carry: real, actual: real): real {
    Floor12(carry + actual)
  }

  // The history of a truncate-and-carry payer.
  ghost predicate Honest(rows: seq<Credit>, opening: real) {
    && InRange(opening)
    && forall n :: 0 <= n < |rows| ==> rows[n].paid == PayOut(opening + Prefix(rows[..n]), rows[n].actual)
  }

  lemma FloorRemainder(x: real)
    ensures InRange(x - Floor12(x))
  {
    var y := x * PLACES12;
    assert y.Floor as real <= y < y.Floor as real + 1.0;
    DivideBack(x, y, y.Floor as real);
  }

  lemma DivideBack(x: real, y: real, f: real)
    requires y == x * PLACES12 && f <= y < f + 1.0
    ensures 0.0 <= x - f / PLACES12 < STEP
  {
  }

  // The remainders of an honest payer stay in range.
  lemma {:induction false} HonestCarries(rows: seq<Credit>, opening: real)
    requires Honest(rows, opening)
    ensures Carries(rows, opening)
  {
    forall k | 0 <= k <= |rows|
      ensures InRange(opening + Prefix(rows[..k]))
    {
      if k > 0 {
        PrefixSnoc(rows, k - 1);
        FloorRemainder(opening + Prefix(rows[..k - 1]) + rows[k - 1].actual);
      }
    }
  }

  lemma FloorOfSum(carry: real, actual: real)
    requires InRange(carry)
    ensures PaidPlausible(Credit(actual, PayOut(carry, actual)))
  {
    var a, c := actual * PLACES12, carry * PLACES12;
    assert 0.0 <= c < 1.0;
    assert (carry + actual) * PLACES12 == a + c;
    var f, g := a.Floor, (a + c).Floor;
    assert g == f || g == f + 1;
    assert g == f + 1 ==> a > f as real;
    assert (f + 1) as real / PLACES12 == f as real / PLACES12 + STEP;
    assert g == f + 1 ==> f as real / PLACES12 != actual;
  }

  // A payer that truncates and carries is never reported: not for its remainders, and not for any single payment.
  lemma HonestNeverReported(rows: seq<Credit>, opening: real)
    requires Honest(rows, opening)
    ensures Feasible(rows)
    ensures forall n :: 0 <= n < |rows| ==> PaidPlausible(rows[n])
  {
    HonestCarries(rows, opening);
    forall n | 0 <= n < |rows|
      ensures PaidPlausible(rows[n])
    {
      assert InRange(opening + Prefix(rows[..n]));
      FloorOfSum(opening + Prefix(rows[..n]), rows[n].actual);
    }
  }

  // Conversely, a history without a finding is that of some truncate-and-carry payer, if payments have twelve places.
  lemma FeasibleIsHonest(rows: seq<Credit>)
    requires Feasible(rows) && forall n :: 0 <= n < |rows| ==> Floor12(rows[n].paid) == rows[n].paid
    ensures exists opening: real :: Honest(rows, opening)
  {
    var opening: real :| Carries(rows, opening);
    forall n | 0 <= n < |rows|
      ensures rows[n].paid == PayOut(opening + Prefix(rows[..n]), rows[n].actual)
    {
      PrefixSnoc(rows, n);
      assert InRange(opening + Prefix(rows[..n + 1]));
      UniqueFloor(opening + Prefix(rows[..n]) + rows[n].actual, rows[n].paid);
    }
    assert InRange(opening + Prefix(rows[..0]));
    assert Honest(rows, opening);
  }

  lemma UniqueFloor(x: real, p: real)
    requires Floor12(p) == p && InRange(x - p)
    ensures Floor12(x) == p
  {
    var m := (p * PLACES12).Floor;
    TimesPlaces(p, m as real, x);
    assert (x * PLACES12).Floor == m;
  }

  lemma TimesPlaces(p: real, m: real, x: real)
    requires m / PLACES12 == p && InRange(x - p)
    ensures m <= x * PLACES12 < m + 1.0
  {
  }

  // ------------------------------------------------------------------ single payments

  function Units12(m: int): real {
    m as real / PLACES12
  }

  // The cut-off amount is the largest multiple of a twelve-place unit that is at most x.
  lemma FloorExactly(x: real, p: real)
    ensures Floor12(x) == p <==> (exists m: int :: p == Units12(m)) && InRange(x - p)
  {
    if Floor12(x) == p {
      FloorRemainder(x);
      assert p == Units12((x * PLACES12).Floor);
    }
    if (exists m: int :: p == Units12(m)) && InRange(x - p) {
      var m: int :| p == Units12(m);
      UnitFloor(m, p);
      UniqueFloor(x, p);
    }
  }

  lemma UnitFloor(m: int, p: real)
    requires p == m as real / PLACES12
    ensures Floor12(p) == p
  {
    assert p * PLACES12 == m as real;
  }

  // A payment passes the floor-and-ceiling check exactly when some carried remainder explains it.
  lemma PlausibleExactly(c: Credit)
    ensures PaidPlausible(c) <==> exists carry: real :: InRange(carry) && c.paid == PayOut(carry, c.actual)
  {
    if carry: real :| InRange(carry) && c.paid == PayOut(carry, c.actual) {
      FloorOfSum(carry, c.actual);
    }
    if PaidPlausible(c) {
      FloorRemainder(c.actual);
      if c.paid == Floor12(c.actual) {
        NothingCarried(c);
      } else {
        RoundedUp(c);
      }
    }
  }

  lemma NothingCarried(c: Credit)
    requires c.paid == Floor12(c.actual)
    ensures exists carry: real :: InRange(carry) && c.paid == PayOut(carry, c.actual)
  {
    assert 0.0 + c.actual == c.actual;
    assert InRange(0.0) && c.paid == PayOut(0.0, c.actual);
  }

  // The carry that just completes the next unit.
  lemma RoundedUp(c: Credit)
    requires c.paid == Ceiling12(c.actual) != Floor12(c.actual)
    ensures exists carry: real :: InRange(carry) && c.paid == PayOut(carry, c.actual)
  {
    FloorRemainder(c.actual);
    var carry := c.paid - c.actual;
    var m := (c.actual * PLACES12).Floor + 1;
    assert c.paid == m as real / PLACES12;
    UnitFloor(m, c.paid);
    assert carry + c.actual == c.paid;
    assert InRange(carry) && c.paid == PayOut(carry, c.actual);
  }
}
