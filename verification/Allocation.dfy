// Dividing a reward among the selected shares: exact rational parts, each cut off once, the remainder kept as dust.
module Allocation {
  import opened Wrappers
  import opened Arithmetic
  import opened Bytes
  import opened Collections
  import opened Decimal
  import opened Window

  // An identity's exact part, and what is printed for it.
  datatype Part = Part(identity: Octets, value: real)
  datatype Paid = Paid(identity: Octets, amount: string)

  datatype Outcome = Outcome(paid: seq<Paid>, dust: string)

  datatype AllocationError = DuplicateIdentity | BadDecimal | FinderPolicy | EmptyWindow | BadAmount

  function Sharing(pool: real, total: real): Selected -> Part
    requires total != 0.0
  {
    (s: Selected) => Part(s.account, pool * s.contribution / total)
  }

  function PartValue(p: Part): real {
    p.value
  }

  function ContributionOf(s: Selected): real {
    s.contribution
  }

  function PaidValue(p: Paid): real {
    match DecimalOf(p.amount) case Success(v) => v case Failure(_) => 0.0
  }

  function PrintPart(p: Part): Paid {
    Paid(p.identity, match Amount(p.value) case Success(s) => s case Failure(_) => "")
  }

  function IndexOf(parts: seq<Part>, identity: Octets): (i: nat)
    ensures i <= |parts| && (i < |parts| ==> parts[i].identity == identity)
    ensures i == |parts| ==> forall k :: 0 <= k < |parts| ==> parts[k].identity != identity
  {
    if parts == [] || parts[0].identity == identity then 0 else 1 + IndexOf(parts[1..], identity)
  }

  // The finder's bonus goes on top of the finder's own part, if there is one.
  function AddFinder(parts: seq<Part>, finder: Option<Octets>, bonus: real): seq<Part> {
    match finder
    case None => parts
    case Some(id) =>
      var i := IndexOf(parts, id);
      if i < |parts| then parts[i := Part(id, parts[i].value + bonus)] else parts + [Part(id, bonus)]
  }

  predicate DistinctSelected(selected: seq<Selected>) {
    |set s | s in selected :: s.account| == |selected|
  }

  // Exact parts of a reward r with a finder percentage p.
  function ExactParts(selected: seq<Selected>, total: real, r: real, p: real, finder: Option<Octets>): seq<Part>
    requires total != 0.0
  {
    AddFinder(Map(selected, Sharing(r * (100.0 - p) / 100.0, total)), finder, r * p / 100.0)
  }

  function TotalOf(selected: seq<Selected>): real {
    Sum(Map(selected, ContributionOf))
  }

  function PrintAll(parts: seq<Part>, r: real): Result<Outcome, AllocationError> {
    if exists i :: 0 <= i < |parts| && Amount(parts[i].value).Failure? then Failure(BadAmount)
    else
      var paid := Map(parts, PrintPart);
      match Amount(r - Sum(Map(paid, PaidValue)))
      case Failure(_) => Failure(BadAmount)
      case Success(dust) => Success(Outcome(paid, dust))
  }

  function Allocate(selected: seq<Selected>, reward: string, finder: Option<Octets>, percentage: string)
      : Result<Outcome, AllocationError> {
    if !DistinctSelected(selected) then Failure(DuplicateIdentity)
    else match (DecimalOf(reward), DecimalOf(percentage))
      case (Success(r), Success(p)) =>
        if !(0.0 <= p < 100.0) || (p != 0.0 && finder.None?) then Failure(FinderPolicy)
        else
          var total := TotalOf(selected);
          if total <= 0.0 then Failure(EmptyWindow)
          else PrintAll(ExactParts(selected, total, r, p, finder), r)
      case _ => Failure(BadDecimal)
  }

  // ------------------------------------------------------------------ the exact parts

  lemma {:induction false} SharesSum(selected: seq<Selected>, pool: real, total: real)
    requires total != 0.0
    ensures Sum(Map(Map(selected, Sharing(pool, total)), PartValue)) == pool * TotalOf(selected) / total
  {
    var shares := Map(selected, Sharing(pool, total));
    var values, contributions := Map(shares, PartValue), Map(selected, ContributionOf);
    if selected != [] {
      SharesSum(selected[1..], pool, total);
      assert shares[1..] == Map(selected[1..], Sharing(pool, total));
      assert values[1..] == Map(shares[1..], PartValue);
      assert contributions[1..] == Map(selected[1..], ContributionOf);
      AddQuotients(pool, selected[0].contribution, Sum(contributions[1..]), total);
    }
  }

  lemma AddQuotients(pool: real, a: real, b: real, total: real)
    requires total != 0.0
    ensures pool * a / total + pool * b / total == pool * (a + b) / total
  {
    assert pool * a + pool * b == pool * (a + b);
    assert (pool * a) / total + (pool * b) / total == (pool * a + pool * b) / total;
  }

  // The bonus adds to the sum once, whether or not the finder has a part already.
  lemma FinderSum(parts: seq<Part>, finder: Octets, bonus: real)
    ensures Sum(Map(AddFinder(parts, Some(finder), bonus), PartValue)) == Sum(Map(parts, PartValue)) + bonus
  {
    var i := IndexOf(parts, finder);
    var parts' := AddFinder(parts, Some(finder), bonus);
    var v, v' := Map(parts, PartValue), Map(parts', PartValue);
    if i < |parts| {
      SumWithout(v, i);
      SumWithout(v', i);
      assert Without(v, i) == Without(v', i);
    } else {
      assert v' == v + [bonus];
      SumAppend(v, [bonus]);
    }
  }

  // The exact parts sum to the whole reward.
  lemma PartsSum(selected: seq<Selected>, r: real, p: real, finder: Option<Octets>)
    requires TotalOf(selected) > 0.0 && (p != 0.0 ==> finder.Some?)
    ensures Sum(Map(ExactParts(selected, TotalOf(selected), r, p, finder), PartValue)) == r
  {
    hide Sum;
    var total, pool, bonus := TotalOf(selected), r * (100.0 - p) / 100.0, r * p / 100.0;
    SharesSum(selected, pool, total);
    DivideBack(pool, total);
    WithBonus(r, p);
    if finder.Some? {
      FinderSum(Map(selected, Sharing(pool, total)), finder.value, bonus);
    }
  }

  lemma DivideBack(pool: real, total: real)
    requires total != 0.0
    ensures pool * total / total == pool
  {
  }

  lemma WithBonus(r: real, p: real)
    ensures r * (100.0 - p) / 100.0 + r * p / 100.0 == r
    ensures p == 0.0 ==> r * (100.0 - p) / 100.0 == r
  {
    assert r * (100.0 - p) == 100.0 * r - r * p;
  }

  // ------------------------------------------------------------------ cutting off

  predicate WholeUnitsOnly(x: real) {
    x * UNIT as real == (x * UNIT as real).Floor as real
  }

  lemma UnitsClosed(x: real, y: real)
    requires WholeUnitsOnly(x) && WholeUnitsOnly(y)
    ensures WholeUnitsOnly(x + y) && WholeUnitsOnly(x - y)
  {
    var u: real := UNIT as real;
    Distribute(x, y, u);
    IntegerSum(x * u, y * u);
  }

  lemma IntegerSum(x: real, y: real)
    requires x == x.Floor as real && y == y.Floor as real
    ensures (x + y).Floor as real == x + y && (x - y).Floor as real == x - y
  {
    FloorOfInteger(x.Floor + y.Floor, x + y);
    FloorOfInteger(x.Floor - y.Floor, x - y);
  }

  lemma FloorOfInteger(n: int, z: real)
    requires z == n as real
    ensures z.Floor == n
  {
  }

  lemma Distribute(x: real, y: real, u: real)
    ensures (x + y) * u == x * u + y * u && (x - y) * u == x * u - y * u
  {
  }

  lemma {:induction false} SumInUnits(xs: seq<real>)
    requires forall i :: 0 <= i < |xs| ==> WholeUnitsOnly(xs[i])
    ensures WholeUnitsOnly(Sum(xs))
  {
    if xs != [] {
      SumInUnits(xs[1..]);
      UnitsClosed(xs[0], Sum(xs[1..]));
    }
  }

  // Nothing is lost when a whole number of units is printed.
  lemma AmountExact(x: real)
    requires Amount(x).Success? && WholeUnitsOnly(x)
    ensures DecimalOf(Amount(x).value) == Success(x)
  {
    AmountTruncates(x);
    ScaleCancels(DecimalOf(Amount(x).value).value, x, UNIT as real);
  }

  lemma PrintedPart(p: Part)
    requires Amount(p.value).Success?
    ensures var v := PaidValue(PrintPart(p));
      DecimalOf(PrintPart(p).amount) == Success(v) && WholeUnitsOnly(v) && v <= p.value < v + 1.0 / UNIT as real
  {
    hide Amount, DecimalOf;
    AmountBounds(p.value);
    DecimalIsUnits(PrintPart(p).amount);
  }

  lemma PrintedUnitsOnly(parts: seq<Part>)
    requires forall i :: 0 <= i < |parts| ==> Amount(parts[i].value).Success?
    ensures WholeUnitsOnly(Sum(Map(Map(parts, PrintPart), PaidValue)))
  {
    hide Amount, DecimalOf, WholeUnitsOnly, PrintPart, PaidValue;
    var values := Map(Map(parts, PrintPart), PaidValue);
    forall i | 0 <= i < |values|
      ensures WholeUnitsOnly(values[i])
    {
      PrintedPart(parts[i]);
    }
    SumInUnits(values);
  }

  // Cutting off loses less than one unit of the last place for each identity.
  lemma {:induction false} PrintedSum(parts: seq<Part>)
    requires forall i :: 0 <= i < |parts| ==> Amount(parts[i].value).Success?
    ensures var exact, printed := Sum(Map(parts, PartValue)), Sum(Map(Map(parts, PrintPart), PaidValue));
      && 0.0 <= exact - printed <= |parts| as real / UNIT as real
      && (parts != [] ==> exact - printed < |parts| as real / UNIT as real)
  {
    hide Amount, DecimalOf, PrintPart, PaidValue;
    if parts != [] {
      PrintedSum(parts[1..]);
      PrintedPart(parts[0]);
      var v, w := Map(parts, PartValue), Map(Map(parts, PrintPart), PaidValue);
      assert v[1..] == Map(parts[1..], PartValue);
      assert Map(parts, PrintPart)[1..] == Map(parts[1..], PrintPart);
      assert w[1..] == Map(Map(parts[1..], PrintPart), PaidValue);
      OneMore(|parts| - 1, UNIT as real);
    }
  }

  lemma OneMore(n: int, u: real)
    requires u > 0.0
    ensures n as real / u + 1.0 / u == (n + 1) as real / u
  {
    assert (n + 1) as real == n as real + 1.0;
  }

  // ------------------------------------------------------------------ guarantees

  // Printed amounts and dust sum exactly to the reward; the dust is less than one unit for each identity paid; and
  // each amount is the identity's exact part cut off.
  lemma Conservation(selected: seq<Selected>, reward: string, finder: Option<Octets>, percentage: string)
    requires Allocate(selected, reward, finder, percentage).Success?
    ensures DecimalOf(reward).Success? && DecimalOf(percentage).Success?
    ensures var o, r := Allocate(selected, reward, finder, percentage).value, DecimalOf(reward).value;
      && DecimalOf(o.dust).Success? && o.paid != []
      && Sum(Map(o.paid, PaidValue)) + DecimalOf(o.dust).value == r
      && 0.0 <= DecimalOf(o.dust).value < |o.paid| as real / UNIT as real
  {
    hide Amount, DecimalOf, PrintPart, PaidValue, WholeUnitsOnly, DistinctSelected;
    var o := Allocate(selected, reward, finder, percentage).value;
    var r, p := DecimalOf(reward).value, DecimalOf(percentage).value;
    var parts := ExactParts(selected, TotalOf(selected), r, p, finder);
    PartsSum(selected, r, p, finder);
    PrintedSum(parts);
    PrintedUnitsOnly(parts);
    RewardInUnits(reward);
    UnitsClosed(r, Sum(Map(o.paid, PaidValue)));
    AmountExact(r - Sum(Map(o.paid, PaidValue)));
    assert |Map(selected, ContributionOf)| == |selected|;
  }

  lemma RewardInUnits(s: string)
    requires DecimalOf(s).Success?
    ensures WholeUnitsOnly(DecimalOf(s).value) && 0.0 <= DecimalOf(s).value < LIMIT as real
  {
    hide DecimalOf;
    DecimalIsUnits(s);
    DecimalRoundTrip(s);
  }

  // What the finder percentage adds to an identity's part.
  function Bonus(identity: Octets, r: real, p: real, finder: Option<Octets>): real {
    if finder == Some(identity) then r * p / 100.0 else 0.0
  }

  // The exact part of a selected identity: its share of what the finder does not get, and the bonus if it is the
  // finder.
  function ExactValue(s: Selected, total: real, r: real, p: real, finder: Option<Octets>): real
    requires total != 0.0
  {
    r * (100.0 - p) / 100.0 * s.contribution / total + Bonus(s.account, r, p, finder)
  }

  // Which identity gets what: every selected identity its exact part cut off, in order, and a finder that is not among
  // them its bonus.
  lemma PaidParts(selected: seq<Selected>, reward: string, finder: Option<Octets>, percentage: string, i: nat)
    requires Allocate(selected, reward, finder, percentage).Success?
    requires i < |Allocate(selected, reward, finder, percentage).value.paid|
    ensures var o, r, p := Allocate(selected, reward, finder, percentage).value,
                           DecimalOf(reward).value, DecimalOf(percentage).value;
      if i < |selected| then
        && o.paid[i].identity == selected[i].account
        && Amount(ExactValue(selected[i], TotalOf(selected), r, p, finder)) == Success(o.paid[i].amount)
      else
        && i == |selected| == |o.paid| - 1 && finder == Some(o.paid[i].identity)
        && Amount(Bonus(o.paid[i].identity, r, p, finder)) == Success(o.paid[i].amount)
        && forall s :: s in selected ==> s.account != o.paid[i].identity
  {
    hide Amount, DecimalOf, DistinctSelected, ExactParts, PrintPart, Allocate, TotalOf, ExactValue, Bonus;
    AllocatedParts(selected, reward, finder, percentage);
    var r, p := DecimalOf(reward).value, DecimalOf(percentage).value;
    var part := ExactParts(selected, TotalOf(selected), r, p, finder)[i];
    ExactPart(selected, TotalOf(selected), r, p, finder, i);
    PrintsAs(part);
    assert Allocate(selected, reward, finder, percentage).value.paid[i] == PrintPart(part);
  }

  // What is paid is the printed form of the exact parts.
  lemma AllocatedParts(selected: seq<Selected>, reward: string, finder: Option<Octets>, percentage: string)
    requires Allocate(selected, reward, finder, percentage).Success?
    ensures DistinctSelected(selected) && DecimalOf(reward).Success? && DecimalOf(percentage).Success?
    ensures TotalOf(selected) > 0.0
    ensures var r, p := DecimalOf(reward).value, DecimalOf(percentage).value;
      var parts := ExactParts(selected, TotalOf(selected), r, p, finder);
      && Allocate(selected, reward, finder, percentage).value.paid == Map(parts, PrintPart)
      && forall k :: 0 <= k < |parts| ==> Amount(parts[k].value).Success?
  {
    hide Amount, DecimalOf, DistinctSelected, ExactParts, PrintPart, TotalOf;
  }

  lemma PrintsAs(p: Part)
    ensures PrintPart(p).identity == p.identity
    ensures Amount(p.value).Success? ==> Amount(p.value) == Success(PrintPart(p).amount)
  {
    hide Amount;
  }

  // The exact part at a place: a selected identity's share, with the bonus if it is the finder; or the finder's alone.
  lemma ExactPart(selected: seq<Selected>, total: real, r: real, p: real, finder: Option<Octets>, i: nat)
    requires DistinctSelected(selected) && total != 0.0 && i < |ExactParts(selected, total, r, p, finder)|
    ensures var parts := ExactParts(selected, total, r, p, finder);
      if i < |selected| then parts[i] == Part(selected[i].account, ExactValue(selected[i], total, r, p, finder))
      else
        && parts[i].value == Bonus(parts[i].identity, r, p, finder) && finder == Some(parts[i].identity)
        && i == |selected| == |parts| - 1
        && forall s :: s in selected ==> s.account != parts[i].identity
  {
    hide DistinctSelected, IndexOf;
    SelectedPairwise(selected);
    var shares := Map(selected, Sharing(r * (100.0 - p) / 100.0, total));
    if finder.Some? {
      var k := IndexOf(shares, finder.value);
      if k < |shares| && i < |shares| && i != k {
        assert shares[i].identity == selected[i].account && shares[k].identity == selected[k].account;
      }
      if k == |shares| {
        NotSelected(selected, shares, finder.value);
      }
    }
  }

  lemma NotSelected(selected: seq<Selected>, shares: seq<Part>, identity: Octets)
    requires |shares| == |selected|
    requires forall k :: 0 <= k < |shares| ==>
      shares[k].identity == selected[k].account && shares[k].identity != identity
    ensures forall s :: s in selected ==> s.account != identity
  {
    forall s | s in selected
      ensures s.account != identity
    {
      var j :| 0 <= j < |selected| && selected[j] == s;
      assert shares[j].identity == s.account;
    }
  }

  lemma SelectedPairwise(selected: seq<Selected>)
    ensures DistinctSelected(selected)
      <==> forall i, j :: 0 <= i < j < |selected| ==> selected[i].account != selected[j].account
  {
    var ids := Map(selected, (s: Selected) => s.account);
    forall k
      ensures k in Elements(ids) <==> k in set s | s in selected :: s.account
    {
      if k in ids {
        var i :| 0 <= i < |ids| && ids[i] == k;
        assert selected[i] in selected;
      }
      if k in set s | s in selected :: s.account {
        var i :| 0 <= i < |selected| && selected[i].account == k;
        assert ids[i] == k;
      }
    }
    assert Elements(ids) == set s | s in selected :: s.account;
    NoDuplicatesPairwise(ids);
  }

  // ------------------------------------------------------------------ allocation never fails on valid input

  lemma {:induction false} MemberAtMostSum(xs: seq<real>, i: nat)
    requires i < |xs| && forall k :: 0 <= k < |xs| ==> xs[k] >= 0.0
    ensures 0.0 <= xs[i] <= Sum(xs)
  {
    SumWithout(xs, i);
    SumNonnegative(Without(xs, i));
  }

  lemma {:induction false} SumNonnegative(xs: seq<real>)
    requires forall k :: 0 <= k < |xs| ==> xs[k] >= 0.0
    ensures Sum(xs) >= 0.0
  {
    if xs != [] {
      SumNonnegative(xs[1..]);
    }
  }

  lemma ShareNonnegative(pool: real, c: real, total: real)
    requires pool >= 0.0 && c >= 0.0 && total > 0.0
    ensures pool * c / total >= 0.0
  {
    assert pool * c >= 0.0;
  }

  lemma NonnegativeProduct(a: real, b: real)
    requires a >= 0.0 && b >= 0.0
    ensures a * b >= 0.0
  {
  }

  lemma PartsNonnegative(selected: seq<Selected>, total: real, r: real, p: real, finder: Option<Octets>)
    requires total > 0.0 && r >= 0.0 && 0.0 <= p < 100.0
    requires forall s :: s in selected ==> s.contribution >= 0.0
    ensures forall k :: 0 <= k < |ExactParts(selected, total, r, p, finder)| ==>
      ExactParts(selected, total, r, p, finder)[k].value >= 0.0
  {
    var pool := r * (100.0 - p) / 100.0;
    NonnegativeProduct(r, 100.0 - p);
    NonnegativeProduct(r, p);
    var shares := Map(selected, Sharing(pool, total));
    forall k | 0 <= k < |shares|
      ensures shares[k].value >= 0.0
    {
      ShareNonnegative(pool, selected[k].contribution, total);
    }
  }

  lemma PartsPrint(selected: seq<Selected>, r: real, p: real, finder: Option<Octets>)
    requires 0.0 <= r < LIMIT as real && 0.0 <= p < 100.0 && (p != 0.0 ==> finder.Some?)
    requires TotalOf(selected) > 0.0 && forall s :: s in selected ==> s.contribution >= 0.0
    ensures PrintAll(ExactParts(selected, TotalOf(selected), r, p, finder), r).Success?
  {
    hide Amount, DecimalOf, PrintPart, PaidValue, WholeUnitsOnly, ExactParts, TotalOf;
    var parts := ExactParts(selected, TotalOf(selected), r, p, finder);
    PartsNonnegative(selected, TotalOf(selected), r, p, finder);
    PartsSum(selected, r, p, finder);
    var values := Map(parts, PartValue);
    forall i | 0 <= i < |parts|
      ensures Amount(parts[i].value).Success?
    {
      MemberAtMostSum(values, i);
      AmountTruncates(parts[i].value);
    }
    PrintedSum(parts);
    PrintedSumNonnegative(parts);
    AmountTruncates(r - Sum(Map(Map(parts, PrintPart), PaidValue)));
  }

  // With contributions that are not negative, an allocation succeeds exactly for distinct identities, a canonical
  // reward, a canonical percentage below one hundred, a finder whenever it is not zero, and some positive contribution;
  // each failure has its reason, in this order.
  lemma AllocatesExactly(selected: seq<Selected>, reward: string, finder: Option<Octets>, percentage: string)
    requires forall s :: s in selected ==> s.contribution >= 0.0
    ensures var r := Allocate(selected, reward, finder, percentage);
      var distinct := forall i, j :: 0 <= i < j < |selected| ==> selected[i].account != selected[j].account;
      && (!distinct ==> r == Failure(DuplicateIdentity))
      && (distinct && !(DecimalOf(reward).Success? && DecimalOf(percentage).Success?) ==> r == Failure(BadDecimal))
      && (distinct && DecimalOf(reward).Success? && DecimalOf(percentage).Success? ==>
            var p := DecimalOf(percentage).value;
            if p >= 100.0 || (p > 0.0 && finder == None) then r == Failure(FinderPolicy)
            else if forall s :: s in selected ==> s.contribution == 0.0 then r == Failure(EmptyWindow)
            else r.Success?)
  {
    hide Amount, DecimalOf, DistinctSelected, PrintAll, ExactParts, TotalOf;
    SelectedPairwise(selected);
    TotalPositive(selected);
    if DecimalOf(reward).Success? && DecimalOf(percentage).Success? {
      RewardInUnits(reward);
      RewardInUnits(percentage);
      var r, p := DecimalOf(reward).value, DecimalOf(percentage).value;
      if p < 100.0 && (p != 0.0 ==> finder.Some?) && TotalOf(selected) > 0.0 {
        PartsPrint(selected, r, p, finder);
      }
    }
  }

  // The total of contributions that are not negative is positive exactly if one of them is.
  lemma {:induction false} TotalPositive(selected: seq<Selected>)
    requires forall s :: s in selected ==> s.contribution >= 0.0
    ensures TotalOf(selected) >= 0.0
    ensures TotalOf(selected) == 0.0 <==> forall s :: s in selected ==> s.contribution == 0.0
  {
    var c := Map(selected, ContributionOf);
    if selected != [] {
      var rest := selected[1..];
      TotalPositive(rest);
      assert c[1..] == Map(rest, ContributionOf);
      assert selected == [selected[0]] + rest;
    }
  }

  // In particular it succeeds for positive contributions.
  lemma AlwaysSucceeds(selected: seq<Selected>, reward: string, finder: Option<Octets>, percentage: string)
    requires DistinctSelected(selected) && selected != [] && forall s :: s in selected ==> s.contribution > 0.0
    requires DecimalOf(reward).Success? && DecimalOf(percentage).Success?
    requires DecimalOf(percentage).value < 100.0 && (DecimalOf(percentage).value != 0.0 ==> finder.Some?)
    ensures Allocate(selected, reward, finder, percentage).Success?
  {
    hide DecimalOf, Allocate, DistinctSelected;
    SelectedPairwise(selected);
    AllocatesExactly(selected, reward, finder, percentage);
    assert selected[0] in selected;
  }

  lemma PrintedSumNonnegative(parts: seq<Part>)
    requires forall i :: 0 <= i < |parts| ==> Amount(parts[i].value).Success?
    ensures Sum(Map(Map(parts, PrintPart), PaidValue)) >= 0.0
  {
    hide Amount, DecimalOf, PrintPart;
    var values := Map(Map(parts, PrintPart), PaidValue);
    forall k | 0 <= k < |values|
      ensures values[k] >= 0.0
    {
      PrintedPart(parts[k]);
      RewardInUnits(PrintPart(parts[k]).amount);
    }
    SumNonnegative(values);
  }

  // ------------------------------------------------------------------ allocation does not depend on order

  lemma ReplaceOne(parts: seq<Part>, i: nat, q: Part)
    requires i < |parts|
    ensures multiset(parts[i := q]) == multiset(parts) - multiset{parts[i]} + multiset{q}
  {
    WithoutOne(parts, i);
    WithoutOne(parts[i := q], i);
    assert Without(parts[i := q], i) == Without(parts, i);
  }

  ghost predicate DistinctIdentities(parts: seq<Part>) {
    forall a, b :: a in parts && b in parts && a.identity == b.identity ==> a == b
  }

  lemma FoundAlike(parts: seq<Part>, parts': seq<Part>, identity: Octets)
    requires Permutation(parts, parts') && DistinctIdentities(parts)
    ensures var i, j := IndexOf(parts, identity), IndexOf(parts', identity);
      (i < |parts| <==> j < |parts'|) && (i < |parts| ==> parts[i] == parts'[j])
  {
    PermutationElements(parts, parts');
    var i, j := IndexOf(parts, identity), IndexOf(parts', identity);
    if i < |parts| {
      assert parts[i] in parts';
    }
    if j < |parts'| {
      assert parts'[j] in parts;
    }
  }

  lemma AddFinderPermutes(parts: seq<Part>, parts': seq<Part>, finder: Octets, bonus: real)
    requires Permutation(parts, parts') && DistinctIdentities(parts)
    ensures Permutation(AddFinder(parts, Some(finder), bonus), AddFinder(parts', Some(finder), bonus))
  {
    hide IndexOf, DistinctIdentities, Permutation;
    FoundAlike(parts, parts', finder);
    var i, j := IndexOf(parts, finder), IndexOf(parts', finder);
    if i < |parts| {
      ReplacePermutes(parts, i, parts', j, Part(finder, parts[i].value + bonus));
    } else {
      AppendPermutes(parts, parts', Part(finder, bonus));
    }
  }

  lemma ReplacePermutes(s: seq<Part>, i: nat, t: seq<Part>, j: nat, q: Part)
    requires Permutation(s, t) && i < |s| && j < |t| && s[i] == t[j]
    ensures Permutation(s[i := q], t[j := q])
  {
    ReplaceOne(s, i, q);
    ReplaceOne(t, j, q);
  }

  lemma AppendPermutes(s: seq<Part>, t: seq<Part>, q: Part)
    requires Permutation(s, t)
    ensures Permutation(s + [q], t + [q])
  {
    assert multiset(s + [q]) == multiset(s) + multiset{q} && multiset(t + [q]) == multiset(t) + multiset{q};
  }

  lemma SharesDistinct(selected: seq<Selected>, pool: real, total: real)
    requires DistinctSelected(selected) && total != 0.0
    ensures DistinctIdentities(Map(selected, Sharing(pool, total)))
  {
    SelectedPairwise(selected);
    var shares := Map(selected, Sharing(pool, total));
    forall a, b | a in shares && b in shares && a.identity == b.identity
      ensures a == b
    {
      var i :| 0 <= i < |shares| && shares[i] == a;
      var j :| 0 <= j < |shares| && shares[j] == b;
      assert selected[i].account == selected[j].account;
      assert i == j;
    }
  }

  lemma ExactPartsPermute(selected: seq<Selected>, selected': seq<Selected>, total: real, r: real, p: real,
      finder: Option<Octets>)
    requires Permutation(selected, selected') && DistinctSelected(selected) && total != 0.0
    ensures Permutation(ExactParts(selected, total, r, p, finder), ExactParts(selected', total, r, p, finder))
  {
    hide DistinctSelected, DistinctIdentities, Permutation;
    var pool := r * (100.0 - p) / 100.0;
    var f := Sharing(pool, total);
    SharesDistinct(selected, pool, total);
    MapPermutes(selected, selected', f);
    if finder.Some? {
      AddFinderPermutes(Map(selected, f), Map(selected', f), finder.value, r * p / 100.0);
    }
  }

  lemma PrintAllOrderFree(parts: seq<Part>, parts': seq<Part>, r: real)
    requires Permutation(parts, parts')
    ensures PrintAll(parts, r).Success? <==> PrintAll(parts', r).Success?
    ensures PrintAll(parts, r).Success? ==> SameOutcome(PrintAll(parts, r).value, PrintAll(parts', r).value)
  {
    hide Amount, DecimalOf, PrintPart, PaidValue;
    PermutationElements(parts, parts');
    MapPermutes(parts, parts', PrintPart);
    MapPermutes(Map(parts, PrintPart), Map(parts', PrintPart), PaidValue);
    SumPermutes(Map(Map(parts, PrintPart), PaidValue), Map(Map(parts', PrintPart), PaidValue));
    if i :| 0 <= i < |parts| && Amount(parts[i].value).Failure? {
      assert parts[i] in parts';
    }
    if i :| 0 <= i < |parts'| && Amount(parts'[i].value).Failure? {
      assert parts'[i] in parts;
    }
  }

  // The same amounts for the same identities, and the same dust.
  ghost predicate SameOutcome(o: Outcome, o': Outcome) {
    Permutation(o.paid, o'.paid) && o.dust == o'.dust
  }

  lemma AllocateOrderFree(selected: seq<Selected>, selected': seq<Selected>, reward: string, finder: Option<Octets>,
      percentage: string)
    requires Permutation(selected, selected')
    ensures Allocate(selected, reward, finder, percentage).Success?
      <==> Allocate(selected', reward, finder, percentage).Success?
    ensures Allocate(selected, reward, finder, percentage).Success? ==>
      SameOutcome(Allocate(selected, reward, finder, percentage).value,
                  Allocate(selected', reward, finder, percentage).value)
  {
    hide Amount, DecimalOf, PrintAll, ExactParts, SameOutcome;
    PermutationElements(selected, selected');
    assert (set s | s in selected :: s.account) == (set s | s in selected' :: s.account);
    MapPermutes(selected, selected', ContributionOf);
    SumPermutes(Map(selected, ContributionOf), Map(selected', ContributionOf));
    if DistinctSelected(selected) && DecimalOf(reward).Success? && DecimalOf(percentage).Success?
      && TotalOf(selected) > 0.0 {
      var r, p, total := DecimalOf(reward).value, DecimalOf(percentage).value, TotalOf(selected);
      ExactPartsPermute(selected, selected', total, r, p, finder);
      PrintAllOrderFree(ExactParts(selected, total, r, p, finder), ExactParts(selected', total, r, p, finder), r);
    }
  }
}
