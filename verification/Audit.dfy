// Recomputing a settlement from its retained events, and comparing it with what was paid.
//
// Payload messages are read through the parameter `parse`; any reason to reject is one outcome, None.
module Audit {
  import opened Wrappers
  import opened Arithmetic
  import opened Bytes
  import opened Collections
  import opened Binary64
  import opened Binary64Rounding
  import opened Binary64Theorems
  import opened Decimal
  import W = Window
  import opened Allocation
  import E = Encoding
  import R = Requests
  import Wire

  datatype Deduction = Deduction(destination: Octets, amount: string)

  datatype Inputs = Inputs(
    blockHash: Octets, blockHeight: int, gross: string, deductions: seq<Deduction>, distributable: string,
    finder: Option<Octets>, finderPercentage: string)

  datatype AuditEvent = AuditEvent(
    time: int, sender: Octets, sequence: int, relay: Octets, epoch: Octets, lane: int, eventType: int, scope: Octets,
    previous: Octets, chain: Octets, payload: Octets)

  datatype Bundle = Bundle(summaryHash: Octets, inputs: Inputs, events: seq<AuditEvent>)

  // One projection of an accounting share.
  datatype Projection = Projection(
    scope: Octets, account: Octets, created: int, miner: Octets, difficulty: nat, network: nat,
    candidate: bool, candidateHash: Octets, blockHeight: int)

  // hash: SHA-256.  parse: the projections in a payload, the primary one first.
  datatype Settings = Settings(
    hash: Octets -> Octets, parse: Octets -> Option<seq<Projection>>,
    scope: Octets, scheme: int, factor: string, adjustment: string, percentage: string)

  datatype Row = Row(share: W.Share, miner: Octets, finder: bool)

  // An accepted settlement.
  datatype Settled = Settled(amounts: map<Octets, (Octets, string)>, paid: seq<Paid>, dust: string, digest: Octets)

  // ------------------------------------------------------------------ rows from events

  // What an event's chain hash is the hash of.
  function EventPreimage(hash: Octets -> Octets, e: AuditEvent): Option<Octets> {
    match (E.Integer(1, e.lane), E.Integer(8, e.sequence), E.Integer(2, e.eventType), E.Integer(2, |e.scope|),
           E.SignedInteger(e.time), E.Prefixed(e.payload))
    case (Some(lane), Some(sequence), Some(eventType), Some(length), Some(time), Some(payload)) =>
      Some(Wire.EVENT_TAG + (e.previous + (e.sender + (e.epoch + (lane + (sequence + (eventType + (e.relay
        + (length + (e.scope + (time + hash(Wire.PAYLOAD_TAG + payload))))))))))))
    case _ => None
  }

  function EventHash(hash: Octets -> Octets, e: AuditEvent): Option<Octets> {
    match EventPreimage(hash, e)
    case None => None
    case Some(s) => Some(hash(s))
  }

  function KeyOf(e: AuditEvent): W.Key {
    W.Key(e.time, e.sender, e.sequence, e.relay)
  }

  // A canonical decimal as an exact fraction.
  function FractionOf(v: real): Rational {
    Fraction((v * UNIT as real).Floor, UNIT)
  }

  function Times(x: Rational, y: Rational): Rational {
    MulPositive(x.den, y.den);
    Fraction(x.num * y.num, x.den * y.den)
  }

  // The assigned difficulty times the adjustment, rounded to binary64.
  function Adjusted(difficulty: nat, adjustment: string): Option<nat> {
    match (Decode(BINARY64, difficulty), DecimalOf(adjustment))
    case (Success(d), Success(a)) => RoundedBits(Times(d, FractionOf(a)))
    case _ => None
  }

  function RoundedBits(x: Rational): Option<nat> {
    match Round(BINARY64, x)
    case Failure(_) => None
    case Success(bits) => if bits >= 0 then Some(bits) else None
  }

  function IsFinder(i: Inputs, p: Projection): bool {
    p.candidate && p.candidateHash == i.blockHash && p.blockHeight == i.blockHeight
  }

  // The row of one projection, none if it belongs to another scope.
  function RowOf(x: Settings, i: Inputs, e: AuditEvent, p: Projection): Option<seq<Row>> {
    if p.created != e.time then None
    else if p.scope != x.scope then Some([])
    else match Adjusted(p.difficulty, x.adjustment)
      case None => None
      case Some(bits) => Some([Row(W.Share(KeyOf(e), p.account, bits, p.network), p.miner, IsFinder(i, p))])
  }

  function Join(a: Option<seq<Row>>, b: Option<seq<Row>>): Option<seq<Row>> {
    match (a, b)
    case (Some(s), Some(t)) => Some(s + t)
    case _ => None
  }

  function ProjectionRows(x: Settings, i: Inputs, e: AuditEvent, ps: seq<Projection>): Option<seq<Row>> {
    if ps == [] then Some([])
    else Join(ProjectionRows(x, i, e, ps[..|ps| - 1]), RowOf(x, i, e, ps[|ps| - 1]))
  }

  predicate Integrity(x: Settings, e: AuditEvent) {
    e.eventType == 512 && e.lane == 0 && EventHash(x.hash, e) == Some(e.chain)
  }

  function EventRows(x: Settings, i: Inputs, e: AuditEvent): Option<seq<Row>> {
    if !Integrity(x, e) then None
    else match x.parse(e.payload)
      case None => None
      case Some(ps) => ProjectionRows(x, i, e, ps)
  }

  function AllRows(x: Settings, i: Inputs, es: seq<AuditEvent>): Option<seq<Row>> {
    if es == [] then Some([]) else Join(AllRows(x, i, es[..|es| - 1]), EventRows(x, i, es[|es| - 1]))
  }

  function AccountOf(r: Row): Octets {
    r.share.account
  }

  function ShareOf(r: Row): W.Share {
    r.share
  }

  // All rows of a bundle, if no event and no accounting identity occurs twice.
  function Gathered(x: Settings, i: Inputs, es: seq<AuditEvent>): Option<seq<Row>> {
    match AllRows(x, i, es)
    case None => None
    case Some(rows) =>
      if NoDuplicates(Map(es, KeyOf)) && NoDuplicates(Map(rows, AccountOf)) then Some(rows) else None
  }

  // ------------------------------------------------------------------ what the rows are

  // The row was made from this projection of this event.
  ghost predicate RowFrom(x: Settings, i: Inputs, e: AuditEvent, p: Projection, r: Row) {
    p.created == e.time && p.scope == x.scope && RowOf(x, i, e, p) == Some([r])
  }

  lemma {:induction false} ProjectionRowsAre(x: Settings, i: Inputs, e: AuditEvent, ps: seq<Projection>, r: Row)
    requires ProjectionRows(x, i, e, ps).Some?
    ensures r in ProjectionRows(x, i, e, ps).value <==> exists p :: p in ps && RowFrom(x, i, e, p, r)
    ensures forall p :: p in ps ==> p.created == e.time
  {
    hide Adjusted;
    if ps != [] {
      var ps0, last := ps[..|ps| - 1], ps[|ps| - 1];
      ProjectionRowsAre(x, i, e, ps0, r);
      assert ps == ps0 + [last];
      assert r in RowOf(x, i, e, last).value <==> RowFrom(x, i, e, last, r);
    }
  }

  // The row comes from an in-scope projection of one of the events.
  ghost predicate RowOfSome(x: Settings, i: Inputs, es: seq<AuditEvent>, r: Row) {
    exists e, p :: e in es && x.parse(e.payload).Some? && p in x.parse(e.payload).value && RowFrom(x, i, e, p, r)
  }

  // When rows are gathered, every event is intact, and the rows are those of all projections in scope, no others.
  lemma {:induction false} RowsAre(x: Settings, i: Inputs, es: seq<AuditEvent>, r: Row)
    requires AllRows(x, i, es).Some?
    ensures r in AllRows(x, i, es).value <==> RowOfSome(x, i, es, r)
    ensures forall e :: e in es ==> Integrity(x, e) && x.parse(e.payload).Some?
  {
    hide RowFrom, Integrity, ProjectionRows;
    if es != [] {
      var es0, last := es[..|es| - 1], es[|es| - 1];
      RowsAre(x, i, es0, r);
      assert es == es0 + [last];
      ProjectionRowsAre(x, i, last, x.parse(last.payload).value, r);
      if RowOfSome(x, i, es, r) {
        var e, p :| e in es && x.parse(e.payload).Some? && p in x.parse(e.payload).value && RowFrom(x, i, e, p, r);
        assert e in es0 ==> RowOfSome(x, i, es0, r);
      }
    }
  }

  // ------------------------------------------------------------------ selection

  // Without a window every row counts with its whole score.
  function WholeScore(s: W.Share): Option<W.Selected> {
    match W.Score(s)
    case Failure(_) => None
    case Success(score) => Some(W.Selected(s.account, score, 1.0))
  }

  function Chosen(x: Settings, rows: seq<Row>): Option<seq<W.Selected>> {
    var shares := Map(rows, ShareOf);
    if x.scheme == 3 then
      var whole := Map(shares, WholeScore);
      if E.AllSome(whole) then Some(E.Values(whole)) else None
    else match W.Selection(shares, x.factor)
      case Failure(_) => None
      case Success(selected) => Some(selected)
  }

  function FinderMatches(rows: seq<Row>): seq<Octets> {
    if rows == [] then []
    else FinderMatches(rows[..|rows| - 1]) + if rows[|rows| - 1].finder then [AccountOf(rows[|rows| - 1])] else []
  }

  predicate FinderOk(x: Settings, i: Inputs, rows: seq<Row>) {
    if x.scheme == 2 then i.finder.Some? && FinderMatches(rows) == [i.finder.value] else i.finder == None
  }

  function Percentage(x: Settings): string {
    if x.scheme == 2 then x.percentage else "0"
  }

  // ------------------------------------------------------------------ the reward

  function DeductionValue(d: Deduction): real {
    match DecimalOf(d.amount) case Success(v) => v case Failure(_) => 0.0
  }

  function DestinationOf(d: Deduction): Octets {
    d.destination
  }

  function Deducted(ds: seq<Deduction>): real {
    Sum(Map(ds, DeductionValue))
  }

  // Distinct named deductions and the distributable reward make up the gross reward.
  predicate RewardOk(i: Inputs) {
    && DecimalOf(i.gross).Success? && DecimalOf(i.distributable).Success?
    && (forall d :: d in i.deductions ==> d.destination != [] && DecimalOf(d.amount).Success?)
    && NoDuplicates(Map(i.deductions, DestinationOf))
    && DecimalOf(i.gross).value == DecimalOf(i.distributable).value + Deducted(i.deductions)
  }

  // ------------------------------------------------------------------ the result

  function MinerOf(rows: seq<Row>, account: Octets): Octets {
    if rows == [] then [] else if AccountOf(rows[|rows| - 1]) == account then rows[|rows| - 1].miner
    else MinerOf(rows[..|rows| - 1], account)
  }

  // The result table: miner and amount for each identity paid.
  function Table(rows: seq<Row>, paid: seq<Paid>): map<Octets, (Octets, string)> {
    if paid == [] then map[]
    else
      var p := paid[|paid| - 1];
      Table(rows, paid[..|paid| - 1])[p.identity := (MinerOf(rows, p.identity), p.amount)]
  }

  // ------------------------------------------------------------------ the bundle's digest

  function TextOctets(s: string): Octets {
    seq(|s|, k requires 0 <= k < |s| => if s[k] < 128 as char then s[k] as byte else 255)
  }

  function DeductionVal(d: Deduction): E.Val {
    E.Object(map["destination" := E.Octs(d.destination), "amount" := E.Text(TextOctets(d.amount))])
  }

  function EventVal(e: AuditEvent): E.Val {
    E.Object(map[
      "event_time" := E.Int(e.time), "sender" := E.Octs(e.sender), "sequence" := E.Int(e.sequence),
      "relay" := E.Octs(e.relay), "epoch" := E.Octs(e.epoch), "lane" := E.Int(e.lane),
      "event_type" := E.Int(e.eventType), "scope" := E.Octs(e.scope), "previous_chain_hash" := E.Octs(e.previous),
      "chain_hash" := E.Octs(e.chain), "payload" := E.Octs(e.payload)])
  }

  function InputsVal(i: Inputs): E.Val {
    E.Object(map[
      "block_hash" := E.Octs(i.blockHash), "block_height" := E.Int(i.blockHeight),
      "gross_reward" := E.Text(TextOctets(i.gross)), "deductions" := E.List(Map(i.deductions, DeductionVal)),
      "distributable_reward" := E.Text(TextOctets(i.distributable)),
      "finder_accounting_id" := (match i.finder case None => E.Nothing case Some(id) => E.Octs(id)),
      "finder_percentage" := E.Text(TextOctets(i.finderPercentage))])
  }

  function BundleVal(b: Bundle): E.Val {
    E.Object(map[
      "summary_hash" := E.Octs(b.summaryHash), "inputs" := InputsVal(b.inputs),
      "events" := E.List(Map(b.events, EventVal))])
  }

  function BundleOctets(b: Bundle): Option<Octets> {
    E.Encode(R.SCHEMAS, R.BUNDLE, BundleVal(b))
  }

  // ------------------------------------------------------------------ the audit

  function Settle(x: Settings, b: Bundle): Option<Settled> {
    var i := b.inputs;
    if !RewardOk(i) || i.finderPercentage != Percentage(x) then None
    else match Gathered(x, i, b.events)
      case None => None
      case Some(rows) =>
        match Chosen(x, rows)
        case None => None
        case Some(selected) =>
          if !FinderOk(x, i, rows) then None
          else match (Allocate(selected, i.distributable, i.finder, Percentage(x)), BundleOctets(b))
            case (Success(o), Some(octets)) => Some(Settled(Table(rows, o.paid), o.paid, o.dust, x.hash(octets)))
            case _ => None
  }

  function Audited(x: Settings, b: Bundle, expected: map<Octets, (Octets, string)>): Option<Settled> {
    match Settle(x, b)
    case None => None
    case Some(s) => if s.amounts == expected then Some(s) else None
  }

  // ------------------------------------------------------------------ the program's loops

  lemma KeysSnoc(es: seq<AuditEvent>, n: nat)
    requires n < |es|
    ensures NoDuplicates(Map(es[..n + 1], KeyOf)) <==>
      NoDuplicates(Map(es[..n], KeyOf)) && KeyOf(es[n]) !in Elements(Map(es[..n], KeyOf))
    ensures Elements(Map(es[..n + 1], KeyOf)) == Elements(Map(es[..n], KeyOf)) + {KeyOf(es[n])}
  {
    DuplicateSnoc(Map(es[..n], KeyOf), KeyOf(es[n]));
    assert Map(es[..n + 1], KeyOf) == Map(es[..n], KeyOf) + [KeyOf(es[n])];
  }

  lemma {:induction false} AllRowsPrefix(x: Settings, i: Inputs, es: seq<AuditEvent>, n: nat)
    requires n <= |es|
    ensures AllRows(x, i, es).Some? ==>
      AllRows(x, i, es[..n]).Some? && AllRows(x, i, es[..n]).value <= AllRows(x, i, es).value
  {
    hide EventRows;
    if n < |es| {
      AllRowsPrefix(x, i, es[..|es| - 1], n);
      assert es[..|es| - 1][..n] == es[..n];
    } else {
      assert es[..n] == es;
    }
  }

  // Gathers the rows of all events, watching for repeated events and identities on the way.
  method Gather(x: Settings, i: Inputs, es: seq<AuditEvent>) returns (r: Option<seq<Row>>)
    ensures r == Gathered(x, i, es)
  {
    hide EventRows, NoDuplicates, Elements;
    var rows: seq<Row> := [];
    var seen: set<W.Key> := {};
    assert es[..0] == [];
    EmptyDistinct<W.Key>();
    EmptyDistinct<Octets>();
    for n := 0 to |es|
      invariant AllRows(x, i, es[..n]) == Some(rows)
      invariant NoDuplicates(Map(es[..n], KeyOf)) && NoDuplicates(Map(rows, AccountOf))
      invariant seen == Elements(Map(es[..n], KeyOf))
    {
      assert es[..n + 1][..n] == es[..n];
      KeysSnoc(es, n);
      if KeyOf(es[n]) in seen {
        assert Map(es, KeyOf)[..n + 1] == Map(es[..n + 1], KeyOf);
        DuplicatesStay(Map(es, KeyOf), n + 1);
        return None;
      }
      seen := seen + {KeyOf(es[n])};
      var more := EventRows(x, i, es[n]);
      AllRowsPrefix(x, i, es, n + 1);
      if more.None? {
        return None;
      }
      var distinct := AddsNoDuplicate(rows, more.value);
      if !distinct {
        GatheredDuplicate(x, i, es, n + 1, rows + more.value);
        return None;
      }
      rows := rows + more.value;
    }
    assert es[..|es|] == es;
    r := Some(rows);
  }

  lemma GatheredDuplicate(x: Settings, i: Inputs, es: seq<AuditEvent>, n: nat, rows: seq<Row>)
    requires n <= |es| && AllRows(x, i, es[..n]) == Some(rows) && !NoDuplicates(Map(rows, AccountOf))
    ensures Gathered(x, i, es) == None
  {
    AllRowsPrefix(x, i, es, n);
    if AllRows(x, i, es).Some? {
      var all := AllRows(x, i, es).value;
      assert Map(all, AccountOf)[..|rows|] == Map(rows, AccountOf);
      DuplicatesStay(Map(all, AccountOf), |rows|);
    }
  }

  // Whether new rows bring no identity twice.
  method AddsNoDuplicate(rows: seq<Row>, more: seq<Row>) returns (ok: bool)
    requires NoDuplicates(Map(rows, AccountOf))
    ensures ok == NoDuplicates(Map(rows + more, AccountOf))
  {
    hide NoDuplicates, Elements;
    var miners := Elements(Map(rows, AccountOf));
    assert rows + more[..0] == rows;
    for n := 0 to |more|
      invariant NoDuplicates(Map(rows + more[..n], AccountOf))
      invariant miners == Elements(Map(rows + more[..n], AccountOf))
    {
      var have := Map(rows + more[..n], AccountOf);
      DuplicateSnoc(have, AccountOf(more[n]));
      assert Map(rows + more[..n + 1], AccountOf) == have + [AccountOf(more[n])];
      if AccountOf(more[n]) in miners {
        assert Map(rows + more, AccountOf)[..|rows| + n + 1] == have + [AccountOf(more[n])];
        DuplicatesStay(Map(rows + more, AccountOf), |rows| + n + 1);
        return false;
      }
      miners := miners + {AccountOf(more[n])};
    }
    assert rows + more[..|more|] == rows + more;
    ok := true;
  }

  // ------------------------------------------------------------------ conservation

  // In an accepted settlement the gross reward is, exactly, deductions plus amounts plus dust.
  lemma GrossConserved(x: Settings, b: Bundle, expected: map<Octets, (Octets, string)>)
    requires Audited(x, b, expected).Some?
    ensures var s := Audited(x, b, expected).value;
      && DecimalOf(b.inputs.gross).Success? && DecimalOf(s.dust).Success?
      && DecimalOf(b.inputs.gross).value
           == Deducted(b.inputs.deductions) + Sum(Map(s.paid, PaidValue)) + DecimalOf(s.dust).value
      && 0.0 <= DecimalOf(s.dust).value < |s.paid| as real / UNIT as real
  {
    hide DecimalOf, Allocate, Gathered, Chosen, FinderOk, BundleOctets, Table, Deducted, NoDuplicates, PaidValue;
    var i := b.inputs;
    var rows := Gathered(x, i, b.events).value;
    Conservation(Chosen(x, rows).value, i.distributable, i.finder, Percentage(x));
  }

  // What acceptance means for the events: all intact, none twice, every identity counted once, and the payments are
  // the allocation of the chosen shares.
  lemma AcceptedEvents(x: Settings, b: Bundle, expected: map<Octets, (Octets, string)>)
    requires Audited(x, b, expected).Some?
    ensures forall e :: e in b.events ==> Integrity(x, e) && x.parse(e.payload).Some?
    ensures NoDuplicates(Map(b.events, KeyOf)) && Gathered(x, b.inputs, b.events).Some?
    ensures var rows := Gathered(x, b.inputs, b.events).value;
      && NoDuplicates(Map(rows, AccountOf))
      && (forall r :: r in rows <==> RowOfSome(x, b.inputs, b.events, r))
      && Chosen(x, rows).Some? && FinderOk(x, b.inputs, rows)
      && var o := Allocate(Chosen(x, rows).value, b.inputs.distributable, b.inputs.finder, Percentage(x));
         o.Success? && o.value == Outcome(Audited(x, b, expected).value.paid, Audited(x, b, expected).value.dust)
  {
    hide RewardOk, Chosen, FinderOk, Allocate, BundleOctets, Table, NoDuplicates, AllRows, RowOfSome, Integrity;
    var rows := Gathered(x, b.inputs, b.events).value;
    forall r
      ensures r in rows <==> RowOfSome(x, b.inputs, b.events, r)
    {
      RowsAre(x, b.inputs, b.events, r);
    }
    forall e | e in b.events
      ensures Integrity(x, e) && x.parse(e.payload).Some?
    {
      RowsAre(x, b.inputs, b.events, Row(W.Share(KeyOf(e), [], 0, 0), [], false));
    }
  }

  // ------------------------------------------------------------------ the order of events and deductions

  lemma JoinedMultiset(a: Option<seq<Row>>, b: Option<seq<Row>>)
    ensures Join(a, b).Some? <==> a.Some? && b.Some?
    ensures Join(a, b).Some? ==> multiset(Join(a, b).value) == multiset(a.value) + multiset(b.value)
  {
  }

  lemma RowsSnoc(x: Settings, i: Inputs, es: seq<AuditEvent>)
    requires es != []
    ensures var before, last := AllRows(x, i, es[..|es| - 1]), EventRows(x, i, es[|es| - 1]);
      && (AllRows(x, i, es).Some? <==> before.Some? && last.Some?)
      && (AllRows(x, i, es).Some? ==>
            multiset(AllRows(x, i, es).value) == multiset(before.value) + multiset(last.value))
  {
    hide EventRows;
    JoinedMultiset(AllRows(x, i, es[..|es| - 1]), EventRows(x, i, es[|es| - 1]));
  }

  // Taking one event out takes exactly its rows out.
  lemma {:induction false} RowsWithout(x: Settings, i: Inputs, es: seq<AuditEvent>, k: nat)
    requires k < |es|
    ensures AllRows(x, i, es).Some? <==> EventRows(x, i, es[k]).Some? && AllRows(x, i, Without(es, k)).Some?
    ensures AllRows(x, i, es).Some? ==>
      multiset(AllRows(x, i, es).value)
        == multiset(EventRows(x, i, es[k]).value) + multiset(AllRows(x, i, Without(es, k)).value)
  {
    hide EventRows, AllRows;
    var es0 := es[..|es| - 1];
    RowsSnoc(x, i, es);
    if k == |es| - 1 {
      assert Without(es, k) == es0;
    } else {
      RowsWithout(x, i, es0, k);
      var w := Without(es, k);
      assert w[..|w| - 1] == Without(es0, k) && w[|w| - 1] == es[|es| - 1];
      RowsSnoc(x, i, w);
    }
  }

  lemma {:induction false} RowsPermute(x: Settings, i: Inputs, es: seq<AuditEvent>, fs: seq<AuditEvent>)
    requires Permutation(es, fs)
    ensures AllRows(x, i, es).Some? <==> AllRows(x, i, fs).Some?
    ensures AllRows(x, i, es).Some? ==> Permutation(AllRows(x, i, es).value, AllRows(x, i, fs).value)
  {
    hide EventRows, AllRows;
    PermutationElements(es, fs);
    if es == [] {
      assert fs == [];
    } else {
      var k := Partner(es, fs);
      RowsPermute(x, i, es[1..], Without(fs, k));
      RowsWithout(x, i, es, 0);
      RowsWithout(x, i, fs, k);
      assert Without(es, 0) == es[1..];
    }
  }

  lemma GatheredPermutes(x: Settings, i: Inputs, es: seq<AuditEvent>, fs: seq<AuditEvent>)
    requires Permutation(es, fs)
    ensures Gathered(x, i, es).Some? <==> Gathered(x, i, fs).Some?
    ensures Gathered(x, i, es).Some? ==>
      Permutation(Gathered(x, i, es).value, Gathered(x, i, fs).value)
      && NoDuplicates(Map(Gathered(x, i, es).value, AccountOf))
  {
    hide AllRows, NoDuplicates, Permutation;
    RowsPermute(x, i, es, fs);
    DistinctPermutes(es, fs, KeyOf);
    if AllRows(x, i, es).Some? {
      DistinctPermutes(AllRows(x, i, es).value, AllRows(x, i, fs).value, AccountOf);
    }
  }

  // The same shares are chosen; in scheme 3, up to order.
  lemma ChosenPermutes(x: Settings, rows: seq<Row>, rows': seq<Row>)
    requires Permutation(rows, rows')
    ensures Chosen(x, rows).Some? <==> Chosen(x, rows').Some?
    ensures Chosen(x, rows).Some? ==> Permutation(Chosen(x, rows).value, Chosen(x, rows').value)
  {
    hide W.Selection, WholeScore;
    var shares, shares' := Map(rows, ShareOf), Map(rows', ShareOf);
    MapPermutes(rows, rows', ShareOf);
    if x.scheme == 3 {
      var a, b := Map(shares, WholeScore), Map(shares', WholeScore);
      MapPermutes(shares, shares', WholeScore);
      PermutationElements(a, b);
      E.SomeMembers(a);
      E.SomeMembers(b);
      if E.AllSome(a) {
        Transfer(a, E.Values(a), b, E.Values(b));
      }
    } else {
      W.WindowOrderFree(shares, shares', x.factor);
    }
  }

  function FinderMatch(r: Row): multiset<Octets> {
    if r.finder then multiset{AccountOf(r)} else multiset{}
  }

  lemma MatchesSnoc(rows: seq<Row>)
    requires rows != []
    ensures multiset(FinderMatches(rows))
      == multiset(FinderMatches(rows[..|rows| - 1])) + FinderMatch(rows[|rows| - 1])
  {
  }

  lemma {:induction false} MatchesWithout(rows: seq<Row>, k: nat)
    requires k < |rows|
    ensures multiset(FinderMatches(rows)) == multiset(FinderMatches(Without(rows, k))) + FinderMatch(rows[k])
  {
    hide FinderMatches, FinderMatch;
    var rows0 := rows[..|rows| - 1];
    MatchesSnoc(rows);
    if k == |rows| - 1 {
      assert Without(rows, k) == rows0;
    } else {
      MatchesWithout(rows0, k);
      var w := Without(rows, k);
      assert w[..|w| - 1] == Without(rows0, k);
      MatchesSnoc(w);
    }
  }

  lemma {:induction false} MatchesPermute(rows: seq<Row>, rows': seq<Row>)
    requires Permutation(rows, rows')
    ensures Permutation(FinderMatches(rows), FinderMatches(rows'))
  {
    hide FinderMatches;
    PermutationElements(rows, rows');
    if rows == [] {
      assert rows' == [];
    } else {
      var k := Partner(rows, rows');
      MatchesPermute(rows[1..], Without(rows', k));
      MatchesWithout(rows, 0);
      MatchesWithout(rows', k);
      assert Without(rows, 0) == rows[1..];
    }
  }

  lemma FinderOkPermutes(x: Settings, i: Inputs, j: Inputs, rows: seq<Row>, rows': seq<Row>)
    requires Permutation(rows, rows') && i.finder == j.finder
    ensures FinderOk(x, i, rows) <==> FinderOk(x, j, rows')
  {
    MatchesPermute(rows, rows');
    if i.finder.Some? {
      SingletonPermutes(FinderMatches(rows), FinderMatches(rows'), i.finder.value);
    }
  }

  // ------------------------------------------------------------------ the table does not depend on order

  lemma {:induction false} MinerIs(rows: seq<Row>, k: nat)
    requires k < |rows| && NoDuplicates(Map(rows, AccountOf))
    ensures MinerOf(rows, AccountOf(rows[k])) == rows[k].miner
  {
    NoDuplicatesPairwise(Map(rows, AccountOf));
    MinerIsAt(rows, k);
  }

  lemma {:induction false} MinerIsAt(rows: seq<Row>, k: nat)
    requires k < |rows| && forall a, b :: 0 <= a < b < |rows| ==> AccountOf(rows[a]) != AccountOf(rows[b])
    ensures MinerOf(rows, AccountOf(rows[k])) == rows[k].miner
  {
    if k < |rows| - 1 {
      MinerIsAt(rows[..|rows| - 1], k);
    }
  }

  lemma {:induction false} MinerMissing(rows: seq<Row>, account: Octets)
    requires account !in Map(rows, AccountOf)
    ensures MinerOf(rows, account) == []
  {
    if rows != [] {
      assert Map(rows, AccountOf)[|rows| - 1] == AccountOf(rows[|rows| - 1]);
      MinerMissing(rows[..|rows| - 1], account);
    }
  }

  lemma MinerPermutes(rows: seq<Row>, rows': seq<Row>, account: Octets)
    requires Permutation(rows, rows') && NoDuplicates(Map(rows, AccountOf))
    ensures MinerOf(rows, account) == MinerOf(rows', account)
  {
    DistinctPermutes(rows, rows', AccountOf);
    MapPermutes(rows, rows', AccountOf);
    PermutationElements(Map(rows, AccountOf), Map(rows', AccountOf));
    PermutationElements(rows, rows');
    if account in Map(rows, AccountOf) {
      var k :| 0 <= k < |rows| && AccountOf(rows[k]) == account;
      assert rows[k] in rows';
      var l :| 0 <= l < |rows'| && rows'[l] == rows[k];
      MinerIs(rows, k);
      MinerIs(rows', l);
    } else {
      MinerMissing(rows, account);
      MinerMissing(rows', account);
    }
  }

  function IdentityOf(p: Paid): Octets {
    p.identity
  }

  // The table has exactly the identities paid, each with its amount and miner.
  lemma {:induction false} TableIs(rows: seq<Row>, paid: seq<Paid>)
    requires forall a, b :: 0 <= a < b < |paid| ==> paid[a].identity != paid[b].identity
    ensures Table(rows, paid).Keys == Elements(Map(paid, IdentityOf))
    ensures forall k :: 0 <= k < |paid| ==>
      && paid[k].identity in Table(rows, paid)
      && Table(rows, paid)[paid[k].identity] == (MinerOf(rows, paid[k].identity), paid[k].amount)
  {
    hide MinerOf, Elements;
    if paid != [] {
      var paid0, p := paid[..|paid| - 1], paid[|paid| - 1];
      TableIs(rows, paid0);
      assert Map(paid, IdentityOf) == Map(paid0, IdentityOf) + [p.identity];
      ElementsSnoc(Map(paid0, IdentityOf), p.identity);
    } else {
      assert Map(paid, IdentityOf) == [];
      EmptyDistinct<Octets>();
    }
  }

  lemma TablePermutes(rows: seq<Row>, rows': seq<Row>, paid: seq<Paid>, paid': seq<Paid>)
    requires Permutation(rows, rows') && NoDuplicates(Map(rows, AccountOf)) && Permutation(paid, paid')
    requires NoDuplicates(Map(paid, IdentityOf))
    ensures Table(rows, paid) == Table(rows', paid')
  {
    hide MinerOf, Table, NoDuplicates;
    DistinctPermutes(paid, paid', IdentityOf);
    NoDuplicatesPairwise(Map(paid, IdentityOf));
    NoDuplicatesPairwise(Map(paid', IdentityOf));
    TableIs(rows, paid);
    TableIs(rows', paid');
    MapPermutes(paid, paid', IdentityOf);
    PermutationElements(Map(paid, IdentityOf), Map(paid', IdentityOf));
    PermutationElements(paid, paid');
    var t, t' := Table(rows, paid), Table(rows', paid');
    forall k | k in t.Keys
      ensures t[k] == t'[k]
    {
      var a :| 0 <= a < |paid| && Map(paid, IdentityOf)[a] == k;
      assert paid[a] in paid';
      var b :| 0 <= b < |paid'| && paid'[b] == paid[a];
      MinerPermutes(rows, rows', k);
    }
  }

  // Identities paid are distinct.
  lemma PaidDistinct(selected: seq<W.Selected>, reward: string, finder: Option<Octets>, percentage: string)
    requires Allocate(selected, reward, finder, percentage).Success?
    ensures NoDuplicates(Map(Allocate(selected, reward, finder, percentage).value.paid, IdentityOf))
  {
    hide DecimalOf, Amount;
    var paid := Allocate(selected, reward, finder, percentage).value.paid;
    SelectedPairwise(selected);
    forall a, b | 0 <= a < b < |paid|
      ensures paid[a].identity != paid[b].identity
    {
      PaidParts(selected, reward, finder, percentage, a);
      PaidParts(selected, reward, finder, percentage, b);
      if b >= |selected| {
        assert selected[a] in selected;
      }
    }
    NoDuplicatesPairwise(Map(paid, IdentityOf));
  }

  // ------------------------------------------------------------------ the audit does not depend on order

  // The same bundle, with its events and its deductions in another order.
  ghost predicate Rearranged(b: Bundle, c: Bundle) {
    && Permutation(b.events, c.events)
    && Permutation(b.inputs.deductions, c.inputs.deductions)
    && c == b.(events := c.events, inputs := b.inputs.(deductions := c.inputs.deductions))
  }

  lemma RewardPermutes(i: Inputs, j: Inputs)
    requires Permutation(i.deductions, j.deductions) && j == i.(deductions := j.deductions)
    ensures RewardOk(i) <==> RewardOk(j)
  {
    hide DecimalOf, NoDuplicates, DeductionValue;
    PermutationElements(i.deductions, j.deductions);
    DistinctPermutes(i.deductions, j.deductions, DestinationOf);
    MapPermutes(i.deductions, j.deductions, DeductionValue);
    SumPermutes(Map(i.deductions, DeductionValue), Map(j.deductions, DeductionValue));
  }

  lemma ListNorm<T>(s: seq<T>, t: seq<T>, f: T -> E.Val)
    requires Permutation(s, t)
    ensures E.Norm(E.List(Map(s, f))) == E.Norm(E.List(Map(t, f)))
  {
    hide E.Norm;
    var a, b := Map(s, f), Map(t, f);
    MapPermutes(s, t, f);
    Transfer(a, E.Norms(a), b, E.Norms(b));
    E.NormOfList(E.List(a));
    E.NormOfList(E.List(b));
  }

  // Objects with alike fields are alike.
  lemma ObjectNorm(v: E.Val, w: E.Val)
    requires v.Object? && w.Object? && v.fields.Keys == w.fields.Keys
    requires forall k :: k in v.fields ==> E.Norm(v.fields[k]) == E.Norm(w.fields[k])
    ensures E.Norm(v) == E.Norm(w)
  {
    var m, n := E.Norm(v).named, E.Norm(w).named;
    assert m.Keys == v.fields.Keys && n.Keys == w.fields.Keys;
    assert m == n;
  }

  lemma InputsNorm(i: Inputs, j: Inputs)
    requires Permutation(i.deductions, j.deductions) && j == i.(deductions := j.deductions)
    ensures E.Norm(InputsVal(i)) == E.Norm(InputsVal(j))
  {
    hide E.Norm, Permutation;
    ListNorm(i.deductions, j.deductions, DeductionVal);
    var v, w := InputsVal(i).fields, InputsVal(j).fields;
    assert v.Keys == w.Keys;
    forall k | k in v
      ensures E.Norm(v[k]) == E.Norm(w[k])
    {
      assert k != "deductions" ==> v[k] == w[k];
    }
    ObjectNorm(InputsVal(i), InputsVal(j));
  }

  lemma DigestPermutes(b: Bundle, c: Bundle)
    requires Rearranged(b, c)
    ensures BundleOctets(b) == BundleOctets(c)
  {
    hide E.Norm, InputsVal, Permutation, E.Encode;
    ListNorm(b.events, c.events, EventVal);
    InputsNorm(b.inputs, c.inputs);
    ObjectNorm(BundleVal(b), BundleVal(c));
    E.EncodeOrderFree(R.SCHEMAS, R.BUNDLE, BundleVal(b), BundleVal(c));
  }

  // The same settlement, up to the order of the list of payments.
  ghost predicate SameSettlement(s: Settled, t: Settled) {
    s.amounts == t.amounts && s.dust == t.dust && s.digest == t.digest && Permutation(s.paid, t.paid)
  }

  // Rearranging a bundle's events or deductions changes neither acceptance nor amounts, dust or digest, in every
  // scheme.
  lemma SettleOrderFree(x: Settings, b: Bundle, c: Bundle)
    requires Rearranged(b, c)
    ensures Settle(x, b).Some? <==> Settle(x, c).Some?
    ensures Settle(x, b).Some? ==> SameSettlement(Settle(x, b).value, Settle(x, c).value)
  {
    hide RewardOk, Gathered, Chosen, FinderOk, Allocate, BundleOctets, Table, NoDuplicates, Permutation;
    var i, j := b.inputs, c.inputs;
    RearrangedParts(b, c);
    RewardPermutes(i, j);
    DigestPermutes(b, c);
    GatheredAlike(x, i, j, c.events);
    GatheredPermutes(x, i, b.events, c.events);
    if Gathered(x, i, b.events).Some? {
      var rows, rows' := Gathered(x, i, b.events).value, Gathered(x, j, c.events).value;
      ChosenPermutes(x, rows, rows');
      FinderOkPermutes(x, i, j, rows, rows');
      if Chosen(x, rows).Some? {
        var s, s' := Chosen(x, rows).value, Chosen(x, rows').value;
        AllocateOrderFree(s, s', i.distributable, i.finder, Percentage(x));
        if Allocate(s, i.distributable, i.finder, Percentage(x)).Success? {
          PaidDistinct(s, i.distributable, i.finder, Percentage(x));
          TablePermutes(rows, rows', Allocate(s, i.distributable, i.finder, Percentage(x)).value.paid,
            Allocate(s', i.distributable, i.finder, Percentage(x)).value.paid);
        }
      }
    }
  }

  lemma RearrangedParts(b: Bundle, c: Bundle)
    requires Rearranged(b, c)
    ensures Permutation(b.events, c.events) && Permutation(b.inputs.deductions, c.inputs.deductions)
    ensures c.inputs == b.inputs.(deductions := c.inputs.deductions)
  {
  }

  // Rows do not look at the deductions.
  lemma GatheredAlike(x: Settings, i: Inputs, j: Inputs, es: seq<AuditEvent>)
    requires j == i.(deductions := j.deductions)
    ensures Gathered(x, i, es) == Gathered(x, j, es)
  {
    AllRowsAlike(x, i, j, es);
  }

  lemma {:induction false} AllRowsAlike(x: Settings, i: Inputs, j: Inputs, es: seq<AuditEvent>)
    requires j == i.(deductions := j.deductions)
    ensures AllRows(x, i, es) == AllRows(x, j, es)
  {
    hide Integrity;
    if es != [] {
      AllRowsAlike(x, i, j, es[..|es| - 1]);
      var e := es[|es| - 1];
      if x.parse(e.payload).Some? {
        ProjectionRowsAlike(x, i, j, e, x.parse(e.payload).value);
      }
    }
  }

  lemma {:induction false} ProjectionRowsAlike(x: Settings, i: Inputs, j: Inputs, e: AuditEvent, ps: seq<Projection>)
    requires j == i.(deductions := j.deductions)
    ensures ProjectionRows(x, i, e, ps) == ProjectionRows(x, j, e, ps)
  {
    hide Adjusted;
    if ps != [] {
      ProjectionRowsAlike(x, i, j, e, ps[..|ps| - 1]);
    }
  }

  lemma AuditOrderFree(x: Settings, b: Bundle, c: Bundle, expected: map<Octets, (Octets, string)>)
    requires Rearranged(b, c)
    ensures Audited(x, b, expected).Some? <==> Audited(x, c, expected).Some?
    ensures Audited(x, b, expected).Some? ==>
      SameSettlement(Audited(x, b, expected).value, Audited(x, c, expected).value)
  {
    hide Settle;
    SettleOrderFree(x, b, c);
  }
}
