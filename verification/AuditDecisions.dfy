// What the audit's checks mean one by one, and exactly when a bundle settles.
module AuditDecisions {
  import opened Wrappers
  import opened Arithmetic
  import opened Bytes
  import opened Collections
  import opened Binary64
  import opened Binary64Rounding
  import opened Binary64Theorems
  import opened Decimal
  import W = Window
  import opened Allocation
  import E = Encoding
  import EncodingTypes
  import R = Requests
  import Wire
  import Stream
  import opened Audit

  // ------------------------------------------------------------------ event hashes

  // The event as the relay sees it.
  function RelayEvent(e: AuditEvent): Stream.Event {
    Stream.Event(e.sequence, e.eventType, e.scope, e.time, e.relay, e.payload)
  }

  // For the relay's lane the audit hashes exactly what the relay hashes: same fields, same order, same widths.
  lemma PreimageIsRelays(hash: Octets -> Octets, e: AuditEvent, boundaryOf: Octets -> Option<int>)
    requires EventPreimage(hash, e).Some? && e.lane == 0 && e.time >= 0
    ensures e.sequence >= 0 && e.eventType >= 0
    ensures EventPreimage(hash, e).value
         == Wire.ChainPreimage(Wire.Identity(hash, boundaryOf, e.sender, e.epoch), e.previous, RelayEvent(e))
  {
    hide BigEndian;
    ZeroOctet();
    assert Wire.PayloadPreimage(e.payload) == Wire.PAYLOAD_TAG + E.Prefixed(e.payload).value;
  }

  lemma ZeroOctet()
    ensures BigEndian(1, 0) == [0]
  {
    BigEndianSnoc(1, 0);
    assert BigEndian(0, 0) == [];
  }

  ghost predicate Widths(e: AuditEvent) {
    |e.previous| == 32 && |e.sender| == 16 && |e.epoch| == 16 && |e.relay| == 16
  }

  // The preimage determines every field but the payload, and the payload's hash.
  lemma PreimageDetermines(hash: Octets -> Octets, e: AuditEvent, f: AuditEvent)
    requires EventPreimage(hash, e).Some? && EventPreimage(hash, e) == EventPreimage(hash, f) && Widths(e) && Widths(f)
    ensures e.(payload := [], chain := []) == f.(payload := [], chain := [])
    ensures hash(Wire.PAYLOAD_TAG + E.Prefixed(e.payload).value) == hash(Wire.PAYLOAD_TAG + E.Prefixed(f.payload).value)
  {
    hide BigEndian, Fits, E.Integer, E.SignedInteger, E.Prefixed;
    var l, l' := E.Integer(1, e.lane).value, E.Integer(1, f.lane).value;
    var n, n' := E.Integer(8, e.sequence).value, E.Integer(8, f.sequence).value;
    var y, y' := E.Integer(2, e.eventType).value, E.Integer(2, f.eventType).value;
    var w, w' := E.Integer(2, |e.scope|).value, E.Integer(2, |f.scope|).value;
    var t, t' := E.SignedInteger(e.time).value, E.SignedInteger(f.time).value;
    var h := hash(Wire.PAYLOAD_TAG + E.Prefixed(e.payload).value);
    var h' := hash(Wire.PAYLOAD_TAG + E.Prefixed(f.payload).value);
    var e1, f1 := t + h, t' + h';
    var e2, f2 := e.scope + e1, f.scope + f1;
    var e3, f3 := w + e2, w' + f2;
    var e4, f4 := e.relay + e3, f.relay + f3;
    var e5, f5 := y + e4, y' + f4;
    var e6, f6 := n + e5, n' + f5;
    var e7, f7 := l + e6, l' + f6;
    var e8, f8 := e.epoch + e7, f.epoch + f7;
    var e9, f9 := e.sender + e8, f.sender + f8;
    SplitAt(Wire.EVENT_TAG, e.previous + e9, Wire.EVENT_TAG, f.previous + f9);
    SplitAt(e.previous, e9, f.previous, f9);
    SplitAt(e.sender, e8, f.sender, f8);
    SplitAt(e.epoch, e7, f.epoch, f7);
    E.IntegerSplits(1, e.lane, f.lane, e6, f6);
    E.IntegerSplits(8, e.sequence, f.sequence, e5, f5);
    E.IntegerSplits(2, e.eventType, f.eventType, e4, f4);
    SplitAt(e.relay, e3, f.relay, f3);
    E.IntegerSplits(2, |e.scope|, |f.scope|, e2, f2);
    SplitAt(e.scope, e1, f.scope, f1);
    E.SignedSplits(e.time, f.time, h, h');
  }

  // ------------------------------------------------------------------ adjusted difficulties

  lemma ProductEqual(d: Rational, v: real, q: Rational)
    requires q.num * d.den * UNIT == q.den * d.num * (v * UNIT as real).Floor
    ensures Equal(Times(d, FractionOf(v)), q)
  {
    var n := (v * UNIT as real).Floor;
    assert d.num * n * q.den == q.den * d.num * n;
    assert q.num * (d.den * UNIT) == q.num * d.den * UNIT;
  }

  // The adjusted difficulty is the product of difficulty and adjustment, correctly rounded: for any fraction q that
  // stands for the product, it exists exactly when q is in the range of binary64, and is a pattern correctly rounded
  // from q.
  lemma AdjustedExactly(difficulty: nat, adjustment: string, q: Rational)
    requires Decode(BINARY64, difficulty).Success? && DecimalOf(adjustment).Success?
    requires var d, units := Decode(BINARY64, difficulty).value, (DecimalOf(adjustment).value * UNIT as real).Floor;
      q.num * d.den * UNIT == q.den * d.num * units
    ensures Adjusted(difficulty, adjustment).Some?
      <==> Less(UnderflowBound(BINARY64), q) && Less(q, OverflowBound(BINARY64))
    ensures Adjusted(difficulty, adjustment).Some? ==>
      CorrectlyRounded(BINARY64, q, Adjusted(difficulty, adjustment).value)
  {
    hide Decode, Round, Less, UnderflowBound, OverflowBound, CorrectlyRounded, DecimalOf, Times, FractionOf;
    var d, v := Decode(BINARY64, difficulty).value, DecimalOf(adjustment).value;
    ProductEqual(d, v, q);
    RoundOfEqual(BINARY64, Times(d, FractionOf(v)), q);
    AcceptanceRange(BINARY64, q);
    if Round(BINARY64, q).Success? {
      CorrectRounding(BINARY64, q);
      RoundedNonnegative(q);
    }
  }

  lemma RoundedNonnegative(q: Rational)
    requires Round(BINARY64, q).Success? && CorrectlyRounded(BINARY64, q, Round(BINARY64, q).value)
    ensures Round(BINARY64, q).value >= 0
  {
    hide Round;
  }

  lemma AdjustedNeeds(difficulty: nat, adjustment: string)
    ensures Adjusted(difficulty, adjustment).Some? ==>
      Decode(BINARY64, difficulty).Success? && DecimalOf(adjustment).Success?
  {
    hide Decode, Round, DecimalOf, Times, FractionOf;
  }

  // ------------------------------------------------------------------ rows

  // What the row of a projection holds.
  predicate RowHolds(x: Settings, i: Inputs, e: AuditEvent, p: Projection, r: Row) {
    && p.created == e.time && p.scope == x.scope
    && r.share.key.time == e.time && r.share.key.sender == e.sender
    && r.share.key.sequence == e.sequence && r.share.key.relay == e.relay
    && r.share.account == p.account && r.share.network == p.network
    && Adjusted(p.difficulty, x.adjustment) == Some(r.share.difficulty)
    && r.miner == p.miner
    && (r.finder <==> p.candidate && p.candidateHash == i.blockHash && p.blockHeight == i.blockHeight)
  }

  lemma RowExactly(x: Settings, i: Inputs, e: AuditEvent, p: Projection, r: Row)
    ensures RowFrom(x, i, e, p, r) <==> RowHolds(x, i, e, p, r)
  {
    hide Adjusted;
    if RowHolds(x, i, e, p, r) {
      assert r == Row(W.Share(KeyOf(e), p.account, r.share.difficulty, p.network), p.miner, IsFinder(i, p));
    }
  }

  // The event is intact, its payload parses, every projection carries the event's time, and the difficulties of those
  // in scope can be adjusted.
  ghost predicate EventFine(x: Settings, e: AuditEvent) {
    && e.eventType == 512 && e.lane == 0 && EventHash(x.hash, e) == Some(e.chain)
    && x.parse(e.payload).Some?
    && forall p :: p in x.parse(e.payload).value ==>
         p.created == e.time && (p.scope == x.scope ==> Adjusted(p.difficulty, x.adjustment).Some?)
  }

  lemma {:induction false} ProjectionsExactly(x: Settings, i: Inputs, e: AuditEvent, ps: seq<Projection>)
    ensures ProjectionRows(x, i, e, ps).Some? <==> forall p :: p in ps ==>
      p.created == e.time && (p.scope == x.scope ==> Adjusted(p.difficulty, x.adjustment).Some?)
  {
    hide Adjusted;
    if ps != [] {
      ProjectionsExactly(x, i, e, ps[..|ps| - 1]);
      assert ps == ps[..|ps| - 1] + [ps[|ps| - 1]];
    }
  }

  // The rows of a bundle can be gathered exactly when every event is fine.
  lemma {:induction false} RowsExactly(x: Settings, i: Inputs, es: seq<AuditEvent>)
    ensures AllRows(x, i, es).Some? <==> forall e :: e in es ==> EventFine(x, e)
  {
    if es != [] {
      hide Adjusted, EventHash, ProjectionRows, EventFine;
      RowsExactly(x, i, es[..|es| - 1]);
      EventExactly(x, i, es[|es| - 1]);
      assert es == es[..|es| - 1] + [es[|es| - 1]];
    }
  }

  lemma EventExactly(x: Settings, i: Inputs, e: AuditEvent)
    ensures EventRows(x, i, e).Some? <==> EventFine(x, e)
  {
    hide Adjusted, EventHash, ProjectionRows;
    if x.parse(e.payload).Some? {
      ProjectionsExactly(x, i, e, x.parse(e.payload).value);
    }
  }

  // ------------------------------------------------------------------ the finder

  // Row k is the only one marked as the block's finder.
  predicate OnlyFinder(rows: seq<Row>, k: int) {
    && 0 <= k < |rows| && rows[k].finder
    && forall j :: 0 <= j < |rows| && rows[j].finder ==> j == k
  }

  // No row is marked.
  predicate NoFinder(rows: seq<Row>) {
    forall j :: 0 <= j < |rows| ==> !rows[j].finder
  }

  // One more row, marked or not.
  lemma MarksSnoc(rows: seq<Row>, r: Row, k: int)
    ensures NoFinder(rows + [r]) <==> NoFinder(rows) && !r.finder
    ensures OnlyFinder(rows + [r], k) <==>
      if r.finder then k == |rows| && NoFinder(rows) else OnlyFinder(rows, k)
  {
    var all := rows + [r];
    assert all[|rows|] == r;
    assert forall j :: 0 <= j < |rows| ==> all[j] == rows[j];
  }

  lemma {:induction false} MatchesAre(rows: seq<Row>)
    ensures FinderMatches(rows) == [] <==> NoFinder(rows)
    ensures |FinderMatches(rows)| == 1 <==> exists k :: OnlyFinder(rows, k)
    ensures forall k :: OnlyFinder(rows, k) ==> FinderMatches(rows) == [rows[k].share.account]
  {
    if rows != [] {
      var rows0, r := rows[..|rows| - 1], rows[|rows| - 1];
      MatchesAre(rows0);
      assert rows == rows0 + [r];
      hide OnlyFinder, NoFinder;
      forall k
        ensures NoFinder(rows) <==> NoFinder(rows0) && !r.finder
        ensures OnlyFinder(rows, k) <==> if r.finder then k == |rows0| && NoFinder(rows0) else OnlyFinder(rows0, k)
      {
        MarksSnoc(rows0, r, k);
      }
      MarkedInside(rows0);
      if r.finder && NoFinder(rows0) {
        assert OnlyFinder(rows, |rows0|);
      } else if k :| OnlyFinder(rows0, k) {
        assert !r.finder ==> OnlyFinder(rows, k);
      }
    }
  }

  lemma MarkedInside(rows: seq<Row>)
    ensures forall k :: OnlyFinder(rows, k) ==> 0 <= k < |rows|
  {
  }

  // In scheme 2 exactly one row found the block, and it is the named finder's; otherwise no finder is named.
  lemma FinderExactly(x: Settings, i: Inputs, rows: seq<Row>)
    ensures FinderOk(x, i, rows) <==>
      if x.scheme == 2 then exists k :: OnlyFinder(rows, k) && i.finder == Some(rows[k].share.account)
      else i.finder == None
  {
    MatchesAre(rows);
    if x.scheme == 2 && FinderOk(x, i, rows) {
      assert |FinderMatches(rows)| == 1;
      var k :| OnlyFinder(rows, k);
    }
  }

  // ------------------------------------------------------------------ when a bundle settles

  // Distinct named deductions in canonical decimals make up the difference of gross and distributable reward.
  predicate RewardStands(i: Inputs) {
    && DecimalOf(i.gross).Success? && DecimalOf(i.distributable).Success?
    && (forall d :: d in i.deductions ==> d.destination != [] && DecimalOf(d.amount).Success?)
    && (forall j, k :: 0 <= j < k < |i.deductions| ==> i.deductions[j].destination != i.deductions[k].destination)
    && DecimalOf(i.gross).value - Deducted(i.deductions) == DecimalOf(i.distributable).value
  }

  lemma RewardExactly(i: Inputs)
    ensures RewardOk(i) <==> RewardStands(i)
  {
    hide DecimalOf, Deducted, NoDuplicates;
    var names := Map(i.deductions, DestinationOf);
    NoDuplicatesPairwise(names);
    assert forall k :: 0 <= k < |names| ==> names[k] == i.deductions[k].destination;
  }

  // The shares can be weighed: in scheme 3 each has a score; otherwise the factor is canonical and positive, no two
  // shares have the same place in the order, and no share without a score is reached.
  ghost predicate Weighable(x: Settings, shares: seq<W.Share>) {
    if x.scheme == 3 then W.AllScored(shares)
    else
      && DecimalOf(x.factor).Success? && DecimalOf(x.factor).value > 0.0
      && W.PairwiseKeys(shares) && !W.Scoreless(shares, DecimalOf(x.factor).value)
  }

  // Accounts are distinct and contributions positive.
  ghost predicate Payable(selected: seq<W.Selected>) {
    && (forall s :: s in selected ==> s.contribution > 0.0)
    && forall j, k :: 0 <= j < k < |selected| ==> selected[j].account != selected[k].account
  }

  lemma PairwiseShares(rows: seq<Row>)
    ensures NoDuplicates(Map(rows, AccountOf)) <==> W.PairwiseAccounts(Map(rows, ShareOf))
  {
    var accounts, shares := Map(rows, AccountOf), Map(rows, ShareOf);
    NoDuplicatesPairwise(accounts);
    assert forall k :: 0 <= k < |rows| ==> accounts[k] == shares[k].account;
  }

  lemma WholeExactly(shares: seq<W.Share>)
    requires W.PairwiseAccounts(shares)
    ensures var whole := Map(shares, WholeScore);
      && (E.AllSome(whole) <==> W.AllScored(shares))
      && (E.AllSome(whole) ==> |E.Values(whole)| == |shares| && Payable(E.Values(whole)))
  {
    hide W.Score;
    var whole := Map(shares, WholeScore);
    assert forall k :: 0 <= k < |shares| ==> whole[k] == WholeScore(shares[k]);
    assert forall k :: 0 <= k < |shares| ==> (whole[k].Some? <==> W.Score(shares[k]).Success?);
  }

  lemma WindowPayable(shares: seq<W.Share>, factor: string)
    requires W.PairwiseAccounts(shares) && W.Selection(shares, factor).Success?
    ensures var s := W.Selection(shares, factor).value; Payable(s) && (s == [] <==> shares == [])
  {
    hide W.Score, W.Selection, Sort, DecimalOf, Permutation, NoDuplicates, W.Descending;
    W.SelectionExactly(shares, factor);
    W.WindowContents(shares, factor);
    var s, sorted := W.Selection(shares, factor).value, Sort(shares, W.NotAfter);
    assert forall i :: 0 <= i < |s| ==> W.Selects(sorted, s, i);
    PermutationElements(sorted, shares);
    DistinctPermutes(sorted, shares, W.AccountOf);
    var a, b := Map(shares, W.AccountOf), Map(sorted, W.AccountOf);
    NoDuplicatesPairwise(a);
    NoDuplicatesPairwise(b);
    assert forall k :: 0 <= k < |shares| ==> a[k] == shares[k].account;
    assert forall k :: 0 <= k < |sorted| ==> b[k] == sorted[k].account;
    forall c | c in s
      ensures c.contribution > 0.0
    {
      var k :| 0 <= k < |s| && s[k] == c;
      assert W.Selects(sorted, s, k);
    }
    forall j, k | 0 <= j < k < |s|
      ensures s[j].account != s[k].account
    {
      assert W.Selects(sorted, s, j) && W.Selects(sorted, s, k);
      assert b[j] != b[k];
    }
  }

  lemma ChosenExactly(x: Settings, rows: seq<Row>)
    requires NoDuplicates(Map(rows, AccountOf))
    ensures Chosen(x, rows).Some? <==> Weighable(x, Map(rows, ShareOf))
    ensures Chosen(x, rows).Some? ==>
      Payable(Chosen(x, rows).value) && (Chosen(x, rows).value == [] <==> rows == [])
  {
    hide W.Selection, W.Score, W.Scoreless, Payable;
    hide DecimalOf, NoDuplicates, W.PairwiseKeys, W.PairwiseAccounts, W.AllScored;
    hide WholeScore;
    var shares := Map(rows, ShareOf);
    PairwiseShares(rows);
    WholeExactly(shares);
    W.SelectionExactly(shares, x.factor);
    if W.Selection(shares, x.factor).Success? {
      WindowPayable(shares, x.factor);
    }
  }

  // What each row counts for: in scheme 3 its whole score, otherwise what the window makes of it.
  predicate Weighs(x: Settings, rows: seq<Row>, selected: seq<W.Selected>) {
    if x.scheme == 3 then
      && |selected| == |rows|
      && forall k :: 0 <= k < |rows| ==>
           && W.Score(rows[k].share).Success?
           && selected[k] == W.Selected(rows[k].share.account, W.Score(rows[k].share).value, 1.0)
    else W.Selection(Map(rows, ShareOf), x.factor) == Success(selected)
  }

  lemma WeighsExactly(x: Settings, rows: seq<Row>, selected: seq<W.Selected>)
    ensures Chosen(x, rows) == Some(selected) <==> Weighs(x, rows, selected)
  {
    hide W.Score, W.Selection;
    var shares := Map(rows, ShareOf);
    var whole := Map(shares, WholeScore);
    assert forall k :: 0 <= k < |rows| ==> whole[k] == WholeScore(rows[k].share);
    if x.scheme == 3 && Weighs(x, rows, selected) {
      assert E.Values(whole) == selected;
    }
  }

  lemma ZeroDecimal()
    ensures DecimalOf("0") == Success(0.0)
  {
  }

  // The rows settle: some row, identities distinct, shares weighable; the finder known where one is paid, and paid a
  // canonical part below one hundred.
  ghost predicate RowsSettle(x: Settings, i: Inputs, rows: seq<Row>) {
    && rows != []
    && (forall j, k :: 0 <= j < k < |rows| ==> rows[j].share.account != rows[k].share.account)
    && Weighable(x, Map(rows, ShareOf))
    && if x.scheme == 2 then
         && (exists k :: OnlyFinder(rows, k) && i.finder == Some(rows[k].share.account))
         && DecimalOf(x.percentage).Success? && DecimalOf(x.percentage).value < 100.0
       else i.finder == None
  }

  // A bundle settles exactly when its reward stands, it binds the finder's percentage, every event is fine and occurs
  // once, the rows settle, and its encoding exists.
  lemma SettleExactly(x: Settings, b: Bundle)
    ensures Settle(x, b).Some? <==>
      && RewardStands(b.inputs)
      && b.inputs.finderPercentage == (if x.scheme == 2 then x.percentage else "0")
      && (forall e :: e in b.events ==> EventFine(x, e))
      && (forall j, k :: 0 <= j < k < |b.events| ==> KeyOf(b.events[j]) != KeyOf(b.events[k]))
      && (forall rows :: AllRows(x, b.inputs, b.events) == Some(rows) ==> RowsSettle(x, b.inputs, rows))
      && BundleOctets(b).Some?
  {
    hide RewardOk, EventFine, AllRows, NoDuplicates, RowsSettle, Chosen, FinderOk, Allocate, BundleOctets;
    hide Table, DecimalOf;
    var i := b.inputs;
    RewardExactly(i);
    RowsExactly(x, i, b.events);
    var keys := Map(b.events, KeyOf);
    NoDuplicatesPairwise(keys);
    assert forall k :: 0 <= k < |keys| ==> keys[k] == KeyOf(b.events[k]);
    if RewardOk(i) && i.finderPercentage == Percentage(x) && AllRows(x, i, b.events).Some? {
      RowsSettleExactly(x, i, AllRows(x, i, b.events).value);
    }
  }

  lemma RowsSettleExactly(x: Settings, i: Inputs, rows: seq<Row>)
    requires DecimalOf(i.distributable).Success?
    ensures RowsSettle(x, i, rows) <==>
      && NoDuplicates(Map(rows, AccountOf)) && Chosen(x, rows).Some? && FinderOk(x, i, rows)
      && Allocate(Chosen(x, rows).value, i.distributable, i.finder, Percentage(x)).Success?
  {
    hide Chosen, FinderOk, Allocate, DecimalOf, NoDuplicates, OnlyFinder, Weighable;
    var accounts := Map(rows, AccountOf);
    NoDuplicatesPairwise(accounts);
    assert forall k :: 0 <= k < |rows| ==> accounts[k] == rows[k].share.account;
    FinderExactly(x, i, rows);
    ZeroDecimal();
    if NoDuplicates(accounts) {
      ChosenExactly(x, rows);
      if Chosen(x, rows).Some? {
        var selected := Chosen(x, rows).value;
        assert selected != [] ==> selected[0] in selected;
        AllocatesExactly(Chosen(x, rows).value, i.distributable, i.finder, Percentage(x));
      }
    }
  }

  // ------------------------------------------------------------------ what a settlement lists

  // Payment p goes to the account of a row, and is listed with that row's miner.
  ghost predicate Listed(s: Settled, rows: seq<Row>, p: Paid) {
    && p.identity in s.amounts
    && exists k :: 0 <= k < |rows| && rows[k].share.account == p.identity
                   && s.amounts[p.identity] == (rows[k].miner, p.amount)
  }

  // An account chosen is the account of a row.
  lemma ChosenFromRows(x: Settings, rows: seq<Row>, c: W.Selected)
    requires Chosen(x, rows).Some? && c in Chosen(x, rows).value
    ensures exists k :: 0 <= k < |rows| && rows[k].share.account == c.account
  {
    hide W.Score, W.Selection, Sort, W.Total, DecimalOf, W.Descending;
    var shares, s := Map(rows, ShareOf), Chosen(x, rows).value;
    var k :| 0 <= k < |s| && s[k] == c;
    if x.scheme == 3 {
      assert Map(shares, WholeScore)[k] == WholeScore(shares[k]);
    } else {
      W.WindowContents(shares, x.factor);
      var sorted := Sort(shares, W.NotAfter);
      PermutationElements(sorted, shares);
      assert W.Selects(sorted, s, k);
      assert sorted[k] in shares;
    }
  }

  // A settlement lists exactly its payments, each beside the miner of the row its account belongs to.
  lemma SettledLists(x: Settings, b: Bundle)
    requires Settle(x, b).Some?
    ensures var s, rows := Settle(x, b).value, AllRows(x, b.inputs, b.events).value;
      && s.amounts.Keys == (set p | p in s.paid :: p.identity)
      && forall p :: p in s.paid ==> Listed(s, rows, p)
  {
    hide RewardOk, EventFine, AllRows, NoDuplicates, Chosen;
    hide FinderOk, Allocate, BundleOctets, Table, DecimalOf, MinerOf;
    hide Elements;
    var i, s, rows := b.inputs, Settle(x, b).value, AllRows(x, b.inputs, b.events).value;
    var selected := Chosen(x, rows).value;
    PaidDistinct(selected, i.distributable, i.finder, Percentage(x));
    NoDuplicatesPairwise(Map(s.paid, IdentityOf));
    var ids := Map(s.paid, IdentityOf);
    assert forall k :: 0 <= k < |ids| ==> ids[k] == s.paid[k].identity;
    TableIs(rows, s.paid);
    MapElements(s.paid, IdentityOf);
    forall p | p in s.paid
      ensures Listed(s, rows, p)
    {
      var j :| 0 <= j < |s.paid| && s.paid[j] == p;
      PaidIsRow(x, i, rows, j);
      var k :| 0 <= k < |rows| && rows[k].share.account == p.identity;
      MinerIs(rows, k);
      assert AccountOf(rows[k]) == p.identity;
    }
  }

  lemma PaidIsRow(x: Settings, i: Inputs, rows: seq<Row>, j: nat)
    requires Chosen(x, rows).Some? && FinderOk(x, i, rows)
    requires var o := Allocate(Chosen(x, rows).value, i.distributable, i.finder, Percentage(x));
      o.Success? && j < |o.value.paid|
    ensures var o := Allocate(Chosen(x, rows).value, i.distributable, i.finder, Percentage(x));
      exists k :: 0 <= k < |rows| && rows[k].share.account == o.value.paid[j].identity
  {
    hide Chosen, FinderOk, Allocate, DecimalOf, Amount;
    var selected := Chosen(x, rows).value;
    PaidParts(selected, i.distributable, i.finder, Percentage(x), j);
    if j < |selected| {
      ChosenFromRows(x, rows, selected[j]);
    } else {
      FinderExactly(x, i, rows);
      assert x.scheme == 2;
      var k :| OnlyFinder(rows, k) && i.finder == Some(rows[k].share.account);
    }
  }
}
