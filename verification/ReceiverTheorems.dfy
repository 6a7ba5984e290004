// Batch ingest is atomic, idempotent, fenced and, for an honest sender, never refused.
module ReceiverTheorems {
  import opened Wrappers
  import opened Bytes
  import opened Stream
  import opened Sender
  import opened Receiver

  // ------------------------------------------------------------------ replays

  lemma ReplayOne(st: Stream, t: Tables, first: int, es: seq<Event>, chs: seq<Octets>, m: nat)
    requires TablesOk(st, t) && Holds(t, first, es) && Linked(st, t, first, es, chs) && m < |es|
    requires es[m].sequence == first + m
    ensures IngestOne(st, t, es[m], chs[m]) == Success(t)
  {
    hide ChainOf, TotalCharge;
    var base := Stored(t)[..first - 1];
    assert LinkedAt(st, t, first, es, chs, m);
    FindRow(t.events, first + m);
    assert RowChained(st, t, first - 1 + m);
    assert Stored(t)[..first + m] == base + es[..m + 1];
  }

  // An identical replay changes nothing.
  lemma {:induction false} ReplayPrepared(st: Stream, t: Tables, first: int, es: seq<Event>, chs: seq<Octets>, n: nat)
    requires TablesOk(st, t) && Consecutive(es, first) && Holds(t, first, es) && |chs| == |es| && n <= |es|
    requires Linked(st, t, first, es, chs)
    ensures IngestPrepared(st, t, es[..n], chs[..n]) == Success(t)
  {
    if n > 0 {
      ReplayPrepared(st, t, first, es, chs, n - 1);
      PreparedNext(st, t, es, chs, n - 1);
      ReplayOne(st, t, first, es, chs, n - 1);
    }
  }

  // Ingesting an accepted batch again is accepted, changes nothing and gives the same acknowledgement.
  lemma IngestIdempotent(st: Stream, t: Tables, owner: nat, b: Batch, windowEvents: nat, windowBytes: nat)
    requires StreamOk(st) && TablesOk(st, t) && Ingest(st, t, owner, b, windowEvents, windowBytes).Success?
    ensures var t' := Ingest(st, t, owner, b, windowEvents, windowBytes).value;
      Ingest(st, t', owner, b, windowEvents, windowBytes) == Success(t')
  {
    hide ChainOf, RowsChained, IngestPrepared, CheckAll, TotalCharge, Links, Ancestor, Linked, StreamOk, Stored;
    var t' := Ingest(st, t, owner, b, windowEvents, windowBytes).value;
    var first, es := b.first, b.events;
    IngestOverlays(st, t, owner, b, windowEvents, windowBytes);
    SameBase(t, t', first);
    AncestorIs(st, t, first);
    AncestorIs(st, t', first);
    var chs := Links(st, ChainOf(st, Stored(t')[..first - 1]), es);
    LinksLinked(st, t', first, es);
    ReplayPrepared(st, t', first, es, chs, |es|);
    assert es[..|es|] == es && chs[..|es|] == chs;
  }

  lemma SameBase(t: Tables, t': Tables, first: int)
    requires Grows(t, t') && 1 <= first <= |t.events| + 1
    ensures Stored(t')[..first - 1] == Stored(t)[..first - 1]
  {
    forall i | 0 <= i < first - 1
      ensures Stored(t')[i] == Stored(t)[i]
    {
      assert t'.events[i] == t.events[i];
    }
  }

  // A batch that alters any committed event is refused, whatever chain hash it carries.
  lemma AlteredReplayRefused(st: Stream, t: Tables, owner: nat, b: Batch, windowEvents: nat, windowBytes: nat, i: nat)
    requires StreamOk(st) && TablesOk(st, t) && i < |b.events| && 1 <= b.events[i].sequence <= t.head
    requires b.events[i] != t.events[b.events[i].sequence - 1].event
    ensures Ingest(st, t, owner, b, windowEvents, windowBytes).Failure?
  {
    hide Ingest, TablesOk, StreamOk, Overlaid;
    if Ingest(st, t, owner, b, windowEvents, windowBytes).Success? {
      IngestOverlays(st, t, owner, b, windowEvents, windowBytes);
      OverlaidAgrees(st, t, b.first, b.events, Ingest(st, t, owner, b, windowEvents, windowBytes).value, i);
    }
  }

  lemma OverlaidAgrees(st: Stream, t: Tables, first: int, es: seq<Event>, t': Tables, i: nat)
    requires TablesOk(st, t) && Overlaid(st, t, first, es, t') && i < |es| && first + i <= t.head
    ensures es[i] == t.events[first + i - 1].event
  {
    assert t'.events[first - 1 + i] == t.events[first - 1 + i];
  }

  // A session whose owner generation was superseded changes nothing.
  lemma SupersededSessionRefused(st: Stream, t: Tables, owner: nat, b: Batch, windowEvents: nat, windowBytes: nat)
    requires owner != t.owner
    ensures Ingest(st, t, owner, b, windowEvents, windowBytes).Failure?
  {
  }

  // What reaches the receiver: hellos, and batches on sessions of any owner generation.
  datatype Request =
    | Opening(hello: Hello)
    | Ingesting(owner: nat, batch: Batch, windowEvents: nat, windowBytes: nat)

  function Apply(st: Stream, t: Tables, r: Request): Tables {
    var result :=
      match r
      case Opening(h) => Open(st, t, h)
      case Ingesting(owner, b, windowEvents, windowBytes) => Ingest(st, t, owner, b, windowEvents, windowBytes);
    match result
    case Failure(_) => t
    case Success(t') => t'
  }

  function After(st: Stream, t: Tables, rs: seq<Request>): Tables {
    if rs == [] then t else Apply(st, After(st, t, rs[..|rs| - 1]), rs[|rs| - 1])
  }

  lemma IngestKeepsOwner(st: Stream, t: Tables, owner: nat, b: Batch, windowEvents: nat, windowBytes: nat)
    requires Ingest(st, t, owner, b, windowEvents, windowBytes).Success?
    ensures Ingest(st, t, owner, b, windowEvents, windowBytes).value.owner == t.owner == owner
  {
    var first := b.events[0].sequence;
    var chs := Links(st, Ancestor(st, t, first).value, b.events);
    PreparedKeeps(st, t, b.events, chs);
  }

  lemma {:induction false} OwnerNeverFalls(st: Stream, t: Tables, rs: seq<Request>)
    ensures After(st, t, rs).owner >= t.owner
  {
    hide Ingest;
    if rs != [] {
      var before, r := After(st, t, rs[..|rs| - 1]), rs[|rs| - 1];
      OwnerNeverFalls(st, t, rs[..|rs| - 1]);
      if r.Ingesting? && Ingest(st, before, r.owner, r.batch, r.windowEvents, r.windowBytes).Success? {
        IngestKeepsOwner(st, before, r.owner, r.batch, r.windowEvents, r.windowBytes);
      }
    }
  }

  // Opening a session fences every session opened before it for good: whatever reaches the receiver afterwards, a
  // batch on an earlier session is refused.
  lemma FencedForever(st: Stream, t: Tables, h: Hello, rs: seq<Request>,
      owner: nat, b: Batch, windowEvents: nat, windowBytes: nat)
    requires Open(st, t, h).Success? && owner <= t.owner
    ensures Ingest(st, After(st, Open(st, t, h).value, rs), owner, b, windowEvents, windowBytes).Failure?
  {
    hide Ingest;
    OwnerNeverFalls(st, Open(st, t, h).value, rs);
    SupersededSessionRefused(st, After(st, Open(st, t, h).value, rs), owner, b, windowEvents, windowBytes);
  }

  // Whatever reaches the receiver, the tables stay consistent and only grow.
  lemma {:induction false} TablesStayOk(st: Stream, t: Tables, rs: seq<Request>)
    requires StreamOk(st) && TablesOk(st, t)
    ensures TablesOk(st, After(st, t, rs)) && t.events <= After(st, t, rs).events
    ensures t.effects <= After(st, t, rs).effects
  {
    hide Ingest, Open, TablesOk;
    if rs != [] {
      var before, r := After(st, t, rs[..|rs| - 1]), rs[|rs| - 1];
      TablesStayOk(st, t, rs[..|rs| - 1]);
      AppliedOk(st, before, r);
    }
  }

  lemma AppliedOk(st: Stream, t: Tables, r: Request)
    requires StreamOk(st) && TablesOk(st, t)
    ensures TablesOk(st, Apply(st, t, r)) && t.events <= Apply(st, t, r).events && t.effects <= Apply(st, t, r).effects
  {
    hide Ingest, TablesOk;
    match r
    case Opening(h) =>
      if Open(st, t, h).Success? {
        OpenOk(st, t, h);
      }
    case Ingesting(owner, b, windowEvents, windowBytes) =>
      if Ingest(st, t, owner, b, windowEvents, windowBytes).Success? {
        IngestOverlays(st, t, owner, b, windowEvents, windowBytes);
      }
  }

  // ------------------------------------------------------------------ an honest sender is never refused

  // Event i may follow the events before it.
  ghost predicate Follows(st: Stream, es: seq<Event>, i: int)
    requires AllValid(st, es)
  {
    0 < i < |es| ==> InOrderAfter(st, es[i - 1], es[i])
  }

  ghost predicate InOrderAfter(st: Stream, d: Event, e: Event)
    requires Valid(st, d) && Valid(st, e)
  {
    e.time >= d.time && e.time > Boundary(st, d) && Boundary(st, e) >= Boundary(st, d)
  }

  ghost predicate DistinctRelays(es: seq<Event>, i: int, j: int) {
    0 <= i < j < |es| ==> es[i].relay != es[j].relay
  }

  // A log of the kind an honest sender builds.
  ghost predicate HonestLog(st: Stream, es: seq<Event>) {
    && AllValid(st, es)
    && (forall i :: 0 <= i < |es| ==> es[i].sequence == i + 1)
    && (es != [] ==> es[0].time >= 0 && Boundary(st, es[0]) >= -1)
    && (forall i {:trigger Follows(st, es, i)} :: Follows(st, es, i))
    && (forall i, j {:trigger DistinctRelays(es, i, j)} :: DistinctRelays(es, i, j))
  }

  lemma HonestAppend(st: Stream, es: seq<Event>, e: Event)
    requires HonestLog(st, es) && Valid(st, e) && e.sequence == |es| + 1
    requires if es == [] then e.time >= 0 && Boundary(st, e) >= -1 else InOrderAfter(st, es[|es| - 1], e)
    requires forall d :: d in es ==> d.relay != e.relay
    ensures HonestLog(st, es + [e])
  {
    var es' := es + [e];
    forall i
      ensures Follows(st, es', i)
    {
      assert Follows(st, es, i);
    }
    forall i, j
      ensures DistinctRelays(es', i, j)
    {
      assert DistinctRelays(es, i, j);
      if 0 <= i < j == |es| {
        assert es[i] in es;
      }
    }
  }

  lemma HonestPrefix(st: Stream, es: seq<Event>, j: nat)
    requires HonestLog(st, es) && j <= |es|
    ensures HonestLog(st, es[..j])
  {
    forall i
      ensures Follows(st, es[..j], i)
    {
      assert Follows(st, es, i);
    }
    forall i, k
      ensures DistinctRelays(es[..j], i, k)
    {
      assert DistinctRelays(es, i, k);
    }
  }

  // The receiver holds the first `head` events of the log.
  ghost predicate HoldsPrefix(st: Stream, t: Tables, es: seq<Event>) {
    && TablesOk(st, t) && t.head <= |es|
    && Stored(t) == es[..t.head]
    && forall i :: 0 <= i < |es| ==> es[i].relay !in t.foreign
  }

  lemma ChainStep(st: Stream, es: seq<Event>, h: nat)
    requires h < |es|
    ensures ChainOf(st, es[..h + 1]) == st.link(ChainOf(st, es[..h]), es[h])
  {
    assert es[..h + 1][..h] == es[..h];
  }

  lemma NextAccepted(st: Stream, t: Tables, es: seq<Event>)
    requires HonestLog(st, es) && HoldsPrefix(st, t, es) && t.head < |es|
    ensures IngestOne(st, t, es[t.head], ChainOf(st, es[..t.head + 1])).Success?
    ensures HoldsPrefix(st, IngestOne(st, t, es[t.head], ChainOf(st, es[..t.head + 1])).value, es)
    ensures IngestOne(st, t, es[t.head], ChainOf(st, es[..t.head + 1])).value.head == t.head + 1
  {
    hide ChainOf, RowsChained;
    var e, h := es[t.head], t.head;
    assert Follows(st, es, h);
    ChainStep(st, es, h);
    if h > 0 {
      assert Stored(t)[h - 1] == es[h - 1];
    }
    forall row | row in t.events
      ensures row.event.relay != e.relay
    {
      var i :| 0 <= i < |t.events| && t.events[i] == row;
      assert Stored(t)[i] == es[i];
      assert DistinctRelays(es, i, h);
    }
    CommittedOk(st, t, e);
    CommittedStored(t, e, ChainOf(st, es[..h + 1]), Boundary(st, e));
    assert es[..h + 1] == es[..h] + [e];
  }

  lemma ReplayAccepted(st: Stream, t: Tables, es: seq<Event>, i: nat)
    requires HonestLog(st, es) && HoldsPrefix(st, t, es) && i < t.head
    ensures IngestOne(st, t, es[i], ChainOf(st, es[..i + 1])) == Success(t)
  {
    FindRow(t.events, i + 1);
    assert RowChained(st, t, i);
    assert Stored(t)[i] == es[i] && Stored(t)[..i + 1] == es[..i + 1];
  }

  // fs is the part of the log from `first` on, and chs are the chain hashes along it.
  ghost predicate CutOf(st: Stream, es: seq<Event>, first: int, fs: seq<Event>, chs: seq<Octets>) {
    && 1 <= first && first - 1 + |fs| <= |es| && |chs| == |fs|
    && forall i {:trigger CutAt(st, es, first, fs, chs, i)} :: CutAt(st, es, first, fs, chs, i)
  }

  ghost predicate CutAt(st: Stream, es: seq<Event>, first: int, fs: seq<Event>, chs: seq<Octets>, i: int)
    requires 1 <= first && first - 1 + |fs| <= |es| && |chs| == |fs|
  {
    0 <= i < |fs| ==> fs[i] == es[first - 1 + i] && chs[i] == ChainOf(st, es[..first + i])
  }

  lemma HonestOne(st: Stream, t: Tables, es: seq<Event>, k: nat)
    requires HonestLog(st, es) && HoldsPrefix(st, t, es) && k <= t.head && k < |es|
    ensures IngestOne(st, t, es[k], ChainOf(st, es[..k + 1])).Success?
    ensures var t' := IngestOne(st, t, es[k], ChainOf(st, es[..k + 1])).value;
      HoldsPrefix(st, t', es) && t'.head == (if k < t.head then t.head else k + 1)
  {
    if k < t.head {
      ReplayAccepted(st, t, es, k);
    } else {
      NextAccepted(st, t, es);
    }
  }

  lemma {:induction false} HonestPrepared(st: Stream, t: Tables, es: seq<Event>, first: int, fs: seq<Event>,
      chs: seq<Octets>, n: nat)
    requires HonestLog(st, es) && HoldsPrefix(st, t, es) && first <= t.head + 1 && CutOf(st, es, first, fs, chs)
    requires n <= |fs|
    ensures IngestPrepared(st, t, fs[..n], chs[..n]).Success?
    ensures var t' := IngestPrepared(st, t, fs[..n], chs[..n]).value;
      HoldsPrefix(st, t', es) && t'.head == (if first - 1 + n <= t.head then t.head else first - 1 + n)
  {
    hide HonestLog, HoldsPrefix, IngestOne;
    if n > 0 {
      HonestPrepared(st, t, es, first, fs, chs, n - 1);
      PreparedNext(st, t, fs, chs, n - 1);
      assert CutAt(st, es, first, fs, chs, n - 1);
      HonestOne(st, IngestPrepared(st, t, fs[..n - 1], chs[..n - 1]).value, es, first - 2 + n);
    }
  }

  lemma {:induction false} CheckAllValid(st: Stream, es: seq<Event>)
    requires AllValid(st, es)
    ensures CheckAll(st, es) == Success(())
  {
    if es != [] {
      CheckAllValid(st, es[1..]);
    }
  }

  // A batch cut from the log, no later than the next event and within credit, is accepted by the owning session,
  // and the head moves to the later of the two ends.
  lemma HonestBatchAccepted(st: Stream, t: Tables, es: seq<Event>, owner: nat, b: Batch,
      windowEvents: nat, windowBytes: nat)
    requires HonestLog(st, es) && HoldsPrefix(st, t, es) && t.owner == owner
    requires 1 <= b.first <= t.head + 1 && t.head == |t.events| && b.first - 1 + |b.events| <= |es|
    requires b.events == es[b.first - 1..b.first - 1 + |b.events|]
    requires b.terminal == ChainOf(st, es[..b.first - 1 + |b.events|])
    requires 0 < |b.events| <= MAX_BATCH && |b.events| <= windowEvents
    requires TotalCharge(b.events) <= MAX_CHARGE && TotalCharge(b.events) <= windowBytes
    ensures Ingest(st, t, owner, b, windowEvents, windowBytes).Success?
    ensures var t', last := Ingest(st, t, owner, b, windowEvents, windowBytes).value, b.first - 1 + |b.events|;
      && HoldsPrefix(st, t', es) && t'.owner == t.owner && t'.foreign == t.foreign
      && t'.head == (if last <= t.head then t.head else last)
  {
    hide IngestPrepared, Links, HonestLog, HoldsPrefix, ChainOf, TotalCharge, CheckAll, Consecutive, Ancestor;
    var first, fs := b.first, b.events;
    var previous := ChainOf(st, Stored(t)[..first - 1]);
    var chs := Links(st, previous, fs);
    CutFacts(st, t, es, first, fs);
    LinksCut(st, t, es, first, fs);
    HonestPrepared(st, t, es, first, fs, chs, |fs|);
    assert fs[..|fs|] == fs && chs[..|fs|] == chs;
    assert CutAt(st, es, first, fs, chs, |fs| - 1);
    TransactIs(st, t, owner, b, previous);
    PreparedKeeps(st, t, fs, chs);
  }

  lemma CutFacts(st: Stream, t: Tables, es: seq<Event>, first: int, fs: seq<Event>)
    requires HonestLog(st, es) && HoldsPrefix(st, t, es) && 1 <= first <= t.head + 1
    requires first - 1 + |fs| <= |es| && fs == es[first - 1..first - 1 + |fs|]
    ensures CheckAll(st, fs) == Success(()) && Consecutive(fs, first)
    ensures 0 <= t.head == |t.events| && Ancestor(st, t, first) == Some(ChainOf(st, Stored(t)[..first - 1]))
  {
    CheckAllValid(st, fs);
    AncestorIs(st, t, first);
  }

  lemma TransactIs(st: Stream, t: Tables, owner: nat, b: Batch, previous: Octets)
    requires b.events != [] && t.owner == owner && b.events[0].sequence <= t.head + 1
    requires Ancestor(st, t, b.events[0].sequence) == Some(previous) && Consecutive(b.events, b.events[0].sequence)
    requires Links(st, previous, b.events)[|b.events| - 1] == b.terminal
    ensures Transact(st, t, owner, b) == IngestPrepared(st, t, b.events, Links(st, previous, b.events))
  {
  }

  lemma LinksCut(st: Stream, t: Tables, es: seq<Event>, first: int, fs: seq<Event>)
    requires HoldsPrefix(st, t, es) && 1 <= first <= t.head + 1
    requires first - 1 + |fs| <= |es| && fs == es[first - 1..first - 1 + |fs|]
    ensures CutOf(st, es, first, fs, Links(st, ChainOf(st, Stored(t)[..first - 1]), fs))
  {
    hide ChainOf, Links, TablesOk, CutOf;
    var base := Stored(t)[..first - 1];
    assert base == es[..first - 1];
    LinksCutFrom(st, es, first, fs);
  }

  lemma LinksCutFrom(st: Stream, es: seq<Event>, first: int, fs: seq<Event>)
    requires 1 <= first && first - 1 + |fs| <= |es| && fs == es[first - 1..first - 1 + |fs|]
    ensures CutOf(st, es, first, fs, Links(st, ChainOf(st, es[..first - 1]), fs))
  {
    hide Links, ChainOf;
    var base := es[..first - 1];
    var chs := Links(st, ChainOf(st, base), fs);
    forall i
      ensures CutAt(st, es, first, fs, chs, i)
    {
      if 0 <= i < |fs| {
        LinksAre(st, base, fs, i);
        assert base + fs[..i + 1] == es[..first + i];
      }
    }
  }

  lemma {:induction false} PreparedKeeps(st: Stream, t: Tables, es: seq<Event>, chs: seq<Octets>)
    requires |es| == |chs| && IngestPrepared(st, t, es, chs).Success?
    ensures var t' := IngestPrepared(st, t, es, chs).value; t'.owner == t.owner && t'.foreign == t.foreign
  {
    if es != [] {
      PreparedKeeps(st, t, es[..|es| - 1], chs[..|es| - 1]);
    }
  }

  // A hello that names a prefix of the log covering the receiver's head, and an acknowledged prefix of the
  // receiver's log, opens a session.
  lemma HonestHelloAccepted(st: Stream, t: Tables, es: seq<Event>, h: Hello)
    requires StreamOk(st) && HoldsPrefix(st, t, es)
    requires h.ack <= t.head <= h.tail && h.ackHash == ChainOf(st, es[..h.ack])
    ensures Open(st, t, h) == Success(t.(owner := t.owner + 1))
  {
    FindRow(t.events, h.ack);
    assert es[..h.ack] == Stored(t)[..h.ack];
    if h.ack > 0 {
      assert RowChained(st, t, h.ack - 1);
    }
  }
}
