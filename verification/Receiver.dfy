// The receiver's tables, and what opening a session and ingesting a batch do to them.
module Receiver {
  import opened Wrappers
  import opened Bytes
  import opened Stream
  import opened Sender

  datatype EventRow = EventRow(sequence: int, event: Event, chain: Octets)

  datatype EffectRow = EffectRow(sequence: int, completeThrough: int)

  // The stream's row and the two tables, in insertion order. `foreign` holds the relay ids of other streams' events.
  datatype Tables = Tables(
    head: int, chain: Octets, owner: nat, checkpoint: int, lastTime: int,
    events: seq<EventRow>, effects: seq<EffectRow>, foreign: set<Octets>)

  datatype Batch = Batch(first: int, events: seq<Event>, terminal: Octets)

  datatype Ack = Ack(sequence: int, chain: Octets)

  function EmptyTables(st: Stream): Tables {
    Tables(0, st.genesis, 0, -1, 0, [], [], {})
  }

  // The row with the given sequence number.
  function Find(rows: seq<EventRow>, sequence: int): (r: Option<EventRow>)
    ensures r.Some? ==> r.value in rows && r.value.sequence == sequence
    ensures r.None? ==> forall row :: row in rows ==> row.sequence != sequence
  {
    if rows == [] then None
    else if rows[0].sequence == sequence then Some(rows[0])
    else Find(rows[1..], sequence)
  }

  predicate RelayTaken(t: Tables, relay: Octets) {
    relay in t.foreign || exists row :: row in t.events && row.event.relay == relay
  }

  // ------------------------------------------------------------------ opening a session

  // Reconnect checks; the new session owns the stream under the next owner generation.
  function Open(st: Stream, t: Tables, h: Hello): Result<Tables, Code> {
    if h.ack > h.tail || |h.ackHash| != 32 then Failure(InvalidHandshake)
    else if t.head > h.tail then Failure(SenderRollback)
    else if t.head < h.ack then Failure(ReceiverRollback)
    else
      var remembered :=
        if h.ack == 0 then Some(st.genesis)
        else match Find(t.events, h.ack) case None => None case Some(row) => Some(row.chain);
      if remembered != Some(h.ackHash) then Failure(SplitLog)
      else Success(t.(owner := t.owner + 1))
  }

  // ------------------------------------------------------------------ ingesting a batch

  function TotalCharge(es: seq<Event>): nat {
    if es == [] then 0 else TotalCharge(es[..|es| - 1]) + Charge(es[|es| - 1])
  }

  function CheckAll(st: Stream, es: seq<Event>): Result<(), Code> {
    if es == [] then Success(())
    else match st.check(es[0])
      case Failure(code) => Failure(code)
      case Success(_) => CheckAll(st, es[1..])
  }

  // Chain hashes after each event, starting from `previous`.
  function Links(st: Stream, previous: Octets, es: seq<Event>): (r: seq<Octets>)
    ensures |r| == |es|
  {
    if es == [] then []
    else
      var r := Links(st, previous, es[..|es| - 1]);
      r + [st.link(if r == [] then previous else r[|r| - 1], es[|es| - 1])]
  }

  predicate Consecutive(es: seq<Event>, first: int) {
    forall i :: 0 <= i < |es| ==> es[i].sequence == first + i
  }

  // Hash that the batch's first event must follow.
  function Ancestor(st: Stream, t: Tables, first: int): Option<Octets> {
    if first == 1 then Some(st.genesis)
    else match Find(t.events, first - 1) case None => None case Some(row) => Some(row.chain)
  }

  // One event inside the transaction: a replay must be identical, a new event must continue the stream.
  function IngestOne(st: Stream, t: Tables, e: Event, ch: Octets): Result<Tables, Code> {
    if e.sequence <= t.head then
      match Find(t.events, e.sequence)
      case None => Failure(EventIdentityMismatch)
      case Some(row) => if row.event == e && row.chain == ch then Success(t) else Failure(EventIdentityMismatch)
    else
      match st.check(e)
      case Failure(code) => Failure(code)
      case Success(boundary) =>
        if e.sequence != t.head + 1 then Failure(SequenceGap)
        else if !(e.time >= t.lastTime && e.time > t.checkpoint && boundary >= t.checkpoint)
        then Failure(CheckpointBackdatedEvent)
        else if RelayTaken(t, e.relay) then Failure(EventIdentityMismatch)
        else Success(Committed(t, e, ch, boundary))
  }

  function Committed(t: Tables, e: Event, ch: Octets, boundary: int): Tables {
    t.(head := e.sequence, chain := ch, lastTime := e.time, checkpoint := boundary,
       events := t.events + [EventRow(e.sequence, e, ch)],
       effects := t.effects + [EffectRow(e.sequence, boundary)])
  }

  function IngestPrepared(st: Stream, t: Tables, es: seq<Event>, chs: seq<Octets>): Result<Tables, Code>
    requires |es| == |chs|
  {
    if es == [] then Success(t)
    else match IngestPrepared(st, t, es[..|es| - 1], chs[..|es| - 1])
      case Failure(code) => Failure(code)
      case Success(t') => IngestOne(st, t', es[|es| - 1], chs[|es| - 1])
  }

  // Checks that need no table.
  function Admissible(st: Stream, b: Batch, windowEvents: nat, windowBytes: nat): Result<(), Code> {
    var es := b.events;
    if !(0 < |es| <= MAX_BATCH && |es| <= windowEvents) then Failure(ResourceLimitExceeded)
    else if !(TotalCharge(es) <= MAX_CHARGE && TotalCharge(es) <= windowBytes) then Failure(ResourceLimitExceeded)
    else if b.first != es[0].sequence then Failure(SequenceGap)
    else CheckAll(st, es)
  }

  // The transaction of a session that owns the stream under generation `owner`.
  function Transact(st: Stream, t: Tables, owner: nat, b: Batch): Result<Tables, Code>
    requires b.events != []
  {
    var es := b.events;
    var first := es[0].sequence;
    if t.owner != owner then Failure(StreamAlreadyActive)
    else if first > t.head + 1 then Failure(SequenceGap)
    else match Ancestor(st, t, first)
      case None => Failure(RecoveryGap)
      case Some(previous) =>
        if !Consecutive(es, first) then Failure(SequenceGap)
        else
          var chs := Links(st, previous, es);
          if chs[|chs| - 1] != b.terminal then Failure(ChainMismatch)
          else IngestPrepared(st, t, es, chs)
  }

  // Tables after the batch, or the refusal that leaves them alone.
  function Ingest(st: Stream, t: Tables, owner: nat, b: Batch, windowEvents: nat, windowBytes: nat)
      : Result<Tables, Code> {
    match Admissible(st, b, windowEvents, windowBytes)
    case Failure(code) => Failure(code)
    case Success(_) => Transact(st, t, owner, b)
  }

  function AckOf(t: Tables): Ack {
    Ack(t.head, t.chain)
  }

  // ------------------------------------------------------------------ consistency of the tables

  function Stored(t: Tables): (es: seq<Event>)
    ensures |es| == |t.events|
    ensures forall i :: 0 <= i < |es| ==> es[i] == t.events[i].event
  {
    seq(|t.events|, i requires 0 <= i < |t.events| => t.events[i].event)
  }

  // Exactly one event row and one effect row for each sequence number up to the head.
  ghost predicate OneEach(st: Stream, t: Tables) {
    && t.head == |t.events| == |t.effects|
    && (forall i :: 0 <= i < |t.events| ==>
          t.events[i].sequence == i + 1 && t.events[i].event.sequence == i + 1 && Valid(st, t.events[i].event))
    && (forall i :: 0 <= i < |t.effects| ==>
          t.effects[i].sequence == i + 1 && t.effects[i].completeThrough == Boundary(st, t.events[i].event))
  }

  ghost predicate RowChained(st: Stream, t: Tables, i: int) {
    0 <= i < |t.events| ==> t.events[i].chain == ChainOf(st, Stored(t)[..i + 1])
  }

  ghost predicate RowsChained(st: Stream, t: Tables) {
    forall i {:trigger RowChained(st, t, i)} :: RowChained(st, t, i)
  }

  ghost predicate TablesOk(st: Stream, t: Tables) {
    && OneEach(st, t)
    && RowsChained(st, t)
    && t.chain == ChainOf(st, Stored(t))
    && (if t.events == [] then t.lastTime == 0 && t.checkpoint == -1
        else var last := t.events[|t.events| - 1].event; t.lastTime == last.time && t.checkpoint == Boundary(st, last))
  }

  lemma {:induction false} FindRow(rows: seq<EventRow>, i: int)
    requires forall k :: 0 <= k < |rows| ==> rows[k].sequence == k + 1
    ensures Find(rows, i) == if 1 <= i <= |rows| then Some(rows[i - 1]) else None
  {
    var r := Find(rows, i);
    if 1 <= i <= |rows| {
      assert rows[i - 1] in rows;
    }
  }

  lemma LinksAre(st: Stream, es: seq<Event>, fs: seq<Event>, i: nat)
    requires i < |fs|
    ensures Links(st, ChainOf(st, es), fs)[i] == ChainOf(st, es + fs[..i + 1])
  {
    if i < |fs| - 1 {
      LinksAre(st, es, fs[..|fs| - 1], i);
      assert fs[..|fs| - 1][..i + 1] == fs[..i + 1];
    } else {
      if i > 0 {
        LinksAre(st, es, fs[..i], i - 1);
        assert fs[..i][..i] == fs[..i];
      } else {
        assert es + fs[..0] == es;
      }
      assert (es + fs[..i + 1])[..|es| + i] == es + fs[..i];
    }
  }

  lemma CommittedStored(t: Tables, e: Event, ch: Octets, boundary: int)
    ensures Stored(Committed(t, e, ch, boundary)) == Stored(t) + [e]
  {
    assert Stored(Committed(t, e, ch, boundary)) == Stored(t) + [e];
  }

  lemma CommittedChained(st: Stream, t: Tables, e: Event, boundary: int)
    requires RowsChained(st, t) && t.chain == ChainOf(st, Stored(t))
    ensures var t' := Committed(t, e, st.link(t.chain, e), boundary);
      RowsChained(st, t') && t'.chain == ChainOf(st, Stored(t'))
  {
    var t' := Committed(t, e, st.link(t.chain, e), boundary);
    CommittedStored(t, e, st.link(t.chain, e), boundary);
    assert (Stored(t) + [e])[..|t.events|] == Stored(t);
    forall i
      ensures RowChained(st, t', i)
    {
      if 0 <= i < |t.events| {
        assert RowChained(st, t, i);
        assert Stored(t')[..i + 1] == Stored(t)[..i + 1];
      } else if i == |t.events| {
        assert Stored(t')[..i + 1] == Stored(t');
      }
    }
  }

  // A committed event keeps the tables consistent.
  lemma CommittedOk(st: Stream, t: Tables, e: Event)
    requires TablesOk(st, t) && Valid(st, e) && e.sequence == t.head + 1
    ensures TablesOk(st, Committed(t, e, st.link(t.chain, e), Boundary(st, e)))
  {
    CommittedChained(st, t, e, Boundary(st, e));
  }

  lemma OpenOk(st: Stream, t: Tables, h: Hello)
    requires TablesOk(st, t) && Open(st, t, h).Success?
    ensures TablesOk(st, Open(st, t, h).value)
  {
    var t' := Open(st, t, h).value;
    assert Stored(t') == Stored(t);
    forall i
      ensures RowChained(st, t', i)
    {
      assert RowChained(st, t, i);
    }
  }

  // ------------------------------------------------------------------ what an accepted batch does

  // t' keeps every row of t, its owner and the other streams.
  predicate Grows(t: Tables, t': Tables) {
    && t'.owner == t.owner && t'.foreign == t.foreign
    && t.events <= t'.events && t.effects <= t'.effects
  }

  // From `first` on, the log holds es.
  predicate Holds(t: Tables, first: int, es: seq<Event>) {
    && 1 <= first && first - 1 + |es| <= |t.events|
    && forall i :: 0 <= i < |es| ==> t.events[first - 1 + i].event == es[i]
  }

  // t' is t with the events of es, numbered from `first`, laid over its log: they agree where both have an event.
  ghost predicate Overlaid(st: Stream, t: Tables, first: int, es: seq<Event>, t': Tables) {
    && TablesOk(st, t')
    && Grows(t, t')
    && 1 <= first <= t.head + 1
    && t'.head == (if first - 1 + |es| <= t.head then t.head else first - 1 + |es|)
    && Holds(t', first, es)
  }

  // An accepted event is an identical replay, or the next event.
  lemma IngestOneIs(st: Stream, t: Tables, e: Event, ch: Octets)
    requires TablesOk(st, t) && e.sequence >= 1 && IngestOne(st, t, e, ch).Success?
    ensures e.sequence <= t.head ==> IngestOne(st, t, e, ch).value == t && t.events[e.sequence - 1].event == e
    ensures e.sequence > t.head ==>
      e.sequence == t.head + 1 && Valid(st, e) && IngestOne(st, t, e, ch).value == Committed(t, e, ch, Boundary(st, e))
  {
    FindRow(t.events, e.sequence);
  }

  lemma OverlaidIsStored(st: Stream, t: Tables, first: int, es: seq<Event>, t': Tables)
    requires TablesOk(st, t) && Overlaid(st, t, first, es, t') && t'.head == first - 1 + |es|
    ensures Stored(t') == Stored(t)[..first - 1] + es
  {
    forall i | 0 <= i < first - 1
      ensures Stored(t')[i] == Stored(t)[i]
    {
      assert t'.events[i] == t.events[i];
    }
  }

  lemma OverlaidNext(st: Stream, t: Tables, first: int, es: seq<Event>, t': Tables, e: Event, ch: Octets)
    requires TablesOk(st, t) && Overlaid(st, t, first, es, t') && e.sequence == first + |es|
    requires ch == ChainOf(st, Stored(t)[..first - 1] + (es + [e]))
    requires IngestOne(st, t', e, ch).Success?
    ensures Overlaid(st, t, first, es + [e], IngestOne(st, t', e, ch).value)
  {
    hide ChainOf, IngestOne, RowsChained;
    IngestOneIs(st, t', e, ch);
    if e.sequence <= t'.head {
      HoldsNext(t', first, es, e);
    } else {
      OverlaidAppend(st, t, first, es, t', e);
      assert ch == st.link(t'.chain, e) by {
        OverlaidIsStored(st, t, first, es, t');
        LinkSnoc(st, Stored(t)[..first - 1], es, e);
      }
    }
  }

  lemma OverlaidAppend(st: Stream, t: Tables, first: int, es: seq<Event>, t': Tables, e: Event)
    requires Overlaid(st, t, first, es, t') && Valid(st, e) && e.sequence == first + |es| == t'.head + 1
    ensures Overlaid(st, t, first, es + [e], Committed(t', e, st.link(t'.chain, e), Boundary(st, e)))
  {
    var ch := st.link(t'.chain, e);
    CommittedOk(st, t', e);
    CommittedGrows(t, t', first, es, e, ch, Boundary(st, e));
  }

  lemma HoldsNext(t: Tables, first: int, es: seq<Event>, e: Event)
    requires Holds(t, first, es) && first - 1 + |es| < |t.events| && t.events[first - 1 + |es|].event == e
    ensures Holds(t, first, es + [e])
  {
  }

  lemma CommittedGrows(t: Tables, t': Tables, first: int, es: seq<Event>, e: Event, ch: Octets, boundary: int)
    requires Grows(t, t') && Holds(t', first, es) && |t'.events| == first - 1 + |es|
    ensures Grows(t, Committed(t', e, ch, boundary)) && Holds(Committed(t', e, ch, boundary), first, es + [e])
  {
  }

  lemma LinkSnoc(st: Stream, a: seq<Event>, es: seq<Event>, e: Event)
    ensures ChainOf(st, a + (es + [e])) == st.link(ChainOf(st, a + es), e)
  {
    assert (a + (es + [e]))[..|a + es|] == a + es;
  }

  lemma PreparedNext(st: Stream, t: Tables, es: seq<Event>, chs: seq<Octets>, n: nat)
    requires |es| == |chs| && n < |es| && IngestPrepared(st, t, es[..n], chs[..n]).Success?
    ensures IngestPrepared(st, t, es[..n + 1], chs[..n + 1])
         == IngestOne(st, IngestPrepared(st, t, es[..n], chs[..n]).value, es[n], chs[n])
  {
    assert es[..n + 1][..n] == es[..n] && chs[..n + 1][..n] == chs[..n];
  }

  lemma PreparedSnoc(st: Stream, t: Tables, es: seq<Event>, chs: seq<Octets>, n: nat)
    requires |es| == |chs| && n < |es| && IngestPrepared(st, t, es[..n + 1], chs[..n + 1]).Success?
    ensures IngestPrepared(st, t, es[..n], chs[..n]).Success?
    ensures IngestPrepared(st, t, es[..n + 1], chs[..n + 1])
         == IngestOne(st, IngestPrepared(st, t, es[..n], chs[..n]).value, es[n], chs[n])
  {
    assert es[..n + 1][..n] == es[..n] && chs[..n + 1][..n] == chs[..n];
  }

  // chs are the chain hashes after each event of es, laid on the log of t before `first`.
  ghost predicate Linked(st: Stream, t: Tables, first: int, es: seq<Event>, chs: seq<Octets>) {
    && 1 <= first <= |t.events| + 1 && |chs| == |es|
    && forall i {:trigger LinkedAt(st, t, first, es, chs, i)} :: LinkedAt(st, t, first, es, chs, i)
  }

  ghost predicate LinkedAt(st: Stream, t: Tables, first: int, es: seq<Event>, chs: seq<Octets>, i: int)
    requires 1 <= first <= |t.events| + 1 && |chs| == |es|
  {
    0 <= i < |es| ==> chs[i] == ChainOf(st, Stored(t)[..first - 1] + es[..i + 1])
  }

  lemma NothingOverlaid(st: Stream, t: Tables, first: int, es: seq<Event>)
    requires TablesOk(st, t) && es == [] && 1 <= first <= |t.events| + 1
    ensures Overlaid(st, t, first, es, t)
  {
  }

  lemma {:induction false} PreparedOverlays(st: Stream, t: Tables, first: int, es: seq<Event>, chs: seq<Octets>, n: nat)
    requires TablesOk(st, t) && Consecutive(es, first) && Linked(st, t, first, es, chs) && n <= |es|
    requires IngestPrepared(st, t, es[..n], chs[..n]).Success?
    ensures Overlaid(st, t, first, es[..n], IngestPrepared(st, t, es[..n], chs[..n]).value)
  {
    hide ChainOf, TablesOk, IngestOne, Overlaid;
    if n == 0 {
      assert es[..0] == [];
      NothingOverlaid(st, t, first, es[..0]);
    } else {
      var m := n - 1;
      PreparedSnoc(st, t, es, chs, m);
      PreparedOverlays(st, t, first, es, chs, m);
      assert es[..n] == es[..m] + [es[m]];
      assert LinkedAt(st, t, first, es, chs, m);
      var t' := IngestPrepared(st, t, es[..m], chs[..m]).value;
      OverlaidNext(st, t, first, es[..m], t', es[m], chs[m]);
    }
  }

  lemma LinksLinked(st: Stream, t: Tables, first: int, es: seq<Event>)
    requires 1 <= first <= |t.events| + 1
    ensures Linked(st, t, first, es, Links(st, ChainOf(st, Stored(t)[..first - 1]), es))
  {
    var es0 := Stored(t)[..first - 1];
    var chs := Links(st, ChainOf(st, es0), es);
    forall i
      ensures LinkedAt(st, t, first, es, chs, i)
    {
      if 0 <= i < |es| {
        LinksAre(st, es0, es, i);
      }
    }
  }

  lemma AncestorIs(st: Stream, t: Tables, first: int)
    requires TablesOk(st, t) && 1 <= first <= t.head + 1
    ensures Ancestor(st, t, first) == Some(ChainOf(st, Stored(t)[..first - 1]))
  {
    FindRow(t.events, first - 1);
    assert RowChained(st, t, first - 2);
  }

  // An accepted batch lays its events over the log and answers with the new head; a refused one is not committed.
  lemma IngestOverlays(st: Stream, t: Tables, owner: nat, b: Batch, windowEvents: nat, windowBytes: nat)
    requires StreamOk(st) && TablesOk(st, t) && Ingest(st, t, owner, b, windowEvents, windowBytes).Success?
    ensures b.events != [] && b.first == b.events[0].sequence
    ensures Overlaid(st, t, b.first, b.events, Ingest(st, t, owner, b, windowEvents, windowBytes).value)
    ensures t.owner == owner && Consecutive(b.events, b.first)
  {
    var first, es := b.first, b.events;
    assert Valid(st, es[0]);
    AncestorIs(st, t, first);
    var es0 := Stored(t)[..first - 1];
    var chs := Links(st, ChainOf(st, es0), es);
    LinksLinked(st, t, first, es);
    assert es[..|es|] == es && chs[..|es|] == chs;
    PreparedOverlays(st, t, first, es, chs, |es|);
  }
}
