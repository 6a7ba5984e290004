// Exactly when the receiver accepts a hello or a batch, in terms of the log it holds, and which code each refusal has.
module ReceiverDecisions {
  import opened Wrappers
  import opened Bytes
  import opened Stream
  import opened Sender
  import opened Receiver
  import opened ReceiverTheorems

  // ------------------------------------------------------------------ hellos

  // A hello opens a session exactly when the receiver's head lies between the sender's acknowledged position and its
  // tail, and the sender remembers the chain hash of the receiver's own log up to the acknowledged position.
  lemma OpenExactly(st: Stream, t: Tables, h: Hello)
    requires StreamOk(st) && TablesOk(st, t)
    ensures Open(st, t, h).Success? <==>
      && h.ack <= t.head <= h.tail && |h.ackHash| == 32 && h.ackHash == ChainOf(st, Stored(t)[..h.ack])
    ensures Open(st, t, h).Success? ==> Open(st, t, h).value == t.(owner := t.owner + 1)
  {
    hide ChainOf;
    if h.ack <= t.head {
      RememberedChain(st, t, h.ack);
    }
  }

  // The chain hash the receiver finds for a position in its log.
  lemma RememberedChain(st: Stream, t: Tables, n: nat)
    requires TablesOk(st, t) && n <= t.head
    ensures n == 0 ==> ChainOf(st, Stored(t)[..n]) == st.genesis
    ensures n > 0 ==>
      Find(t.events, n).Some? && Find(t.events, n).value.chain == ChainOf(st, Stored(t)[..n])
  {
    FindRow(t.events, n);
    assert RowChained(st, t, n - 1);
  }

  lemma OpenRefusals(st: Stream, t: Tables, h: Hello)
    requires StreamOk(st) && TablesOk(st, t)
    ensures h.ack > h.tail || |h.ackHash| != 32 ==> Open(st, t, h) == Failure(InvalidHandshake)
    ensures h.ack <= h.tail && |h.ackHash| == 32 ==>
      && (t.head > h.tail ==> Open(st, t, h) == Failure(SenderRollback))
      && (t.head < h.ack ==> Open(st, t, h) == Failure(ReceiverRollback))
      && (h.ack <= t.head <= h.tail && h.ackHash != ChainOf(st, Stored(t)[..h.ack]) ==>
            Open(st, t, h) == Failure(SplitLog))
  {
    hide ChainOf;
    if h.ack <= t.head {
      RememberedChain(st, t, h.ack);
    }
  }

  // ------------------------------------------------------------------ the log the receiver builds

  // What is stored is a log in order, with relay ids that occur nowhere else, in this stream or another.
  ghost predicate Orderly(st: Stream, t: Tables) {
    HonestLog(st, Stored(t)) && forall e :: e in Stored(t) ==> e.relay !in t.foreign
  }

  lemma EmptyOrderly(st: Stream)
    ensures Orderly(st, EmptyTables(st))
  {
    assert Stored(EmptyTables(st)) == [];
  }

  lemma RelayFree(t: Tables, relay: Octets)
    ensures RelayTaken(t, relay) <==> relay in t.foreign || exists e :: e in Stored(t) && e.relay == relay
  {
    if row :| row in t.events && row.event.relay == relay {
      var i :| 0 <= i < |t.events| && t.events[i] == row;
      assert Stored(t)[i] in Stored(t);
    }
    if e :| e in Stored(t) && e.relay == relay {
      var i :| 0 <= i < |Stored(t)| && Stored(t)[i] == e;
      assert t.events[i] in t.events;
    }
  }

  lemma IngestOneOrderly(st: Stream, t: Tables, e: Event, ch: Octets)
    requires TablesOk(st, t) && Orderly(st, t) && e.sequence >= 1 && IngestOne(st, t, e, ch).Success?
    ensures Orderly(st, IngestOne(st, t, e, ch).value)
  {
    hide ChainOf, RowsChained, HonestLog;
    IngestOneIs(st, t, e, ch);
    if e.sequence > t.head {
      CommittedStored(t, e, ch, Boundary(st, e));
      RelayFree(t, e.relay);
      HonestAppend(st, Stored(t), e);
    }
  }

  lemma {:induction false} PreparedOrderly(st: Stream, t: Tables, first: int, es: seq<Event>, chs: seq<Octets>, n: nat)
    requires TablesOk(st, t) && Orderly(st, t) && Consecutive(es, first) && Linked(st, t, first, es, chs) && n <= |es|
    requires IngestPrepared(st, t, es[..n], chs[..n]).Success?
    ensures Orderly(st, IngestPrepared(st, t, es[..n], chs[..n]).value)
  {
    hide ChainOf, TablesOk, Orderly, IngestOne, Overlaid;
    if n > 0 {
      PreparedSnoc(st, t, es, chs, n - 1);
      PreparedOrderly(st, t, first, es, chs, n - 1);
      PreparedOverlays(st, t, first, es, chs, n - 1);
      var t' := IngestPrepared(st, t, es[..n - 1], chs[..n - 1]).value;
      OverlaidTables(st, t, first, es[..n - 1], t');
      IngestOneOrderly(st, t', es[n - 1], chs[n - 1]);
    }
  }

  lemma OverlaidTables(st: Stream, t: Tables, first: int, es: seq<Event>, t': Tables)
    requires Overlaid(st, t, first, es, t')
    ensures TablesOk(st, t')
  {
  }

  // An accepted batch keeps the log in order.
  lemma IngestOrderly(st: Stream, t: Tables, owner: nat, b: Batch, windowEvents: nat, windowBytes: nat)
    requires StreamOk(st) && TablesOk(st, t) && Orderly(st, t)
    requires Ingest(st, t, owner, b, windowEvents, windowBytes).Success?
    ensures Orderly(st, Ingest(st, t, owner, b, windowEvents, windowBytes).value)
    ensures 1 <= b.first <= t.head + 1 && b.terminal == ChainOf(st, Stored(t)[..b.first - 1] + b.events)
  {
    hide ChainOf, Orderly, IngestOne, HonestLog;
    var first, es := b.first, b.events;
    assert Valid(st, es[0]);
    AncestorIs(st, t, first);
    var base := Stored(t)[..first - 1];
    var chs := Links(st, ChainOf(st, base), es);
    LinksLinked(st, t, first, es);
    assert es[..|es|] == es && chs[..|es|] == chs;
    PreparedOrderly(st, t, first, es, chs, |es|);
    LinksAre(st, base, es, |es| - 1);
  }

  // Whatever reaches the receiver, committed events are in order and no relay id is ever committed twice.
  lemma {:induction false} AlwaysOrderly(st: Stream, rs: seq<Request>)
    requires StreamOk(st)
    ensures TablesOk(st, EmptyTables(st)) && TablesOk(st, After(st, EmptyTables(st), rs))
    ensures Orderly(st, After(st, EmptyTables(st), rs))
  {
    hide Ingest, Open, TablesOk, Orderly;
    EmptyOk(st);
    if rs == [] {
      EmptyOrderly(st);
    } else {
      var before, r := After(st, EmptyTables(st), rs[..|rs| - 1]), rs[|rs| - 1];
      AlwaysOrderly(st, rs[..|rs| - 1]);
      TablesStayOk(st, EmptyTables(st), rs);
      if r.Ingesting? && Ingest(st, before, r.owner, r.batch, r.windowEvents, r.windowBytes).Success? {
        IngestOrderly(st, before, r.owner, r.batch, r.windowEvents, r.windowBytes);
      } else if r.Opening? && Open(st, before, r.hello).Success? {
        OpenedOrderly(st, before, r.hello);
      }
    }
  }

  lemma EmptyOk(st: Stream)
    ensures TablesOk(st, EmptyTables(st))
  {
    assert Stored(EmptyTables(st)) == [];
  }

  lemma OpenedOrderly(st: Stream, t: Tables, h: Hello)
    requires Orderly(st, t) && Open(st, t, h).Success?
    ensures Orderly(st, Open(st, t, h).value)
  {
    hide HonestLog;
    assert Stored(Open(st, t, h).value) == Stored(t);
  }

  // ------------------------------------------------------------------ batches

  // The log with the batch laid over it, up to the batch's end.
  function Laid(t: Tables, b: Batch): seq<Event>
    requires 1 <= b.first <= |t.events| + 1
  {
    Stored(t)[..b.first - 1] + b.events
  }

  // Both are prefixes of one log.
  predicate Compatible(a: seq<Event>, b: seq<Event>) {
    a <= b || b <= a
  }

  predicate WithinCredit(b: Batch, windowEvents: nat, windowBytes: nat) {
    && 0 < |b.events| <= MAX_BATCH && |b.events| <= windowEvents
    && TotalCharge(b.events) <= MAX_CHARGE && TotalCharge(b.events) <= windowBytes
  }

  // The batch continues what is stored to a log in order, and names that log's chain hash.
  ghost predicate ContinuesLog(st: Stream, t: Tables, b: Batch) {
    && 1 <= b.first <= |t.events| + 1
    && HonestLog(st, Laid(t, b)) && Compatible(Laid(t, b), Stored(t))
    && (forall e :: e in b.events ==> e.relay !in t.foreign)
    && b.terminal == ChainOf(st, Laid(t, b))
  }

  // A batch commits exactly when it is within the limits and the credit, arrives on the session that owns the stream,
  // and continues the stored log: any replayed part is identical, the events are in order with new relay ids, and the
  // terminal hash is the chain hash of the log they make.
  lemma IngestExactly(st: Stream, t: Tables, owner: nat, b: Batch, windowEvents: nat, windowBytes: nat)
    requires StreamOk(st) && TablesOk(st, t) && Orderly(st, t)
    ensures Ingest(st, t, owner, b, windowEvents, windowBytes).Success?
      <==> owner == t.owner && WithinCredit(b, windowEvents, windowBytes) && ContinuesLog(st, t, b)
  {
    hide ChainOf, Orderly, Ingest, TablesOk, ContinuesLog, TotalCharge, HonestLog;
    if Ingest(st, t, owner, b, windowEvents, windowBytes).Success? {
      IngestWithin(st, t, owner, b, windowEvents, windowBytes);
      IngestContinues(st, t, owner, b, windowEvents, windowBytes);
    }
    if owner == t.owner && WithinCredit(b, windowEvents, windowBytes) && ContinuesLog(st, t, b) {
      ContinuingAccepted(st, t, b, windowEvents, windowBytes);
    }
  }

  lemma IngestWithin(st: Stream, t: Tables, owner: nat, b: Batch, windowEvents: nat, windowBytes: nat)
    requires Ingest(st, t, owner, b, windowEvents, windowBytes).Success?
    ensures owner == t.owner && WithinCredit(b, windowEvents, windowBytes)
  {
    hide IngestPrepared, TotalCharge, Links, Ancestor, CheckAll;
  }

  lemma IngestContinues(st: Stream, t: Tables, owner: nat, b: Batch, windowEvents: nat, windowBytes: nat)
    requires StreamOk(st) && TablesOk(st, t) && Orderly(st, t)
    requires Ingest(st, t, owner, b, windowEvents, windowBytes).Success?
    ensures ContinuesLog(st, t, b)
  {
    hide ChainOf, Ingest, HonestLog, TotalCharge, RowsChained;
    var t' := Ingest(st, t, owner, b, windowEvents, windowBytes).value;
    IngestOverlays(st, t, owner, b, windowEvents, windowBytes);
    IngestOrderly(st, t, owner, b, windowEvents, windowBytes);
    LaidIsPrefix(t, b, t');
    HonestPrefix(st, Stored(t'), |Laid(t, b)|);
    assert forall e :: e in b.events ==> e in Laid(t, b);
    assert forall e :: e in Laid(t, b) ==> e in Stored(t');
  }

  lemma StoredGrows(t: Tables, t': Tables)
    requires Grows(t, t')
    ensures |Stored(t)| <= |Stored(t')| && Stored(t) == Stored(t')[..|Stored(t)|]
  {
    forall i | 0 <= i < |t.events|
      ensures Stored(t)[i] == Stored(t')[i]
    {
      assert t'.events[i] == t.events[i];
    }
  }

  lemma HeldPiece(t: Tables, first: int, es: seq<Event>)
    requires Holds(t, first, es)
    ensures 1 <= first && first - 1 + |es| <= |Stored(t)| && Stored(t)[first - 1..first - 1 + |es|] == es
  {
  }

  lemma LaidIsPrefix(t: Tables, b: Batch, t': Tables)
    requires 1 <= b.first <= |t.events| + 1 && Grows(t, t') && Holds(t', b.first, b.events)
    ensures |Laid(t, b)| <= |Stored(t')| && Laid(t, b) == Stored(t')[..|Laid(t, b)|]
    ensures Stored(t) <= Stored(t') && Compatible(Laid(t, b), Stored(t))
  {
    hide Compatible, Grows, Holds, Stored;
    StoredGrows(t, t');
    HeldPiece(t', b.first, b.events);
    PrefixJoins(Stored(t'), b.first - 1, b.first - 1 + |b.events|, |Stored(t)|);
    PrefixesCompatible(Stored(t'), |Laid(t, b)|, |Stored(t)|);
  }

  lemma PrefixJoins(s: seq<Event>, i: nat, j: nat, k: nat)
    requires i <= j <= |s| && i <= k <= |s|
    ensures s[..k][..i] + s[i..j] == s[..j]
  {
  }

  lemma PrefixesCompatible(s: seq<Event>, i: nat, j: nat)
    requires i <= |s| && j <= |s|
    ensures Compatible(s[..i], s[..j])
  {
  }

  // The longer of the stored log and the one with the batch laid over it.
  lemma LongerLog(t: Tables, b: Batch) returns (es: seq<Event>)
    requires 1 <= b.first <= |t.events| + 1 && Compatible(Laid(t, b), Stored(t))
    ensures es == Laid(t, b) || es == Stored(t)
    ensures var last := b.first - 1 + |b.events|;
      && last <= |es| && es[..last] == Laid(t, b) && es[b.first - 1..last] == b.events
      && |t.events| <= |es| && es[..|t.events|] == Stored(t)
      && forall i :: |t.events| <= i < |es| ==> b.first - 1 <= i < last && es[i] == b.events[i - (b.first - 1)]
  {
    var laid, stored := Laid(t, b), Stored(t);
    es := if stored <= laid then laid else stored;
    var at, last := b.first - 1, |laid|;
    assert laid[at..last] == b.events;
    assert es[..last] == laid && es[..|stored|] == stored;
    assert es[at..last] == laid[at..last];
  }

  lemma ContinuingAccepted(st: Stream, t: Tables, b: Batch, windowEvents: nat, windowBytes: nat)
    requires StreamOk(st) && TablesOk(st, t) && Orderly(st, t)
    requires WithinCredit(b, windowEvents, windowBytes) && ContinuesLog(st, t, b)
    ensures Ingest(st, t, t.owner, b, windowEvents, windowBytes).Success?
  {
    hide ChainOf, Ingest, HonestLog, TotalCharge, RowsChained, Compatible, Laid, Stored;
    var es := LongerLog(t, b);
    forall i | 0 <= i < |es|
      ensures es[i].relay !in t.foreign
    {
      if i < |t.events| {
        assert es[i] == es[..|t.events|][i] && es[i] in Stored(t);
      } else {
        assert es[i] in b.events;
      }
    }
    HonestBatchAccepted(st, t, es, t.owner, b, windowEvents, windowBytes);
  }

  // ------------------------------------------------------------------ one event

  // A replay is accepted exactly when it is the stored event with the stored hash; a new event exactly when it is
  // valid, the next one, in order after the last, and its relay id is new. Each failure has its code.
  lemma IngestOneExactly(st: Stream, t: Tables, e: Event, ch: Octets)
    requires TablesOk(st, t) && e.sequence >= 1
    ensures e.sequence <= t.head ==>
      IngestOne(st, t, e, ch) ==
        if Stored(t)[e.sequence - 1] == e && ch == ChainOf(st, Stored(t)[..e.sequence]) then Success(t)
        else Failure(EventIdentityMismatch)
    ensures e.sequence > t.head && Valid(st, e) ==>
      var r := IngestOne(st, t, e, ch);
      && (e.sequence != t.head + 1 ==> r == Failure(SequenceGap))
      && (e.sequence == t.head + 1 && !AfterLast(st, Stored(t), e) ==> r == Failure(CheckpointBackdatedEvent))
      && (e.sequence == t.head + 1 && AfterLast(st, Stored(t), e) ==>
            if RelayTaken(t, e.relay) then r == Failure(EventIdentityMismatch)
            else r == Success(Committed(t, e, ch, Boundary(st, e))))
  {
    hide ChainOf;
    FindRow(t.events, e.sequence);
    assert RowChained(st, t, e.sequence - 1);
  }

  // The event comes in order after the log's last one.
  ghost predicate AfterLast(st: Stream, es: seq<Event>, e: Event)
    requires Valid(st, e)
  {
    if es == [] then e.time >= 0 && Boundary(st, e) >= -1
    else Valid(st, es[|es| - 1]) && InOrderAfter(st, es[|es| - 1], e)
  }

  // ------------------------------------------------------------------ refusals of batches

  // Refusals before any event is looked at, in the order of the checks.
  lemma IngestRefusals(st: Stream, t: Tables, owner: nat, b: Batch, windowEvents: nat, windowBytes: nat)
    requires StreamOk(st) && TablesOk(st, t)
    ensures var r := Ingest(st, t, owner, b, windowEvents, windowBytes);
      && (!WithinCredit(b, windowEvents, windowBytes) ==> r == Failure(ResourceLimitExceeded))
      && (WithinCredit(b, windowEvents, windowBytes) ==>
            && (b.first != b.events[0].sequence ==> r == Failure(SequenceGap))
            && (b.first == b.events[0].sequence && AllValid(st, b.events) ==>
                  && (owner != t.owner ==> r == Failure(StreamAlreadyActive))
                  && (owner == t.owner && (b.first > t.head + 1 || !Consecutive(b.events, b.first)) ==>
                        r == Failure(SequenceGap))
                  && (owner == t.owner && 1 <= b.first <= |t.events| + 1 && Consecutive(b.events, b.first) ==>
                        b.terminal != ChainOf(st, Laid(t, b)) ==> r == Failure(ChainMismatch))))
  {
    hide ChainOf, TotalCharge, IngestPrepared, Links, RowsChained, CheckAll, Ancestor;
    if WithinCredit(b, windowEvents, windowBytes) && b.first == b.events[0].sequence && AllValid(st, b.events) {
      CheckAllValid(st, b.events);
      assert Valid(st, b.events[0]);
      if b.first <= t.head + 1 {
        AncestorIs(st, t, b.first);
        LinksAre(st, Stored(t)[..b.first - 1], b.events, |b.events| - 1);
        assert b.events[..|b.events|] == b.events;
      }
    }
  }
}
