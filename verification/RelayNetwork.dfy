// Steps that involve a connection keep the relay's invariant, and none of them refuses an honest message.
module RelayNetwork {
  import opened Wrappers
  import opened Bytes
  import opened Stream
  import opened WalFile
  import opened Sender
  import opened Receiver
  import opened ReceiverTheorems
  import opened Relay
  import opened RelayInvariant
  import opened RelaySender

  // ------------------------------------------------------------------ honest messages are accepted

  lemma MemoryHash(st: Stream, m: Memory, log: seq<Record>, n: nat)
    requires Remembers(st, m, log) && n <= |log|
    ensures |m.hashes| == |log| + 1 && m.events == Events(log)
    ensures HashAt(st, Events(log), n, m.hashes[n])
  {
    ImageMirrors(st, log);
  }

  // The hello of a connecting sender always opens a session: no rollback and no split is ever reported.
  lemma HelloAccepted(c: Config, s: State)
    requires ConfigOk(c) && Inv(c, s) && s.process.Up? && s.process.task.Connecting?
    ensures s.process.task.ticket in s.hellos && Open(c.st, s.tables, s.hellos[s.process.task.ticket]).Success?
  {
    hide LogOk, HonestLog, Frames, HoldsPrefix, Remembers, Open;
    HonestHelloAccepted(c.st, s.tables, Events(s.history.log), s.hellos[s.process.task.ticket]);
  }

  // The greeting that answers the sender's own hello is accepted.
  lemma GreetingAccepted(c: Config, s: State, conn: nat)
    requires ConfigOk(c) && Inv(c, s) && s.process.Up? && s.process.task.Connecting? && conn in s.channels
    requires s.channels[conn].ticket == s.process.task.ticket && s.channels[conn].greeting.Some?
    ensures Bound(s.process.memory, s.channels[conn].greeting.value)
         == Success(s.process.memory.state.(peer := Some(c.peer), bound := true))
  {
    hide LogOk, HonestLog, Frames, HoldsPrefix, Remembers;
    var m, g := s.process.memory, s.channels[conn].greeting.value;
    assert ChannelOk(c, s, conn);
    AnchorWithin(c, s);
    MemoryHash(c.st, m, s.history.log, g.committed);
    TailOf(c, s);
  }

  lemma TailOf(c: Config, s: State)
    requires ProcessOk(c, s) && s.process.Up? && !PendingRecord(s.process.task)
    ensures s.process.memory.state == s.disk.anchor && s.disk.anchor.tail == |s.history.log|
  {
  }

  // Adopting the receiver's committed head succeeds.
  lemma HeadAdopted(c: Config, s: State)
    requires ConfigOk(c) && Inv(c, s) && s.process.Up? && s.process.task.Adopting?
    ensures var m, g := s.process.memory, s.process.task.greeting;
      Acknowledged(m, g.committed, g.chain) == Success(m.state.(ack := g.committed, ackHash := g.chain))
  {
    hide LogOk, HonestLog, Frames, HoldsPrefix, Remembers;
    var m, g := s.process.memory, s.process.task.greeting;
    AnchorWithin(c, s);
    TailOf(c, s);
    MemoryHash(c.st, m, s.history.log, g.committed);
  }

  // A batch that reaches the session owning the stream is committed, and moves the head to its last event.
  lemma BatchCommitted(c: Config, s: State, conn: nat)
    requires ConfigOk(c) && Inv(c, s) && conn in s.channels && s.channels[conn].request.Some? && conn == s.tables.owner
    ensures Ingest(c.st, s.tables, conn, s.channels[conn].request.value, MAX_BATCH, MAX_CHARGE).Success?
    ensures var b := s.channels[conn].request.value;
      var t := Ingest(c.st, s.tables, conn, b, MAX_BATCH, MAX_CHARGE).value;
      && HoldsPrefix(c.st, t, Events(s.history.log)) && t.owner == conn && t.foreign == s.tables.foreign
      && t.head == s.tables.head + |b.events|
  {
    hide LogOk, HonestLog, Frames, Remembers, Ingest, ChainOf, TotalCharge, ProcessOk, ConnectionOk, ReportsOk;
    assert ChannelOk(c, s, conn);
    assert HoldsPrefix(c.st, s.tables, Events(s.history.log));
    var b := s.channels[conn].request.value;
    HonestBatchAccepted(c.st, s.tables, Events(s.history.log), conn, b, MAX_BATCH, MAX_CHARGE);
  }

  // The acknowledgement that arrives is the one for the batch in flight, and it is accepted.
  lemma AckAccepted(c: Config, s: State)
    requires ConfigOk(c) && Inv(c, s) && s.process.Up? && s.process.task.Streaming? && s.process.task.inflight.Some?
    requires s.process.task.conn in s.channels && s.channels[s.process.task.conn].response.Some?
    ensures var m, a := s.process.memory, s.channels[s.process.task.conn].response.value;
      && a.sequence == s.process.task.inflight.value > m.state.ack
      && Acknowledged(m, a.sequence, a.chain) == Success(m.state.(ack := a.sequence, ackHash := a.chain))
  {
    hide LogOk, HonestLog, Frames, HoldsPrefix, Remembers;
    var m, a := s.process.memory, s.channels[s.process.task.conn].response.value;
    assert ChannelOk(c, s, s.process.task.conn);
    AnchorWithin(c, s);
    TailOf(c, s);
    MemoryHash(c.st, m, s.history.log, a.sequence);
  }

  // ------------------------------------------------------------------ the steps

  lemma SendHelloInv(c: Config, s: State, s': State, ticket: nat)
    requires ConfigOk(c) && Inv(c, s) && StepSendHello(c, s, s', ticket)
    ensures Inv(c, s')
  {
    hide LogOk, HonestLog, Frames, HoldsPrefix, Remembers, ChainOf, TotalCharge;
    forall t: nat
      ensures HelloOk(c, s', t)
    {
      assert HelloOk(c, s, t);
    }
    forall conn: nat
      ensures ChannelOk(c, s', conn)
    {
      assert ChannelOk(c, s, conn);
    }
    assert ReportsOk(s') by {
      SameReports(s, s');
    }
  }

  lemma SameReports(s: State, s': State)
    requires ReportsOk(s) && s'.history == s.history && s'.disk.anchor.tail == s.disk.anchor.tail
    ensures ReportsOk(s')
  {
    forall key
      ensures Answered(s', key)
    {
      assert Answered(s, key);
    }
  }

  lemma OpenSessionInv(c: Config, s: State, s': State, ticket: nat)
    requires ConfigOk(c) && Inv(c, s) && StepOpenSession(c, s, s', ticket)
    ensures Inv(c, s')
  {
    hide LogOk, HonestLog, Frames, Remembers, ChainOf, TotalCharge, Open, HoldsPrefix, HashAt;
    var o := Open(c.st, s.tables, s.hellos[ticket]);
    if o.Success? {
      OpenedIs(c, s.tables, s.hellos[ticket]);
      OpenedHolds(c, s, o.value);
      forall k: nat
        ensures HelloOk(c, s', k)
      {
        assert HelloOk(c, s, k);
      }
      forall conn: nat
        ensures ChannelOk(c, s', conn)
      {
        assert ChannelOk(c, s, conn);
      }
      SameReports(s, s');
      assert ChannelOk(c, s, s.tables.owner + 1);
    }
  }

  lemma OpenedIs(c: Config, t: Tables, h: Hello)
    requires Open(c.st, t, h).Success?
    ensures Open(c.st, t, h).value == t.(owner := t.owner + 1) && h.ack <= t.head <= h.tail
  {
  }

  lemma OpenedHolds(c: Config, s: State, t: Tables)
    requires ReceiverOk(c, s) && t == s.tables.(owner := s.tables.owner + 1)
    ensures HoldsPrefix(c.st, t, Events(s.history.log)) && t.head >= 0
    ensures HashAt(c.st, Events(s.history.log), t.head, t.chain)
  {
    assert Stored(t) == Stored(s.tables);
    forall i
      ensures RowChained(c.st, t, i)
    {
      assert RowChained(c.st, s.tables, i);
    }
  }

  // Giving a connection up.
  lemma IdleInv(c: Config, s: State, s': State)
    requires Inv(c, s) && s.process.Up? && !PendingRecord(s.process.task) && s' == WithTask(s, s.process.memory, Idle)
    ensures Inv(c, s')
  {
    hide LogOk, HonestLog, Frames, HoldsPrefix, Remembers, ChainOf, TotalCharge, HashAt;
    assert SenderSide(s, s') by {
      AnchorWithin(c, s);
    }
    MessagesKept(c, s, s');
    SameReports(s, s');
  }

  // The anchor and the memory take the same new state, which keeps the tail and agrees with the receiver.
  ghost predicate Adopts(c: Config, s: State, s': State, a: Anchor, task: Task) {
    && s.process.Up? && !PendingRecord(s.process.task) && !PendingRecord(task)
    && a.tail == s.disk.anchor.tail && a.tailHash == s.disk.anchor.tailHash
    && a.lastTime == s.disk.anchor.lastTime && a.checkpoint == s.disk.anchor.checkpoint
    && a.ack <= s.tables.head && HashAt(c.st, Events(s.history.log), a.ack, a.ackHash)
    && (a.peer == None || a.peer == Some(c.peer))
    && s'.disk == s.disk.(anchor := a) && s'.process == Up(s.process.memory.(state := a), task)
    && s'.tables == s.tables && s'.hellos == s.hellos && s'.history == s.history
    // channels only lose messages
    && s'.channels.Keys == s.channels.Keys
    && forall conn :: conn in s.channels ==> Drained(s.channels[conn], s'.channels[conn])
  }

  predicate Drained(ch: Channel, ch': Channel) {
    && ch'.ticket == ch.ticket
    && (ch'.greeting == ch.greeting || ch'.greeting == None)
    && (ch'.request == ch.request || ch'.request == None)
    && (ch'.response == ch.response || ch'.response == None)
  }

  lemma AdoptsInv(c: Config, s: State, s': State, a: Anchor, task: Task)
    requires Inv(c, s) && Adopts(c, s, s', a, task) && ConnectionOk(c, s')
    ensures Inv(c, s')
  {
    hide LogOk, HonestLog, Frames, HoldsPrefix, ChainOf, TotalCharge, Image, BrokenFrame, Answered;
    AnchorWithin(c, s);
    SameReports(s, s');
    forall ticket: nat
      ensures HelloOk(c, s', ticket)
    {
      assert HelloOk(c, s, ticket);
    }
    forall conn: nat
      ensures ChannelOk(c, s', conn)
    {
      assert ChannelOk(c, s, conn);
    }
  }

  lemma ReceiveGreetingInv(c: Config, s: State, s': State, conn: nat)
    requires ConfigOk(c) && Inv(c, s) && StepReceiveGreeting(c, s, s', conn)
    ensures Inv(c, s')
  {
    hide LogOk, HonestLog, Frames, HoldsPrefix, ChainOf, TotalCharge, Image, Remembers, Bound;
    GreetingAccepted(c, s, conn);
    TailOf(c, s);
    assert ChannelOk(c, s, conn);
    AdoptsInv(c, s, s', s'.disk.anchor, s'.process.task);
  }

  lemma AdoptHeadInv(c: Config, s: State, s': State)
    requires ConfigOk(c) && Inv(c, s) && StepAdoptHead(c, s, s')
    ensures Inv(c, s')
  {
    hide LogOk, HonestLog, Frames, HoldsPrefix, ChainOf, TotalCharge, Image, Remembers, Acknowledged;
    HeadAdopted(c, s);
    TailOf(c, s);
    AdoptsInv(c, s, s', s'.disk.anchor, s'.process.task);
  }

  lemma ReceiveAckInv(c: Config, s: State, s': State)
    requires ConfigOk(c) && Inv(c, s) && StepReceiveAck(c, s, s')
    ensures Inv(c, s')
  {
    hide LogOk, HonestLog, Frames, HoldsPrefix, ChainOf, TotalCharge, Image, Remembers, Acknowledged;
    AckAccepted(c, s);
    TailOf(c, s);
    assert ChannelOk(c, s, s.process.task.conn);
    AdoptsInv(c, s, s', s'.disk.anchor, s'.process.task);
  }

  lemma NextBatchOk(c: Config, s: State, conn: nat, count: nat)
    requires Inv(c, s) && s.process.Up? && s.process.task == Streaming(conn, None)
    requires var m := s.process.memory;
      0 < count <= MAX_BATCH && m.state.ack + count <= |m.events| && m.state.ack + count < |m.hashes|
    requires TotalCharge(NextBatch(s.process.memory, count).events) <= MAX_CHARGE
    ensures BatchOk(c, s, conn, NextBatch(s.process.memory, count))
  {
    hide LogOk, HonestLog, Frames, HoldsPrefix, TotalCharge, Remembers, ChainOf;
    var m := s.process.memory;
    TailOf(c, s);
    AnchorWithin(c, s);
    MemoryHash(c.st, m, s.history.log, 0);
    MemoryHash(c.st, m, s.history.log, m.state.ack + count);
  }

  lemma SendBatchInv(c: Config, s: State, s': State, count: nat)
    requires ConfigOk(c) && Inv(c, s) && StepSendBatch(c, s, s', count)
    ensures Inv(c, s')
  {
    hide LogOk, HonestLog, Frames, HoldsPrefix, TotalCharge, Remembers, ChainOf;
    var conn := s.process.task.conn;
    NextBatchOk(c, s, conn, count);
    SameReports(s, s');
    forall ticket: nat
      ensures HelloOk(c, s', ticket)
    {
      assert HelloOk(c, s, ticket);
    }
    forall k: nat
      ensures ChannelOk(c, s', k)
    {
      assert ChannelOk(c, s, k);
      assert BatchOk(c, s', conn, NextBatch(s.process.memory, count));
    }
  }

  lemma IngestBatchInv(c: Config, s: State, s': State, conn: nat)
    requires ConfigOk(c) && Inv(c, s) && StepIngestBatch(c, s, s', conn)
    ensures Inv(c, s')
  {
    hide LogOk, HonestLog, Frames, HoldsPrefix, TotalCharge, Remembers, ChainOf, Ingest;
    var b := s.channels[conn].request.value;
    assert ChannelOk(c, s, conn);
    if conn == s.tables.owner {
      BatchCommitted(c, s, conn);
      var t := Ingest(c.st, s.tables, conn, b, MAX_BATCH, MAX_CHARGE).value;
      AckIsHead(c, s, t);
      CommittedInv(c, s, s', conn, t);
    } else {
      SupersededSessionRefused(c.st, s.tables, conn, b, MAX_BATCH, MAX_CHARGE);
      FewerChannelsInv(c, s, s', {conn});
    }
  }

  lemma AckIsHead(c: Config, s: State, t: Tables)
    requires HoldsPrefix(c.st, t, Events(s.history.log))
    ensures HashAt(c.st, Events(s.history.log), t.head, t.chain)
  {
  }

  lemma CommittedInv(c: Config, s: State, s': State, conn: nat, t: Tables)
    requires Inv(c, s) && conn in s.channels && s.channels[conn].request.Some? && conn == s.tables.owner
    requires var b := s.channels[conn].request.value;
      HoldsPrefix(c.st, t, Events(s.history.log)) && t.owner == conn && t.head == s.tables.head + |b.events|
    requires HashAt(c.st, Events(s.history.log), t.head, t.chain)
    requires s' == s.(tables := t,
      channels := s.channels[conn := s.channels[conn].(request := None, response := Some(AckOf(t)))])
    ensures Inv(c, s')
  {
    hide LogOk, HonestLog, Frames, HoldsPrefix, TotalCharge, Remembers, ChainOf;
    assert ChannelOk(c, s, conn);
    SameReports(s, s');
    forall ticket: nat
      ensures HelloOk(c, s', ticket)
    {
      assert HelloOk(c, s, ticket);
    }
    forall k: nat
      ensures ChannelOk(c, s', k)
    {
      assert ChannelOk(c, s, k);
    }
  }

  lemma FewerChannelsInv(c: Config, s: State, s': State, gone: set<nat>)
    requires Inv(c, s) && s' == s.(channels := s.channels - gone)
    ensures Inv(c, s')
  {
    hide LogOk, HonestLog, Frames, HoldsPrefix, TotalCharge, Remembers, ChainOf;
    SameReports(s, s');
    forall ticket: nat
      ensures HelloOk(c, s', ticket)
    {
      assert HelloOk(c, s, ticket);
    }
    forall k: nat
      ensures ChannelOk(c, s', k)
    {
      assert ChannelOk(c, s, k);
    }
  }

  lemma ForeignHolds(c: Config, s: State, relay: Octets)
    requires ReceiverOk(c, s) && FreshRelay(s, relay)
    ensures HoldsPrefix(c.st, s.tables.(foreign := s.tables.foreign + {relay}), Events(s.history.log))
  {
    hide ChainOf, HonestLog;
    var t := s.tables.(foreign := s.tables.foreign + {relay});
    assert Stored(t) == Stored(s.tables);
    forall i
      ensures RowChained(c.st, t, i)
    {
      assert RowChained(c.st, s.tables, i);
    }
    assert forall i :: 0 <= i < |s.history.log| ==> Events(s.history.log)[i] in Events(s.history.log);
  }

  lemma ForeignCommitInv(c: Config, s: State, s': State, relay: Octets)
    requires ConfigOk(c) && Inv(c, s) && StepForeignCommit(c, s, s', relay)
    ensures Inv(c, s')
  {
    hide LogOk, HonestLog, Frames, TotalCharge, Remembers, ChainOf, HoldsPrefix, HashAt;
    SameReports(s, s');
    ForeignHolds(c, s, relay);
    forall ticket: nat
      ensures HelloOk(c, s', ticket)
    {
      assert HelloOk(c, s, ticket);
    }
    forall k: nat
      ensures ChannelOk(c, s', k)
    {
      assert ChannelOk(c, s, k);
    }
  }
}
