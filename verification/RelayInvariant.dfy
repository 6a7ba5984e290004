// What every reachable state of the relay satisfies.
module RelayInvariant {
  import opened Wrappers
  import opened Bytes
  import opened Stream
  import opened WalFile
  import opened Sender
  import opened Receiver
  import opened ReceiverTheorems
  import opened Relay

  // Chain hash of the first n events.
  ghost predicate HashAt(st: Stream, es: seq<Event>, n: int, digest: Octets) {
    0 <= n <= |es| && digest == ChainOf(st, es[..n])
  }

  // ------------------------------------------------------------------ the log and the anchor

  ghost predicate FileOk(c: Config, s: State) {
    var log := s.history.log;
    && LogOk(c.st, c.cd, log)
    && s.disk.file == Frames(c.st, c.cd, log) + s.history.torn
    && (s.history.torn != [] ==> s.process.Down? && BrokenFrame(c, s.history.torn))
    && s.history.stable <= |log|
    && s.disk.synced == |Frames(c.st, c.cd, log[..s.history.stable])|
  }

  ghost predicate AnchorOk(c: Config, s: State) {
    var a, es := s.disk.anchor, Events(s.history.log);
    && HashAt(c.st, es, a.tail, a.tailHash)
    && HashAt(c.st, es, a.ack, a.ackHash)
    && a.ack <= a.tail <= s.history.stable
    // at most one record has got past the anchor
    && |s.history.log| <= a.tail + 1
    && (a.peer == None || a.peer == Some(c.peer))
  }

  // Callers that were answered: their record is durable at the sequence they were told.
  ghost predicate Answered(s: State, key: Octets) {
    key in s.history.reported ==>
      1 <= s.history.reported[key] <= s.disk.anchor.tail <= |s.history.log|
      && s.history.log[s.history.reported[key] - 1].key == key
  }

  ghost predicate ReportsOk(s: State) {
    forall key {:trigger Answered(s, key)} :: Answered(s, key)
  }

  // ------------------------------------------------------------------ the receiver

  ghost predicate ReceiverOk(c: Config, s: State) {
    var es := Events(s.history.log);
    && HonestLog(c.st, es)
    && HoldsPrefix(c.st, s.tables, es)
    && s.disk.anchor.ack <= s.tables.head <= s.disk.anchor.tail
  }

  // ------------------------------------------------------------------ the sender's process

  function PendingRecord(task: Task): bool {
    task.Appended? || task.Synced? || task.Anchored?
  }

  ghost predicate PendingOk(c: Config, s: State, m: Memory, r: Record) {
    var log := s.history.log;
    && log != [] && log[|log| - 1] == r
    && Remembers(c.st, m, log[..|log| - 1])
    && r.event.sequence == |log| && Valid(c.st, r.event)
  }

  ghost predicate ProcessOk(c: Config, s: State) {
    s.process.Up? ==>
      var m, log := s.process.memory, s.history.log;
      match s.process.task
      case Appended(r) => PendingOk(c, s, m, r) && s.disk.anchor == m.state && s.history.stable == |log| - 1
      case Synced(r) => PendingOk(c, s, m, r) && s.disk.anchor == m.state && s.history.stable == |log|
      case Anchored(r) => PendingOk(c, s, m, r) && s.history.stable == |log|
          && s.disk.anchor == AnchorAfter(m.state, r, Boundary(c.st, r.event))
      case _ => Remembers(c.st, m, log) && s.disk.anchor == m.state && s.history.stable == |log|
  }

  // ------------------------------------------------------------------ messages

  // A hello names a durable prefix and an acknowledged prefix that the receiver still holds.
  ghost predicate HelloOk(c: Config, s: State, ticket: nat) {
    ticket in s.hellos ==>
      var h := s.hellos[ticket];
      && h.ack <= h.tail <= s.disk.anchor.tail && h.ack <= s.tables.head
      && HashAt(c.st, Events(s.history.log), h.ack, h.ackHash)
  }

  ghost predicate GreetingOk(c: Config, s: State, conn: nat, ticket: nat, g: Greeting) {
    && g.receiver == c.peer.receiver && g.incarnation == c.peer.incarnation && g.sameContract && g.checkpointOnly
    && g.committed <= s.tables.head && HashAt(c.st, Events(s.history.log), g.committed, g.chain)
    && ticket in s.hellos && s.hellos[ticket].ack <= g.committed <= s.hellos[ticket].tail
    && (conn == s.tables.owner ==> g.committed == s.tables.head)
  }

  ghost predicate BatchOk(c: Config, s: State, conn: nat, b: Batch) {
    var es, n := Events(s.history.log), |b.events|;
    && 0 < n <= MAX_BATCH && TotalCharge(b.events) <= MAX_CHARGE
    && 1 <= b.first <= s.tables.head + 1 && b.first - 1 + n <= s.disk.anchor.tail
    && b.first - 1 + n <= |es| && b.events == es[b.first - 1..b.first - 1 + n]
    && b.terminal == ChainOf(c.st, es[..b.first - 1 + n])
    && (conn == s.tables.owner ==> b.first == s.tables.head + 1)
  }

  ghost predicate AckOk(c: Config, s: State, conn: nat, a: Ack) {
    && a.sequence <= s.tables.head && HashAt(c.st, Events(s.history.log), a.sequence, a.chain)
    && (conn == s.tables.owner ==> a.sequence == s.tables.head)
  }

  ghost predicate ChannelOk(c: Config, s: State, conn: nat) {
    conn in s.channels ==>
      var ch := s.channels[conn];
      && conn <= s.tables.owner
      && (ch.greeting.Some? ==>
            GreetingOk(c, s, conn, ch.ticket, ch.greeting.value) && ch.request.None? && ch.response.None?)
      && (ch.request.Some? ==> BatchOk(c, s, conn, ch.request.value) && ch.response.None?)
      && (ch.response.Some? ==> AckOk(c, s, conn, ch.response.value))
  }

  ghost predicate MessagesOk(c: Config, s: State) {
    && (forall ticket: nat {:trigger HelloOk(c, s, ticket)} :: HelloOk(c, s, ticket))
    && (forall conn: nat {:trigger ChannelOk(c, s, conn)} :: ChannelOk(c, s, conn))
  }

  // ------------------------------------------------------------------ the connection in use

  ghost predicate Quiet(s: State, conn: nat) {
    conn in s.channels ==>
      s.channels[conn].greeting.None? && s.channels[conn].request.None? && s.channels[conn].response.None?
  }

  // One batch is under way: it is still to be ingested, or its acknowledgement is on its way back.
  ghost predicate InFlight(s: State, conn: nat, ack: nat, last: int) {
    && ack < last
    && (conn in s.channels ==>
          var ch := s.channels[conn];
          && ch.greeting.None?
          && (ch.request.Some? || ch.response.Some?)
          && (ch.request.Some? ==> ch.request.value.first == ack + 1 && ack + |ch.request.value.events| == last)
          && (ch.response.Some? ==> ch.response.value.sequence == last))
  }

  ghost predicate ConnectionOk(c: Config, s: State) {
    s.process.Up? ==>
      var m := s.process.memory;
      match s.process.task
      case Connecting(ticket) => ticket in s.hellos && s.hellos[ticket] == Greet(m)
      case Adopting(conn, g) =>
          && conn <= s.tables.owner && Quiet(s, conn)
          && m.state.ack <= g.committed <= s.tables.head && HashAt(c.st, Events(s.history.log), g.committed, g.chain)
          && (conn == s.tables.owner ==> g.committed == s.tables.head)
      case Streaming(conn, None) =>
          conn <= s.tables.owner && Quiet(s, conn) && (conn == s.tables.owner ==> m.state.ack == s.tables.head)
      case Streaming(conn, Some(last)) => conn <= s.tables.owner && InFlight(s, conn, m.state.ack, last)
      case _ => true
  }

  ghost predicate Inv(c: Config, s: State) {
    && FileOk(c, s)
    && AnchorOk(c, s)
    && ReportsOk(s)
    && ReceiverOk(c, s)
    && ProcessOk(c, s)
    && MessagesOk(c, s)
    && ConnectionOk(c, s)
  }

  // ------------------------------------------------------------------ what sender steps leave alone

  lemma HashAtKept(st: Stream, es: seq<Event>, es': seq<Event>, k: int, n: int, digest: Octets)
    requires HashAt(st, es, n, digest) && n <= k <= |es| && k <= |es'| && es[..k] == es'[..k]
    ensures HashAt(st, es', n, digest)
  {
    assert es[..n] == es[..k][..n] == es'[..k][..n] == es'[..n];
  }

  // s' differs from s on the sender's side only, and the logs agree up to the anchored tail.
  ghost predicate SenderSide(s: State, s': State) {
    var k, es, es' := s.disk.anchor.tail, Events(s.history.log), Events(s'.history.log);
    && s'.tables == s.tables && s'.channels == s.channels && s'.hellos == s.hellos
    && k <= s'.disk.anchor.tail && k <= |es| && k <= |es'| && es[..k] == es'[..k]
  }

  lemma HelloKept(c: Config, s: State, s': State, ticket: nat)
    requires SenderSide(s, s') && HelloOk(c, s, ticket)
    ensures HelloOk(c, s', ticket)
  {
    if ticket in s.hellos {
      var h := s.hellos[ticket];
      HashAtKept(c.st, Events(s.history.log), Events(s'.history.log), s.disk.anchor.tail, h.ack, h.ackHash);
    }
  }

  lemma ChannelKept(c: Config, s: State, s': State, conn: nat)
    requires SenderSide(s, s') && s.tables.head <= s.disk.anchor.tail && ChannelOk(c, s, conn)
    ensures ChannelOk(c, s', conn)
  {
    hide ChainOf, TotalCharge;
    if conn in s.channels {
      var ch, k, es, es' := s.channels[conn], s.disk.anchor.tail, Events(s.history.log), Events(s'.history.log);
      if ch.greeting.Some? {
        HashAtKept(c.st, es, es', k, ch.greeting.value.committed, ch.greeting.value.chain);
      }
      if ch.request.Some? {
        var b := ch.request.value;
        var e := b.first - 1 + |b.events|;
        SamePart(es, es', k, b.first - 1, e);
        SamePart(es, es', k, 0, e);
      }
      if ch.response.Some? {
        HashAtKept(c.st, es, es', k, ch.response.value.sequence, ch.response.value.chain);
      }
    }
  }

  lemma SamePart(es: seq<Event>, es': seq<Event>, k: int, i: int, j: int)
    requires 0 <= i <= j <= k <= |es| && k <= |es'| && es[..k] == es'[..k]
    ensures es[i..j] == es'[i..j]
  {
    assert es[i..j] == es[..k][i..j] && es'[i..j] == es'[..k][i..j];
  }

  lemma MessagesKept(c: Config, s: State, s': State)
    requires SenderSide(s, s') && s.tables.head <= s.disk.anchor.tail && MessagesOk(c, s)
    ensures MessagesOk(c, s')
  {
    hide HelloOk, ChannelOk, SenderSide;
    forall ticket: nat
      ensures HelloOk(c, s', ticket)
    {
      assert HelloOk(c, s, ticket);
      HelloKept(c, s, s', ticket);
    }
    forall conn: nat
      ensures ChannelOk(c, s', conn)
    {
      assert ChannelOk(c, s, conn);
      ChannelKept(c, s, s', conn);
    }
  }

  lemma ConnectionIdle(c: Config, s: State)
    requires s.process.Down? || s.process.task == Idle || PendingRecord(s.process.task)
    ensures ConnectionOk(c, s)
  {
  }

  lemma ReportsKept(s: State, s': State)
    requires ReportsOk(s) && s'.history.reported == s.history.reported
    requires s.disk.anchor.tail <= |s.history.log| && s.disk.anchor.tail <= s'.disk.anchor.tail <= |s'.history.log|
    requires s'.history.log[..s.disk.anchor.tail] == s.history.log[..s.disk.anchor.tail]
    ensures ReportsOk(s')
  {
    forall key
      ensures Answered(s', key)
    {
      assert Answered(s, key);
      if key in s.history.reported {
        var i := s.history.reported[key] - 1;
        assert s'.history.log[i] == s'.history.log[..s.disk.anchor.tail][i] == s.history.log[i];
      }
    }
  }

  // ------------------------------------------------------------------ initial states

  lemma InitInv(c: Config, s: State)
    requires ConfigOk(c) && Init(c, s)
    ensures Inv(c, s)
  {
    assert Events([]) == [];
    assert s.history.log[..0] == [];
  }

  // ------------------------------------------------------------------ admission steps

  lemma EventsPrefix(log: seq<Record>, i: nat)
    requires i <= |log|
    ensures Events(log[..i]) == Events(log)[..i]
  {
  }

  // The receiver's time rule for the next event is the sender's.
  lemma ContinuesInOrder(st: Stream, log: seq<Record>, r: Record)
    requires Image(st, log).Some? && Continues(st, Image(st, log).value, r)
    ensures Valid(st, r.event) && r.event.sequence == |log| + 1 && AllValid(st, Events(log))
    ensures if log == [] then r.event.time >= 0 && Boundary(st, r.event) >= -1
            else InOrderAfter(st, Events(log)[|log| - 1], r.event)
  {
    ImageMirrors(st, log);
  }

  lemma HonestSnoc(c: Config, s: State, r: Record)
    requires ReceiverOk(c, s) && Image(c.st, s.history.log).Some?
    requires Continues(c.st, Image(c.st, s.history.log).value, r) && FreshRelay(s, r.event.relay)
    ensures HonestLog(c.st, Events(s.history.log + [r]))
  {
    hide HonestLog, HoldsPrefix, Image, Continues;
    EventsSnoc(c.st, s.history.log, r);
    ContinuesInOrder(c.st, s.history.log, r);
    HonestAppend(c.st, Events(s.history.log), r.event);
  }

  lemma HoldsPrefixKept(c: Config, s: State, es: seq<Event>, e: Event)
    requires HoldsPrefix(c.st, s.tables, es) && e.relay !in s.tables.foreign
    ensures HoldsPrefix(c.st, s.tables, es + [e])
  {
    assert (es + [e])[..s.tables.head] == es[..s.tables.head];
  }

  lemma AdmitWriteInv(c: Config, s: State, s': State, key: Octets, time: int, boundary: int, relay: Octets)
    requires ConfigOk(c) && Inv(c, s) && StepAdmitWrite(c, s, s', key, time, boundary, relay)
    ensures Inv(c, s')
  {
    hide Admit, LogOk, HonestLog, HoldsPrefix, Continues, Remembers;
    hide MemoryAfter, Image, FileOk, MessagesOk, AnchorOk, ReportsOk;
    var m, log := s.process.memory, s.history.log;
    var r := Admit(c.st, c.cd, m, |s.disk.file|, key, time, boundary, relay).record;
    var log' := log + [r];
    AdmitWriteFacts(c, s, key, time, boundary, relay);
    AppendFile(c, s, s', r);
    HonestSnoc(c, s, r);
    EventsSnoc(c.st, log, r);
    HoldsPrefixKept(c, s, Events(log), r.event);
    AnchorWithin(c, s);
    assert Events(log')[..s.disk.anchor.tail] == Events(log)[..s.disk.anchor.tail];
    assert log'[..s.disk.anchor.tail] == log[..s.disk.anchor.tail];
    AfterSenderStep(c, s, s');
    assert log'[..|log'| - 1] == log;
  }

  lemma AnchorWithin(c: Config, s: State)
    requires FileOk(c, s) && AnchorOk(c, s)
    ensures s.disk.anchor.ack <= s.disk.anchor.tail <= s.history.stable <= |s.history.log| <= s.disk.anchor.tail + 1
    ensures LogOk(c.st, c.cd, s.history.log) && Image(c.st, s.history.log).Some?
  {
  }

  lemma AdmitWriteFacts(c: Config, s: State, key: Octets, time: int, boundary: int, relay: Octets)
    requires ConfigOk(c) && FileOk(c, s) && ProcessOk(c, s)
    requires s.process.Up? && s.process.task == Idle && s.process.memory.hashes != []
    requires Admit(c.st, c.cd, s.process.memory, |s.disk.file|, key, time, boundary, relay).Append?
    ensures var r := Admit(c.st, c.cd, s.process.memory, |s.disk.file|, key, time, boundary, relay).record;
      && r.event.relay == relay
      && r.event.sequence == |s.history.log| + 1 && Valid(c.st, r.event)
      && Image(c.st, s.history.log).Some? && Continues(c.st, Image(c.st, s.history.log).value, r)
      && LogOk(c.st, c.cd, s.history.log + [r])
      && Remembers(c.st, s.process.memory, s.history.log)
      && s.disk.anchor == s.process.memory.state && s.history.stable == |s.history.log| == s.disk.anchor.tail
  {
    hide MemoryAfter;
    AdmitContinues(c.st, c.cd, s.process.memory, s.history.log, |s.disk.file|, key, time, boundary, relay);
  }

  lemma AppendFile(c: Config, s: State, s': State, r: Record)
    requires FileOk(c, s) && s.process.Up? && LogOk(c.st, c.cd, s.history.log + [r])
    requires s'.history == s.history.(log := s.history.log + [r]) && s'.process.Up?
    requires s'.disk == s.disk.(file := s.disk.file + Frame(c.st, c.cd.text(r)))
    ensures FileOk(c, s')
  {
    var log := s.history.log;
    assert s.disk.file == Frames(c.st, c.cd, log);
    assert (log + [r])[..|log|] == log;
    assert (log + [r])[..s.history.stable] == log[..s.history.stable];
  }

  // A step on the sender's side keeps everything but the file, the receiver's log and the process.
  lemma AfterSenderStep(c: Config, s: State, s': State)
    requires Inv(c, s) && SenderSide(s, s') && s'.history.reported == s.history.reported
    requires s'.disk.anchor == s.disk.anchor && s.history.stable <= s'.history.stable <= |s'.history.log|
    requires |s'.history.log| <= s.disk.anchor.tail + 1
    requires s'.history.log[..s.disk.anchor.tail] == s.history.log[..s.disk.anchor.tail]
    requires s'.process.Down? || PendingRecord(s'.process.task) || s'.process.task == Idle
    ensures AnchorOk(c, s') && ReportsOk(s') && MessagesOk(c, s') && ConnectionOk(c, s')
  {
    var es, es', a := Events(s.history.log), Events(s'.history.log), s.disk.anchor;
    HashAtKept(c.st, es, es', a.tail, a.tail, a.tailHash);
    HashAtKept(c.st, es, es', a.tail, a.ack, a.ackHash);
    ReportsKept(s, s');
    MessagesKept(c, s, s');
    ConnectionIdle(c, s');
  }
}
