// The durable relay as a step system: one sender, one receiver, and the connections between them.
//
// Every durable write of the program is one step, so a crash can fall between any two of them. Messages are lost
// when a connection breaks; a connection that the sender gave up may still deliver what it already carried.
module Relay {
  import opened Wrappers
  import opened Bytes
  import opened Stream
  import opened WalFile
  import opened Sender
  import opened Receiver
  import opened ReceiverTheorems

  datatype Config = Config(st: Stream, cd: Codec, peer: Peer)

  ghost predicate ConfigOk(c: Config) {
    StreamOk(c.st) && CodecOk(c.st, c.cd) && |c.peer.receiver| == 16 && |c.peer.incarnation| == 16
  }

  // What the sender's process is in the middle of.
  datatype Task =
    | Idle
    | Appended(record: Record)                   // written, not yet synced
    | Synced(record: Record)                     // synced, anchor not yet replaced
    | Anchored(record: Record)                   // anchor replaced, caller not yet answered
    | Connecting(ticket: nat)                    // hello sent
    | Adopting(conn: nat, greeting: Greeting)    // greeting accepted, committed head not yet adopted
    | Streaming(conn: nat, inflight: Option<int>)

  datatype Process = Down | Up(memory: Memory, task: Task)

  // The receiver's end of a connection, named by the owner generation of its session.
  datatype Channel = Channel(ticket: nat, greeting: Option<Greeting>, request: Option<Batch>, response: Option<Ack>)

  // What has happened, for the statements only: complete records in the file, octets of a broken record after
  // them, how many of the records are durable, and the sequence returned to each caller.
  datatype History = History(log: seq<Record>, torn: Octets, stable: nat, reported: map<Octets, int>)

  datatype State = State(
    disk: Disk,
    process: Process,
    tables: Tables,
    channels: map<nat, Channel>,
    hellos: map<nat, Hello>,
    history: History)

  datatype Step =
    | AdmitWrite(key: Octets, time: int, boundary: int, relay: Octets)
    | AdmitSync
    | AdmitAnchor
    | AdmitReturn
    | IncreaseCap(cap: nat)
    | SenderCrash(length: nat)
    | RecoverSync
    | Recover
    | SendHello(ticket: nat)
    | OpenSession(ticket: nat)
    | ReceiveGreeting(conn: nat)
    | AdoptHead
    | SendBatch(count: nat)
    | IngestBatch(conn: nat)
    | ReceiveAck
    | Disconnect
    | EndSession(conn: nat)
    | ReceiverCrash
    | ForeignCommit(relay: Octets)

  ghost predicate Init(c: Config, s: State) {
    exists cap: nat ::
      s == State(Disk([], 0, InitialAnchor(c.st, cap)), Down, EmptyTables(c.st), map[], map[],
                 History([], [], 0, map[]))
  }

  function WithAnchor(s: State, a: Anchor): State {
    s.(disk := s.disk.(anchor := a))
  }

  function WithTask(s: State, m: Memory, task: Task): State {
    s.(process := Up(m, task))
  }

  // ------------------------------------------------------------------ the sender alone

  function FreshRelay(s: State, relay: Octets): bool {
    relay !in s.tables.foreign && forall e :: e in Events(s.history.log) ==> e.relay != relay
  }

  // The record goes into the file in one write; nothing is durable yet.
  ghost predicate StepAdmitWrite(c: Config, s: State, s': State, key: Octets, time: int, boundary: int, relay: Octets) {
    && s.process.Up? && s.process.task == Idle && s.process.memory.hashes != []
    && FreshRelay(s, relay)
    && var m := s.process.memory;
       var a := Admit(c.st, c.cd, m, |s.disk.file|, key, time, boundary, relay);
       && a.Append?
       && s' == s.(
            disk := s.disk.(file := s.disk.file + Frame(c.st, c.cd.text(a.record))),
            process := Up(m, Appended(a.record)),
            history := s.history.(log := s.history.log + [a.record]))
  }

  ghost predicate StepAdmitSync(c: Config, s: State, s': State) {
    && s.process.Up? && s.process.task.Appended?
    && s' == s.(
         disk := s.disk.(synced := |s.disk.file|),
         process := Up(s.process.memory, Synced(s.process.task.record)),
         history := s.history.(stable := |s.history.log|))
  }

  ghost predicate StepAdmitAnchor(c: Config, s: State, s': State) {
    && s.process.Up? && s.process.task.Synced?
    && var m, r := s.process.memory, s.process.task.record;
       && r.event.sequence >= 0 && Valid(c.st, r.event)
       && s' == WithTask(WithAnchor(s, AnchorAfter(m.state, r, Boundary(c.st, r.event))), m, Anchored(r))
  }

  ghost predicate StepAdmitReturn(c: Config, s: State, s': State) {
    && s.process.Up? && s.process.task.Anchored?
    && var m, r := s.process.memory, s.process.task.record;
       && r.event.sequence >= 0 && Valid(c.st, r.event)
       && s' == WithTask(s, MemoryAfter(m, r, Boundary(c.st, r.event)), Idle).(
            history := s.history.(reported := s.history.reported[r.key := r.event.sequence]))
  }

  ghost predicate StepIncreaseCap(c: Config, s: State, s': State, cap: nat) {
    && s.process.Up? && s.process.task == Idle && cap > s.process.memory.state.cap
    && var m := s.process.memory;
       s' == WithTask(WithAnchor(s, m.state.(cap := cap)), m.(state := m.state.(cap := cap)), Idle)
  }

  // The process dies; any octets past the synced length may be lost. An operation that fails with an I/O error
  // closes the log and is such a step with the file kept at whatever length the error left.
  ghost predicate StepSenderCrash(c: Config, s: State, s': State, length: nat) {
    exists j: nat, torn: Octets :: CutTo(c, s, s', length, j, torn)
  }

  // j records survive whole, and the octets of a broken one may follow.
  ghost predicate CutTo(c: Config, s: State, s': State, length: nat, j: nat, torn: Octets) {
    && s.disk.synced <= length <= |s.disk.file|
    && s.history.stable <= j <= |s.history.log|
    && s.disk.file[..length] == Frames(c.st, c.cd, s.history.log[..j]) + torn
    && (torn != [] ==> BrokenFrame(c, torn))
    && s' == s.(
         disk := s.disk.(file := s.disk.file[..length]),
         process := Down,
         history := s.history.(log := s.history.log[..j], torn := torn))
  }

  // A proper prefix of some record's frame.
  ghost predicate BrokenFrame(c: Config, torn: Octets) {
    exists raw: Octets :: 0 < |raw| <= MAX_RECORD && torn < Frame(c.st, raw)
  }

  // Reopening syncs what it read before anything else; a crash may follow.
  ghost predicate StepRecoverSync(c: Config, s: State, s': State) {
    && s.process.Down? && Recovered(c.st, c.cd, s.disk).Some?
    && s' == s.(disk := s.disk.(synced := |s.disk.file|), history := s.history.(stable := |s.history.log|))
  }

  // Reopening fails closed, without touching the files, unless the log reads back and matches the anchor.
  ghost predicate StepRecover(c: Config, s: State, s': State) {
    && s.process.Down?
    && match Recovered(c.st, c.cd, s.disk)
       case None => s' == s
       case Some(m) =>
         s' == WithTask(WithAnchor(s, m.state), m, Idle).(
           disk := Disk(s.disk.file, |s.disk.file|, m.state),
           history := s.history.(stable := |s.history.log|))
  }

  // ------------------------------------------------------------------ connections

  ghost predicate StepSendHello(c: Config, s: State, s': State, ticket: nat) {
    && s.process.Up? && s.process.task == Idle && ticket !in s.hellos
    && s' == WithTask(s, s.process.memory, Connecting(ticket)).(hellos := s.hellos[ticket := Greet(s.process.memory)])
  }

  function GreetingOf(c: Config, t: Tables): Greeting {
    Greeting(c.peer.receiver, c.peer.incarnation, true, true, if t.head < 0 then 0 else t.head, t.chain)
  }

  // Any hello ever sent may arrive; an accepted one takes the stream over.
  ghost predicate StepOpenSession(c: Config, s: State, s': State, ticket: nat) {
    && ticket in s.hellos
    && match Open(c.st, s.tables, s.hellos[ticket])
       case Failure(_) => s' == s
       case Success(t) =>
         s' == s.(tables := t,
                  channels := s.channels[t.owner := Channel(ticket, Some(GreetingOf(c, t)), None, None)])
  }

  ghost predicate StepReceiveGreeting(c: Config, s: State, s': State, conn: nat) {
    && s.process.Up? && s.process.task.Connecting? && conn in s.channels
    && var m, ch := s.process.memory, s.channels[conn];
       && ch.ticket == s.process.task.ticket && ch.greeting.Some?
       && match Bound(m, ch.greeting.value)
          case Failure(_) => s' == WithTask(s, m, Idle)
          case Success(a) =>
            s' == WithTask(WithAnchor(s, a), m.(state := a), Adopting(conn, ch.greeting.value)).(
              channels := s.channels[conn := ch.(greeting := None)])
  }

  ghost predicate StepAdoptHead(c: Config, s: State, s': State) {
    && s.process.Up? && s.process.task.Adopting?
    && var m, g := s.process.memory, s.process.task.greeting;
       match Acknowledged(m, g.committed, g.chain)
       case Failure(_) => s' == WithTask(s, m, Idle)
       case Success(a) => s' == WithTask(WithAnchor(s, a), m.(state := a), Streaming(s.process.task.conn, None))
  }

  // The next `count` unacknowledged events, as a batch.
  function NextBatch(m: Memory, count: nat): Batch
    requires m.state.ack + count <= |m.events| && m.state.ack + count < |m.hashes|
  {
    Batch(m.state.ack + 1, m.events[m.state.ack..m.state.ack + count], m.hashes[m.state.ack + count])
  }

  ghost predicate StepSendBatch(c: Config, s: State, s': State, count: nat) {
    && s.process.Up? && s.process.task.Streaming? && s.process.task.inflight == None
    && var m, conn := s.process.memory, s.process.task.conn;
       && 0 < count <= MAX_BATCH && m.state.ack + count <= |m.events| && m.state.ack + count < |m.hashes|
       && TotalCharge(NextBatch(m, count).events) <= MAX_CHARGE
       && s' == WithTask(s, m, Streaming(conn, Some(m.state.ack + count))).(
            channels := if conn in s.channels
                        then s.channels[conn := s.channels[conn].(request := Some(NextBatch(m, count)))]
                        else s.channels)
  }

  ghost predicate StepIngestBatch(c: Config, s: State, s': State, conn: nat) {
    && conn in s.channels && s.channels[conn].request.Some?
    && match Ingest(c.st, s.tables, conn, s.channels[conn].request.value, MAX_BATCH, MAX_CHARGE)
       case Failure(_) => s' == s.(channels := s.channels - {conn})
       case Success(t) =>
         s' == s.(tables := t,
                  channels := s.channels[conn := s.channels[conn].(request := None, response := Some(AckOf(t)))])
  }

  ghost predicate StepReceiveAck(c: Config, s: State, s': State) {
    && s.process.Up? && s.process.task.Streaming? && s.process.task.inflight.Some?
    && s.process.task.conn in s.channels && s.channels[s.process.task.conn].response.Some?
    && var m, conn := s.process.memory, s.process.task.conn;
       var ack := s.channels[conn].response.value;
       if ack.sequence != s.process.task.inflight.value || ack.sequence < 0 then s' == WithTask(s, m, Idle)
       else match Acknowledged(m, ack.sequence, ack.chain)
         case Failure(_) => s' == WithTask(s, m, Idle)
         case Success(a) =>
           s' == WithTask(WithAnchor(s, a), m.(state := a), Streaming(conn, None)).(
             channels := s.channels[conn := s.channels[conn].(response := None)])
  }

  // The sender gives a connection up; the receiver's end may live on for a while.
  ghost predicate StepDisconnect(c: Config, s: State, s': State) {
    && s.process.Up?
    && (s.process.task.Connecting? || s.process.task.Adopting? || s.process.task.Streaming?)
    && s' == WithTask(s, s.process.memory, Idle)
  }

  ghost predicate StepEndSession(c: Config, s: State, s': State, conn: nat) {
    s' == s.(channels := s.channels - {conn})
  }

  ghost predicate StepReceiverCrash(c: Config, s: State, s': State) {
    s' == s.(channels := map[])
  }

  // Another stream commits an event; relay ids are never drawn twice.
  ghost predicate StepForeignCommit(c: Config, s: State, s': State, relay: Octets) {
    && FreshRelay(s, relay)
    && s' == s.(tables := s.tables.(foreign := s.tables.foreign + {relay}))
  }

  ghost predicate Next(c: Config, s: State, s': State, step: Step) {
    match step
    case AdmitWrite(key, time, boundary, relay) => StepAdmitWrite(c, s, s', key, time, boundary, relay)
    case AdmitSync => StepAdmitSync(c, s, s')
    case AdmitAnchor => StepAdmitAnchor(c, s, s')
    case AdmitReturn => StepAdmitReturn(c, s, s')
    case IncreaseCap(cap) => StepIncreaseCap(c, s, s', cap)
    case SenderCrash(length) => StepSenderCrash(c, s, s', length)
    case RecoverSync => StepRecoverSync(c, s, s')
    case Recover => StepRecover(c, s, s')
    case SendHello(ticket) => StepSendHello(c, s, s', ticket)
    case OpenSession(ticket) => StepOpenSession(c, s, s', ticket)
    case ReceiveGreeting(conn) => StepReceiveGreeting(c, s, s', conn)
    case AdoptHead => StepAdoptHead(c, s, s')
    case SendBatch(count) => StepSendBatch(c, s, s', count)
    case IngestBatch(conn) => StepIngestBatch(c, s, s', conn)
    case ReceiveAck => StepReceiveAck(c, s, s')
    case Disconnect => StepDisconnect(c, s, s')
    case EndSession(conn) => StepEndSession(c, s, s', conn)
    case ReceiverCrash => StepReceiverCrash(c, s, s')
    case ForeignCommit(relay) => StepForeignCommit(c, s, s', relay)
  }

  // A run: any number of steps from an initial state.
  ghost predicate Run(c: Config, states: seq<State>, steps: seq<Step>) {
    && |states| == |steps| + 1
    && Init(c, states[0])
    && forall i :: 0 <= i < |steps| ==> Next(c, states[i], states[i + 1], steps[i])
  }
}
