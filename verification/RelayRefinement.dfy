// Each operation of the program's classes is a sequence of the relay's steps, whether it succeeds or an I/O fault stops
// it half-way.
//
// Wal and Session are proved against the same functions the steps use. Here every outcome of a call that changes the
// disk, the memory or the tables is tied to a path of steps that ends in exactly that outcome: AdmitCheckpoint,
// Recover, Acknowledge, Bind and IncreaseCap for each fault, Connect and IngestBatch. An I/O fault closes the log,
// which is a crash that keeps what was written. A call of Wal that is refused changes nothing and is no step.
module RelayRefinement {
  import opened Wrappers
  import opened Bytes
  import opened Stream
  import opened WalFile
  import opened Sender
  import opened Receiver
  import opened Relay
  import opened RelayInvariant
  import opened RelaySender
  import opened RelayNetwork
  import opened RelayTheorems
  import opened Wal

  // An admission that appends is four steps, with the final disk and memory that Wal.AdmitCheckpoint promises.
  lemma AdmissionSteps(c: Config, s: State, key: Octets, time: int, boundary: int, relay: Octets) 
      returns (r: Record, s1: State, s2: State, s3: State, s4: State)
    requires ConfigOk(c) && Inv(c, s) && s.process.Up? && s.process.task == Idle && s.process.memory.hashes != []
    requires FreshRelay(s, relay)
    requires Admit(c.st, c.cd, s.process.memory, |s.disk.file|, key, time, boundary, relay).Append?
    ensures Admit(c.st, c.cd, s.process.memory, |s.disk.file|, key, time, boundary, relay) == Admission.Append(r)
    ensures Next(c, s, s1, AdmitWrite(key, time, boundary, relay)) && Next(c, s1, s2, AdmitSync)
    ensures Next(c, s2, s3, AdmitAnchor) && Next(c, s3, s4, AdmitReturn)
    ensures r.event.sequence >= 0 && s4.process == Up(MemoryAfter(s.process.memory, r, boundary), Idle)
    ensures s1.disk == s.disk.(file := s.disk.file + Frame(c.st, c.cd.text(r)))
    ensures s2.disk == s1.disk.(synced := |s1.disk.file|)
    ensures s3.disk == s4.disk == s2.disk.(anchor := AnchorAfter(s.process.memory.state, r, boundary))
    ensures s4.history.reported == s.history.reported[key := r.event.sequence]
  {
    hide Inv, Frame, LogOk, Remembers, Image, Continues, Frames;
    var m := s.process.memory;
    r := Admit(c.st, c.cd, m, |s.disk.file|, key, time, boundary, relay).record;
    AdmittedFacts(c, s, key, time, boundary, relay);
    s1 := s.(
      disk := s.disk.(file := s.disk.file + Frame(c.st, c.cd.text(r))), process := Up(m, Appended(r)),
      history := s.history.(log := s.history.log + [r]));
    s2 := s1.(
      disk := s1.disk.(synced := |s1.disk.file|), process := Up(m, Synced(r)),
      history := s1.history.(stable := |s1.history.log|));
    s3 := WithTask(WithAnchor(s2, AnchorAfter(m.state, r, boundary)), m, Anchored(r));
    s4 := WithTask(s3, MemoryAfter(m, r, boundary), Idle).(
      history := s3.history.(reported := s3.history.reported[key := r.event.sequence]));
  }

  lemma AdmittedFacts(c: Config, s: State, key: Octets, time: int, boundary: int, relay: Octets)
    requires ConfigOk(c) && Inv(c, s) && s.process.Up? && s.process.task == Idle && s.process.memory.hashes != []
    requires Admit(c.st, c.cd, s.process.memory, |s.disk.file|, key, time, boundary, relay).Append?
    ensures var r := Admit(c.st, c.cd, s.process.memory, |s.disk.file|, key, time, boundary, relay).record;
      r.key == key && r.event.sequence >= 0 && Valid(c.st, r.event) && Boundary(c.st, r.event) == boundary
  {
    hide MessagesOk, ConnectionOk, ReceiverOk, ReportsOk, MemoryAfter;
    AdmitContinues(c.st, c.cd, s.process.memory, s.history.log, |s.disk.file|, key, time, boundary, relay);
  }

  // Accepting a greeting is two steps, with the anchor and memory that Wal.Bind promises.
  lemma BindSteps(c: Config, s: State, conn: nat) returns (s1: State, s2: State)
    requires ConfigOk(c) && Inv(c, s) && s.process.Up? && s.process.task.Connecting? && conn in s.channels
    requires s.channels[conn].ticket == s.process.task.ticket && s.channels[conn].greeting.Some?
    ensures Next(c, s, s1, ReceiveGreeting(conn)) && Next(c, s1, s2, AdoptHead)
    ensures var m, g := s.process.memory, s.channels[conn].greeting.value;
      && Bound(m, g).Success? && s1.disk == s.disk.(anchor := Bound(m, g).value)
      && var a := Bound(m, g).value.(ack := g.committed, ackHash := g.chain);
         s2.process == Up(m.(state := a), Streaming(conn, None)) && s2.disk == s.disk.(anchor := a)
  {
    hide Inv, Bound, Acknowledged;
    var m, g := s.process.memory, s.channels[conn].greeting.value;
    GreetingAccepted(c, s, conn);
    var a := Bound(m, g).value;
    s1 := WithTask(WithAnchor(s, a), m.(state := a), Adopting(conn, g)).(
      channels := s.channels[conn := s.channels[conn].(greeting := None)]);
    ReceiveGreetingInv(c, s, s1, conn);
    HeadAdopted(c, s1);
    var a' := a.(ack := g.committed, ackHash := g.chain);
    s2 := WithTask(WithAnchor(s1, a'), m.(state := a'), Streaming(conn, None));
  }

  // ------------------------------------------------------------------ operations stopped by a fault

  ghost predicate Steps(c: Config, ss: seq<State>, steps: seq<Step>) {
    |ss| == |steps| + 1 && forall i :: 0 <= i < |steps| ==> Next(c, ss[i], ss[i + 1], steps[i])
  }

  function Last(ss: seq<State>): State
    requires ss != []
  {
    ss[|ss| - 1]
  }

  // The sender dies, and the file keeps its first `length` octets.
  lemma Dies(c: Config, s: State, length: nat) returns (s': State)
    requires ConfigOk(c) && Inv(c, s) && s.disk.synced <= length <= |s.disk.file|
    ensures Next(c, s, s', SenderCrash(length))
    ensures s'.process == Down && s'.disk == s.disk.(file := s.disk.file[..length])
  {
    s' := CrashAnywhere(c, s, length);
  }

  lemma DiesWhole(c: Config, s: State) returns (s': State)
    requires ConfigOk(c) && Inv(c, s)
    ensures Next(c, s, s', SenderCrash(|s.disk.file|)) && s'.process == Down && s'.disk == s.disk
  {
    hide Inv, Next;
    SyncedWithin(c, s);
    s' := Dies(c, s, |s.disk.file|);
    assert s.disk.file[..|s.disk.file|] == s.disk.file;
  }

  lemma SyncedWithin(c: Config, s: State)
    requires Inv(c, s)
    ensures s.disk.synced <= |s.disk.file|
  {
    hide MessagesOk, ProcessOk, ConnectionOk, ReceiverOk, ReportsOk, Frames, AnchorOk;
    FramesLonger(c.st, c.cd, s.history.log, s.history.stable, |s.history.log|);
    assert s.history.log[..|s.history.log|] == s.history.log;
  }

  // Wal.AdmitCheckpoint with a fault in the write, the sync or the replacement of the anchor.
  lemma AdmissionFails(c: Config, s: State, key: Octets, time: int, boundary: int, relay: Octets, fault: AppendFault)
      returns (r: Record, ss: seq<State>, steps: seq<Step>)
    requires ConfigOk(c) && Inv(c, s) && s.process.Up? && s.process.task == Idle && s.process.memory.hashes != []
    requires FreshRelay(s, relay)
    requires Admit(c.st, c.cd, s.process.memory, |s.disk.file|, key, time, boundary, relay).Append?
    requires !NoFault(fault)
    ensures Admit(c.st, c.cd, s.process.memory, |s.disk.file|, key, time, boundary, relay) == Admission.Append(r)
    ensures r.event.sequence >= 0 && Steps(c, ss, steps) && ss[0] == s && Last(ss).process == Down
    ensures Last(ss).disk
         == AppendedDisk(s.disk, Frame(c.st, c.cd.text(r)), AnchorAfter(s.process.memory.state, r, boundary), fault)
  {
    hide Inv, Next, Frame, Admit, FreshRelay;
    var s1, s2, s3, s4;
    r, s1, s2, s3, s4 := AdmissionSteps(c, s, key, time, boundary, relay);
    var write, frame := AdmitWrite(key, time, boundary, relay), Frame(c.st, c.cd.text(r));
    NextInv(c, s, s1, write);
    NextInv(c, s1, s2, AdmitSync);
    NextInv(c, s2, s3, AdmitAnchor);
    SyncedWithin(c, s);
    match fault
    case WriteFailed(kept) =>
      var length := |s.disk.file| + if kept < |frame| then kept else |frame|;
      var dead := Dies(c, s1, length);
      assert (s.disk.file + frame)[..length] == s.disk.file + frame[..length - |s.disk.file|];
      assert frame[..|frame|] == frame;
      ss, steps := [s, s1, dead], [write, SenderCrash(length)];
    case SyncFailed =>
      var dead := DiesWhole(c, s1);
      ss, steps := [s, s1, dead], [write, SenderCrash(|s1.disk.file|)];
    case AppendDone(SaveFailed(replaced)) =>
      if replaced {
        var dead := DiesWhole(c, s3);
        ss, steps := [s, s1, s2, s3, dead], [write, AdmitSync, AdmitAnchor, SenderCrash(|s3.disk.file|)];
      } else {
        var dead := DiesWhole(c, s2);
        ss, steps := [s, s1, s2, dead], [write, AdmitSync, SenderCrash(|s2.disk.file|)];
      }
  }

  // Wal.Recover, with any faults: nothing happens to a log that does not read back or cannot be synced.
  lemma RecoverSteps(c: Config, s: State, syncFails: bool, fault: SaveFault) returns (ss: seq<State>, steps: seq<Step>)
    requires ConfigOk(c) && Inv(c, s) && s.process.Down?
    ensures Steps(c, ss, steps) && ss[0] == s
    ensures match Recovered(c.st, c.cd, s.disk)
      case None => Last(ss) == s
      case Some(m) =>
        if syncFails then Last(ss) == s
        else
          && Last(ss).disk == Disk(s.disk.file, |s.disk.file|, SavedAnchor(s.disk.anchor, m.state, fault))
          && Last(ss).process == if fault == SaveDone then Up(m, Idle) else Down
  {
    hide Inv, Recovered;
    ss, steps := [s], [];
    var recovered := Recovered(c.st, c.cd, s.disk);
    if recovered.Some? && !syncFails {
      var m := recovered.value;
      if fault == SaveFailed(false) {
        var s1 := s.(disk := s.disk.(synced := |s.disk.file|), history := s.history.(stable := |s.history.log|));
        ss, steps := [s, s1], [RecoverSync];
      } else {
        var s1 := WithTask(WithAnchor(s, m.state), m, Idle).(
          disk := Disk(s.disk.file, |s.disk.file|, m.state), history := s.history.(stable := |s.history.log|));
        assert Next(c, s, s1, Recover);
        hide Next;
        ss, steps := [s, s1], [Recover];
        if fault != SaveDone {
          NextInv(c, s, s1, Recover);
          var dead := DiesWhole(c, s1);
          ss, steps := ss + [dead], steps + [SenderCrash(|s1.disk.file|)];
        }
      }
    }
  }

  // Wal.Acknowledge for the acknowledgement that arrives.
  lemma AcknowledgeSteps(c: Config, s: State, fault: SaveFault) returns (ss: seq<State>, steps: seq<Step>)
    requires ConfigOk(c) && Inv(c, s) && s.process.Up? && s.process.task.Streaming? && s.process.task.inflight.Some?
    requires s.process.task.conn in s.channels && s.channels[s.process.task.conn].response.Some?
    ensures Steps(c, ss, steps) && ss[0] == s
    ensures var m, ack := s.process.memory, s.channels[s.process.task.conn].response.value;
      && ack.sequence >= 0 && Acknowledged(m, ack.sequence, ack.chain).Success?
      && var a := Acknowledged(m, ack.sequence, ack.chain).value;
         && Last(ss).disk == s.disk.(anchor := SavedAnchor(s.disk.anchor, a, fault))
         && Last(ss).process ==
              if fault == SaveDone then Up(m.(state := a), Streaming(s.process.task.conn, None)) else Down
  {
    hide Inv, Acknowledged;
    AckAccepted(c, s);
    var m, conn := s.process.memory, s.process.task.conn;
    var ack := s.channels[conn].response.value;
    var a := Acknowledged(m, ack.sequence, ack.chain).value;
    if fault == SaveFailed(false) {
      var dead := DiesWhole(c, s);
      ss, steps := [s, dead], [SenderCrash(|s.disk.file|)];
    } else {
      var s1 := WithTask(WithAnchor(s, a), m.(state := a), Streaming(conn, None)).(
        channels := s.channels[conn := s.channels[conn].(response := None)]);
      assert Next(c, s, s1, ReceiveAck);
      hide Next;
      ss, steps := [s, s1], [ReceiveAck];
      if fault != SaveDone {
        NextInv(c, s, s1, ReceiveAck);
        var dead := DiesWhole(c, s1);
        ss, steps := ss + [dead], steps + [SenderCrash(|s1.disk.file|)];
      }
    }
  }

  // Wal.Bind with a fault in either of its two anchor replacements.
  lemma BindFails(c: Config, s: State, conn: nat, fault: SaveFault, ackFault: SaveFault)
      returns (ss: seq<State>, steps: seq<Step>)
    requires ConfigOk(c) && Inv(c, s) && s.process.Up? && s.process.task.Connecting? && conn in s.channels
    requires s.channels[conn].ticket == s.process.task.ticket && s.channels[conn].greeting.Some?
    requires fault != SaveDone || ackFault != SaveDone
    ensures Steps(c, ss, steps) && ss[0] == s && Last(ss).process == Down
    ensures var m, g := s.process.memory, s.channels[conn].greeting.value;
      && Bound(m, g).Success?
      && var a := Bound(m, g).value;
         Last(ss).disk == s.disk.(anchor :=
           if fault != SaveDone then SavedAnchor(s.disk.anchor, a, fault)
           else SavedAnchor(a, a.(ack := g.committed, ackHash := g.chain), ackFault))
  {
    hide Inv, Next, Bound;
    var s1, s2 := BindSteps(c, s, conn);
    NextInv(c, s, s1, ReceiveGreeting(conn));
    NextInv(c, s1, s2, AdoptHead);
    if fault == SaveFailed(false) {
      var dead := DiesWhole(c, s);
      ss, steps := [s, dead], [SenderCrash(|s.disk.file|)];
    } else if fault == SaveFailed(true) || ackFault == SaveFailed(false) {
      var dead := DiesWhole(c, s1);
      ss, steps := [s, s1, dead], [ReceiveGreeting(conn), SenderCrash(|s1.disk.file|)];
    } else {
      var dead := DiesWhole(c, s2);
      ss, steps := [s, s1, s2, dead], [ReceiveGreeting(conn), AdoptHead, SenderCrash(|s2.disk.file|)];
    }
  }

  // Wal.IncreaseCap.
  lemma IncreaseCapSteps(c: Config, s: State, cap: nat, fault: SaveFault) returns (ss: seq<State>, steps: seq<Step>)
    requires ConfigOk(c) && Inv(c, s) && s.process.Up? && s.process.task == Idle && cap > s.process.memory.state.cap
    ensures Steps(c, ss, steps) && ss[0] == s
    ensures var m, a := s.process.memory, s.process.memory.state.(cap := cap);
      && Last(ss).disk == s.disk.(anchor := SavedAnchor(s.disk.anchor, a, fault))
      && Last(ss).process == if fault == SaveDone then Up(m.(state := a), Idle) else Down
  {
    hide Inv;
    var m, a := s.process.memory, s.process.memory.state.(cap := cap);
    if fault == SaveFailed(false) {
      var dead := DiesWhole(c, s);
      ss, steps := [s, dead], [SenderCrash(|s.disk.file|)];
    } else {
      var s1 := WithTask(WithAnchor(s, a), m.(state := a), Idle);
      assert Next(c, s, s1, IncreaseCap(cap));
      hide Next;
      ss, steps := [s, s1], [IncreaseCap(cap)];
      if fault != SaveDone {
        NextInv(c, s, s1, IncreaseCap(cap));
        var dead := DiesWhole(c, s1);
        ss, steps := ss + [dead], steps + [SenderCrash(|s1.disk.file|)];
      }
    }
  }

  // ------------------------------------------------------------------ the receiver's sessions

  // Session.Connect on a hello that was sent, and Session.IngestBatch on a batch that arrives: one step each, with the
  // tables the methods promise, accepted or refused.
  lemma ConnectStep(c: Config, s: State, ticket: nat) returns (s': State)
    requires ticket in s.hellos
    ensures Next(c, s, s', OpenSession(ticket))
    ensures match Open(c.st, s.tables, s.hellos[ticket])
      case Failure(_) => s' == s
      case Success(t) =>
        s'.tables == t && t.owner in s'.channels && s'.channels[t.owner].greeting == Some(GreetingOf(c, t))
  {
    hide Open;
    match Open(c.st, s.tables, s.hellos[ticket])
    case Failure(_) => s' := s;
    case Success(t) =>
      s' := s.(tables := t, channels := s.channels[t.owner := Channel(ticket, Some(GreetingOf(c, t)), None, None)]);
  }

  lemma IngestStep(c: Config, s: State, conn: nat) returns (s': State)
    requires conn in s.channels && s.channels[conn].request.Some?
    ensures Next(c, s, s', IngestBatch(conn))
    ensures match Ingest(c.st, s.tables, conn, s.channels[conn].request.value, MAX_BATCH, MAX_CHARGE)
      case Failure(_) => s'.tables == s.tables && conn !in s'.channels
      case Success(t) => s'.tables == t && conn in s'.channels && s'.channels[conn].response == Some(AckOf(t))
  {
    hide Ingest;
    match Ingest(c.st, s.tables, conn, s.channels[conn].request.value, MAX_BATCH, MAX_CHARGE)
    case Failure(_) => s' := s.(channels := s.channels - {conn});
    case Success(t) =>
      s' := s.(
        tables := t,
        channels := s.channels[conn := s.channels[conn].(request := None, response := Some(AckOf(t)))]);
  }
}
