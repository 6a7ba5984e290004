// Steps of the sender alone keep the relay's invariant.
module RelaySender {
  import opened Wrappers
  import opened Bytes
  import opened Stream
  import opened WalFile
  import opened Sender
  import opened Receiver
  import opened ReceiverTheorems
  import opened Relay
  import opened RelayInvariant

  // ------------------------------------------------------------------ finishing an admission

  lemma WholeFile(c: Config, s: State)
    requires FileOk(c, s) && s.history.torn == []
    ensures s.disk.file == Frames(c.st, c.cd, s.history.log) == Frames(c.st, c.cd, s.history.log[..|s.history.log|])
  {
    assert s.history.log[..|s.history.log|] == s.history.log;
  }

  lemma AdmitSyncInv(c: Config, s: State, s': State)
    requires ConfigOk(c) && Inv(c, s) && StepAdmitSync(c, s, s')
    ensures Inv(c, s')
  {
    hide Remembers, LogOk, HonestLog, HoldsPrefix, Frames, MessagesOk, ReportsOk;
    WholeFile(c, s);
    AfterSenderStep(c, s, s');
  }

  // The last record's chain hash is the chain hash of the log.
  lemma LastChain(c: Config, log: seq<Record>)
    requires Image(c.st, log).Some? && log != []
    ensures HashAt(c.st, Events(log), |log|, log[|log| - 1].chain)
    ensures HashAt(c.st, Events(log), |log|, ChainOf(c.st, Events(log)))
  {
    hide Image, ChainOf, Keyed, Numbered, Timed, AllValid;
    ImageMirrors(c.st, log);
    assert Events(log)[..|log|] == Events(log);
    assert log[|log| - 1].chain == Image(c.st, log).value.hashes[|log|];
  }

  // Replacing the anchor by a later description of the same log.
  lemma ReplaceAnchor(c: Config, s: State, s': State, a: Anchor)
    requires Inv(c, s) && s'.disk.anchor == a && s'.history == s.history && s'.tables == s.tables
    requires s'.channels == s.channels && s'.hellos == s.hellos
    requires HashAt(c.st, Events(s.history.log), a.tail, a.tailHash) && s.disk.anchor.tail <= a.tail <= s.history.stable
    requires a.ack == s.disk.anchor.ack && a.ackHash == s.disk.anchor.ackHash && a.peer == s.disk.anchor.peer
    ensures AnchorOk(c, s') && ReportsOk(s') && ReceiverOk(c, s') && MessagesOk(c, s')
  {
    hide HonestLog, HoldsPrefix, ConnectionOk;
    AnchorWithin(c, s);
    ReportsKept(s, s');
    MessagesKept(c, s, s');
  }

  lemma AdmitAnchorInv(c: Config, s: State, s': State)
    requires ConfigOk(c) && Inv(c, s) && StepAdmitAnchor(c, s, s')
    ensures Inv(c, s')
  {
    hide Remembers, LogOk, HonestLog, HoldsPrefix, Frames, MessagesOk, ReportsOk, HashAt;
    AnchorWithin(c, s);
    LastChain(c, s.history.log);
    ReplaceAnchor(c, s, s', s'.disk.anchor);
    ConnectionIdle(c, s');
  }

  lemma LastContinues(c: Config, log: seq<Record>, m: Memory)
    requires LogOk(c.st, c.cd, log) && log != [] && Remembers(c.st, m, log[..|log| - 1])
    ensures var r := log[|log| - 1];
      r.event.sequence >= 0 && Valid(c.st, r.event) && Remembers(c.st, MemoryAfter(m, r, Boundary(c.st, r.event)), log)
  {
    var log0, r := log[..|log| - 1], log[|log| - 1];
    assert log == log0 + [r];
    LogPrefixOk(c.st, c.cd, log, |log| - 1);
    AppendRemembers(c.st, c.cd, m, log0, r);
  }

  lemma AdmitReturnInv(c: Config, s: State, s': State)
    requires ConfigOk(c) && Inv(c, s) && StepAdmitReturn(c, s, s')
    ensures Inv(c, s')
  {
    hide Remembers, LogOk, HonestLog, HoldsPrefix, Frames, MessagesOk, HashAt;
    var m, r, log := s.process.memory, s.process.task.record, s.history.log;
    AnchorWithin(c, s);
    LastContinues(c, log, m);
    assert log[..s.disk.anchor.tail] == log[..s.disk.anchor.tail];
    MessagesKept(c, s, s');
    ConnectionIdle(c, s');
    forall key
      ensures Answered(s', key)
    {
      assert Answered(s, key);
    }
  }

  lemma IncreaseCapInv(c: Config, s: State, s': State, cap: nat)
    requires ConfigOk(c) && Inv(c, s) && StepIncreaseCap(c, s, s', cap)
    ensures Inv(c, s')
  {
    hide LogOk, HonestLog, HoldsPrefix, Frames, MessagesOk, ReportsOk, HashAt, Image;
    AnchorWithin(c, s);
    ReplaceAnchor(c, s, s', s'.disk.anchor);
    ConnectionIdle(c, s');
  }

  // ------------------------------------------------------------------ crash and reopening

  lemma HoldsShorter(st: Stream, t: Tables, es: seq<Event>, j: nat)
    requires HoldsPrefix(st, t, es) && t.head <= j <= |es|
    ensures HoldsPrefix(st, t, es[..j])
  {
    assert es[..j][..t.head] == es[..t.head];
  }

  lemma SenderCrashInv(c: Config, s: State, s': State, length: nat)
    requires ConfigOk(c) && Inv(c, s) && StepSenderCrash(c, s, s', length)
    ensures Inv(c, s')
  {
    hide LogOk, HonestLog, HoldsPrefix, Frames, MessagesOk, ReportsOk, HashAt, BrokenFrame;
    var j: nat, torn: Octets :| CutTo(c, s, s', length, j, torn);
    var log, es := s.history.log, Events(s.history.log);
    AnchorWithin(c, s);
    LogPrefixOk(c.st, c.cd, log, j);
    EventsPrefix(log, j);
    HonestPrefix(c.st, es, j);
    HoldsShorter(c.st, s.tables, es, j);
    assert es[..j][..s.disk.anchor.tail] == es[..s.disk.anchor.tail];
    assert log[..j][..s.disk.anchor.tail] == log[..s.disk.anchor.tail];
    assert log[..j][..s.history.stable] == log[..s.history.stable];
    AfterSenderStep(c, s, s');
  }

  // A log that reads back has no broken record, and reads back as the complete log.
  lemma RecoveredIs(c: Config, s: State)
    requires ConfigOk(c) && FileOk(c, s) && AnchorOk(c, s) && Recovered(c.st, c.cd, s.disk).Some?
    ensures s.history.torn == []
    ensures Remembers(c.st, Recovered(c.st, c.cd, s.disk).value, s.history.log)
    ensures var a, m := s.disk.anchor, Recovered(c.st, c.cd, s.disk).value;
      && m.state.tail == |s.history.log| && m.state.tailHash == ChainOf(c.st, Events(s.history.log))
      && m.state.ack == a.ack && m.state.ackHash == a.ackHash && m.state.peer == a.peer
  {
    if s.history.torn != [] {
      var raw: Octets :| 0 < |raw| <= MAX_RECORD && s.history.torn < Frame(c.st, raw);
      ReadBroken(c.st, c.cd, s.history.log, raw, s.history.torn);
    }
    RecoverComplete(c.st, c.cd, s.disk, s.history.log);
  }

  lemma WholeHash(c: Config, s: State)
    requires FileOk(c, s)
    ensures HashAt(c.st, Events(s.history.log), |s.history.log|, ChainOf(c.st, Events(s.history.log)))
  {
    assert Events(s.history.log)[..|s.history.log|] == Events(s.history.log);
  }

  lemma RecoverSyncInv(c: Config, s: State, s': State)
    requires ConfigOk(c) && Inv(c, s) && StepRecoverSync(c, s, s')
    ensures Inv(c, s')
  {
    hide Remembers, Recovered, LogOk, HonestLog, HoldsPrefix, Frames, MessagesOk, ReportsOk;
    RecoveredIs(c, s);
    WholeFile(c, s);
    AfterSenderStep(c, s, s');
  }

  lemma RecoverInv(c: Config, s: State, s': State)
    requires ConfigOk(c) && Inv(c, s) && StepRecover(c, s, s')
    ensures Inv(c, s')
  {
    hide Remembers, Recovered, LogOk, HonestLog, HoldsPrefix, Frames, MessagesOk, ReportsOk, HashAt, BrokenFrame;
    if Recovered(c.st, c.cd, s.disk).Some? {
      var m, synced := Recovered(c.st, c.cd, s.disk).value, s.(
        disk := s.disk.(synced := |s.disk.file|), history := s.history.(stable := |s.history.log|));
      RecoverSyncInv(c, s, synced);
      RecoveredIs(c, s);
      WholeHash(c, s);
      ReplaceAnchor(c, synced, s', m.state);
      ConnectionIdle(c, s');
    }
  }
}
