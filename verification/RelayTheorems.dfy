// The relay's guarantees, over every run.
module RelayTheorems {
  import opened Wrappers
  import opened Bytes
  import opened Stream
  import opened WalFile
  import opened Sender
  import opened Receiver
  import opened ReceiverTheorems
  import opened Relay
  import opened RelayInvariant
  import opened RelaySender
  import opened RelayNetwork

  lemma EndSessionsInv(c: Config, s: State, s': State, step: Step)
    requires ConfigOk(c) && Inv(c, s) && Next(c, s, s', step) && (step.EndSession? || step.ReceiverCrash?)
    ensures Inv(c, s')
  {
    hide Inv;
    var gone := if step.EndSession? then {step.conn} else s.channels.Keys;
    assert s' == s.(channels := s.channels - gone) by {
      assert s.channels - s.channels.Keys == map[];
    }
    FewerChannelsInv(c, s, s', gone);
  }

  // Every step keeps the invariant.
  lemma NextInv(c: Config, s: State, s': State, step: Step)
    requires ConfigOk(c) && Inv(c, s) && Next(c, s, s', step)
    ensures Inv(c, s')
  {
    hide Inv;
    match step
    case AdmitWrite(key, time, boundary, relay) => AdmitWriteInv(c, s, s', key, time, boundary, relay);
    case AdmitSync => AdmitSyncInv(c, s, s');
    case AdmitAnchor => AdmitAnchorInv(c, s, s');
    case AdmitReturn => AdmitReturnInv(c, s, s');
    case IncreaseCap(cap) => IncreaseCapInv(c, s, s', cap);
    case SenderCrash(length) => SenderCrashInv(c, s, s', length);
    case RecoverSync => RecoverSyncInv(c, s, s');
    case Recover => RecoverInv(c, s, s');
    case SendHello(ticket) => SendHelloInv(c, s, s', ticket);
    case OpenSession(ticket) => OpenSessionInv(c, s, s', ticket);
    case ReceiveGreeting(conn) => ReceiveGreetingInv(c, s, s', conn);
    case AdoptHead => AdoptHeadInv(c, s, s');
    case SendBatch(count) => SendBatchInv(c, s, s', count);
    case IngestBatch(conn) => IngestBatchInv(c, s, s', conn);
    case ReceiveAck => ReceiveAckInv(c, s, s');
    case Disconnect => IdleInv(c, s, s');
    case EndSession(conn) => EndSessionsInv(c, s, s', step);
    case ReceiverCrash => EndSessionsInv(c, s, s', step);
    case ForeignCommit(relay) => ForeignCommitInv(c, s, s', relay);
  }

  lemma {:induction false} RunInv(c: Config, states: seq<State>, steps: seq<Step>, i: nat)
    requires ConfigOk(c) && Run(c, states, steps) && i < |states|
    ensures Inv(c, states[i])
  {
    hide Inv, Next, Init;
    if i == 0 {
      InitInv(c, states[0]);
    } else {
      RunInv(c, states, steps, i - 1);
      NextInv(c, states[i - 1], states[i], steps[i - 1]);
    }
  }

  // ------------------------------------------------------------------ exactly once

  // What the receiver has committed is a prefix of what the sender has made durable, one row each per sequence.
  ghost predicate ExactlyOnce(c: Config, s: State) {
    var events, head := Events(s.history.log), s.tables.head;
    && 0 <= s.disk.anchor.ack <= head <= s.disk.anchor.tail <= s.history.stable <= |s.history.log|
    && |s.history.log| <= s.disk.anchor.tail + 1
    && s.disk.synced == |Frames(c.st, c.cd, s.history.log[..s.history.stable])|
    && Frames(c.st, c.cd, s.history.log) <= s.disk.file
    && |s.tables.events| == head && |s.tables.effects| == head
    && s.tables.chain == ChainOf(c.st, events[..head])
    && forall i :: 0 <= i < head ==>
         && s.tables.events[i].sequence == s.tables.effects[i].sequence == i + 1
         && s.tables.events[i].event == events[i] && events[i].sequence == i + 1
  }

  // In every reachable state, under any interleaving of crashes, lost messages, takeovers and reconnects.
  lemma ExactlyOnceAlways(c: Config, states: seq<State>, steps: seq<Step>, i: nat)
    requires ConfigOk(c) && Run(c, states, steps) && i < |states|
    ensures ExactlyOnce(c, states[i])
  {
    hide Inv, Run;
    RunInv(c, states, steps, i);
    InvExactlyOnce(c, states[i]);
  }

  lemma InvExactlyOnce(c: Config, s: State)
    requires Inv(c, s)
    ensures ExactlyOnce(c, s)
  {
    hide MessagesOk, ProcessOk, ConnectionOk, ReportsOk, HonestLog, LogOk;
    var events, head := Events(s.history.log), s.tables.head;
    assert Stored(s.tables) == events[..head];
    forall i | 0 <= i < head
      ensures s.tables.events[i].event == events[i]
    {
      assert Stored(s.tables)[i] == events[i];
    }
  }

  // ------------------------------------------------------------------ nothing durable or reported is lost

  // The durable part of the log, and the answers given to callers, only grow.
  ghost predicate DurableGrows(s: State, s': State) {
    && Forward(s, s')
    && (forall key :: key in s.history.reported ==> s'.history.reported[key] == s.history.reported[key])
  }

  // Each answer stays what it was once given: its record is in the durable log at that sequence, and keys are unique.
  lemma AnswersStand(c: Config, s: State, key: Octets)
    requires Inv(c, s) && key in s.history.reported
    ensures 1 <= s.history.reported[key] <= s.history.stable
    ensures forall i :: 0 <= i < |s.history.log| ==>
      (s.history.log[i].key == key <==> i + 1 == s.history.reported[key])
  {
    hide MessagesOk, ProcessOk, ConnectionOk, ReceiverOk, LogOk, HashAt, Frames, Image;
    assert Answered(s, key);
    AnchorWithin(c, s);
    forall i | 0 <= i < |s.history.log| && s.history.log[i].key == key
      ensures i + 1 == s.history.reported[key]
    {
      KeysUnique(c.st, s.history.log, i, s.history.reported[key] - 1);
    }
  }

  // A log that reads back has every key once.
  lemma KeysUnique(st: Stream, log: seq<Record>, i: nat, j: nat)
    requires Image(st, log).Some? && i < |log| && j < |log| && log[i].key == log[j].key
    ensures i == j
  {
    hide Image;
    ImageMirrors(st, log);
    KeyedOnce(log, Image(st, log).value.keys, i, j);
  }

  lemma KeyedOnce(log: seq<Record>, keys: map<Octets, (Octets, int)>, i: nat, j: nat)
    requires Keyed(log, keys) && i < |log| && j < |log| && log[i].key == log[j].key
    ensures i == j
  {
    assert keys[log[i].key] == (log[i].request, i + 1);
    assert keys[log[j].key] == (log[j].request, j + 1);
  }

  lemma IngestGrows(c: Config, s: State, conn: nat)
    requires ConfigOk(c) && ReceiverOk(c, s) && conn in s.channels && s.channels[conn].request.Some?
    requires Ingest(c.st, s.tables, conn, s.channels[conn].request.value, MAX_BATCH, MAX_CHARGE).Success?
    ensures Grows(s.tables, Ingest(c.st, s.tables, conn, s.channels[conn].request.value, MAX_BATCH, MAX_CHARGE).value)
  {
    IngestOverlays(c.st, s.tables, conn, s.channels[conn].request.value, MAX_BATCH, MAX_CHARGE);
  }

  // The state a step leaves behind, as far as growth is concerned.
  ghost predicate Forward(s: State, s': State) {
    && s.history.stable <= s'.history.stable
    && s.history.stable <= |s.history.log| && s.history.stable <= |s'.history.log|
    && s'.history.log[..s.history.stable] == s.history.log[..s.history.stable]
    && s.disk.anchor.tail <= s'.disk.anchor.tail && s.disk.anchor.ack <= s'.disk.anchor.ack
    && s.tables.events <= s'.tables.events && s.tables.effects <= s'.tables.effects && s.tables.owner <= s'.tables.owner
    && s.history.reported.Keys <= s'.history.reported.Keys
  }

  lemma SenderStepForward(c: Config, s: State, s': State, step: Step)
    requires ConfigOk(c) && Inv(c, s) && Next(c, s, s', step)
    requires step.AdmitWrite? || step.AdmitSync? || step.AdmitAnchor? || step.AdmitReturn? || step.IncreaseCap?
      || step.SenderCrash? || step.RecoverSync? || step.Recover?
    ensures Forward(s, s')
  {
    hide LogOk, HonestLog, HoldsPrefix, Frames, MessagesOk, ReportsOk, HashAt, BrokenFrame, Remembers;
    hide Recovered, Image, Continues, Admit;
    AnchorWithin(c, s);
    if step.Recover? && Recovered(c.st, c.cd, s.disk).Some? {
      RecoveredIs(c, s);
    }
    if step.AdmitAnchor? {
      assert s'.disk.anchor.tail == |s.history.log|;
    }
  }

  lemma NetworkStepForward(c: Config, s: State, s': State, step: Step)
    requires ConfigOk(c) && Inv(c, s) && Next(c, s, s', step)
    requires !(step.AdmitWrite? || step.AdmitSync? || step.AdmitAnchor? || step.AdmitReturn? || step.IncreaseCap?
      || step.SenderCrash? || step.RecoverSync? || step.Recover?)
    ensures Forward(s, s')
  {
    hide LogOk, HonestLog, HoldsPrefix, Frames, MessagesOk, ReportsOk, HashAt, Remembers;
    hide Recovered, Image, Bound, Acknowledged, Open, Ingest, TotalCharge;
    AnchorWithin(c, s);
    match step
    case OpenSession(ticket) =>
      if Open(c.st, s.tables, s.hellos[ticket]).Success? {
        OpenedIs(c, s.tables, s.hellos[ticket]);
      }
    case ReceiveGreeting(conn) =>
      GreetingAccepted(c, s, conn);
      TailOf(c, s);
    case AdoptHead =>
      HeadAdopted(c, s);
      TailOf(c, s);
    case ReceiveAck =>
      AckAccepted(c, s);
      TailOf(c, s);
    case IngestBatch(conn) =>
      if Ingest(c.st, s.tables, conn, s.channels[conn].request.value, MAX_BATCH, MAX_CHARGE).Success? {
        IngestGrows(c, s, conn);
      }
    case _ =>
  }

  // Nothing durable or answered is ever lost or renumbered by a step.
  lemma NextGrows(c: Config, s: State, s': State, step: Step)
    requires ConfigOk(c) && Inv(c, s) && Next(c, s, s', step)
    ensures DurableGrows(s, s')
  {
    hide Inv, Next, Forward;
    if step.AdmitWrite? || step.AdmitSync? || step.AdmitAnchor? || step.AdmitReturn? || step.IncreaseCap?
      || step.SenderCrash? || step.RecoverSync? || step.Recover? {
      SenderStepForward(c, s, s', step);
    } else {
      NetworkStepForward(c, s, s', step);
    }
    NextInv(c, s, s', step);
    ForwardGrows(c, s, s');
  }

  lemma ForwardGrows(c: Config, s: State, s': State)
    requires Inv(c, s) && Inv(c, s') && Forward(s, s')
    ensures DurableGrows(s, s')
  {
    hide Inv;
    forall key | key in s.history.reported
      ensures key in s'.history.reported && s'.history.reported[key] == s.history.reported[key]
    {
      AnswersStand(c, s, key);
      AnswersStand(c, s', key);
      var i := s.history.reported[key] - 1;
      assert s'.history.log[..s.history.stable][i] == s.history.log[..s.history.stable][i];
    }
  }

  lemma {:induction false} RunGrows(c: Config, states: seq<State>, steps: seq<Step>, i: nat, j: nat)
    requires ConfigOk(c) && Run(c, states, steps) && i <= j < |states|
    ensures DurableGrows(states[i], states[j])
    decreases j - i
  {
    hide Inv, Next, Init;
    if i == j {
      RunInv(c, states, steps, i);
      InvGrowsItself(c, states[i]);
    } else {
      RunGrows(c, states, steps, i, j - 1);
      RunInv(c, states, steps, j - 1);
      NextGrows(c, states[j - 1], states[j], steps[j - 1]);
      GrowsTransitive(states[i], states[j - 1], states[j]);
    }
  }

  lemma InvGrowsItself(c: Config, s: State)
    requires Inv(c, s)
    ensures DurableGrows(s, s)
  {
    AnchorWithin(c, s);
  }

  lemma GrowsTransitive(s: State, t: State, u: State)
    requires DurableGrows(s, t) && DurableGrows(t, u)
    ensures DurableGrows(s, u)
  {
    var k := s.history.stable;
    assert u.history.log[..k] == u.history.log[..t.history.stable][..k] == t.history.log[..k];
  }

  // A caller that was answered keeps its sequence through everything that follows, and its event stays in the log:
  // whatever comes between, the record it was answered for is the only one under its key.
  lemma AdmittedOnce(c: Config, states: seq<State>, steps: seq<Step>, i: nat, j: nat, key: Octets)
    requires ConfigOk(c) && Run(c, states, steps) && i <= j < |states| && key in states[i].history.reported
    ensures var n := states[i].history.reported[key];
      && 1 <= n <= states[j].history.stable <= |states[j].history.log|
      && n <= states[i].history.stable <= |states[i].history.log|
      && states[j].history.log[n - 1] == states[i].history.log[n - 1]
      && forall k :: 0 <= k < |states[j].history.log| ==> (states[j].history.log[k].key == key <==> k == n - 1)
  {
    hide Inv, Run;
    RunInv(c, states, steps, i);
    RunInv(c, states, steps, j);
    RunGrows(c, states, steps, i, j);
    AnswersStand(c, states[i], key);
    AnswersStand(c, states[j], key);
    AnchorWithinInv(c, states[i]);
    AnchorWithinInv(c, states[j]);
    var n, k := states[i].history.reported[key], states[i].history.stable;
    assert states[j].history.log[..k][n - 1] == states[i].history.log[..k][n - 1];
  }

  lemma AnchorWithinInv(c: Config, s: State)
    requires Inv(c, s)
    ensures s.disk.anchor.tail <= s.history.stable <= |s.history.log|
  {
    AnchorWithin(c, s);
  }

  // ------------------------------------------------------------------ crashes at any octet

  // The sender may die with its file cut at any octet past the synced length; the step system covers every cut, of a
  // file that ends in a broken record too.
  lemma CrashAnywhere(c: Config, s: State, length: nat) returns (s': State)
    requires ConfigOk(c) && Inv(c, s) && s.disk.synced <= length <= |s.disk.file|
    ensures StepSenderCrash(c, s, s', length)
    ensures s'.disk == s.disk.(file := s.disk.file[..length]) && s'.process == Down
  {
    hide Inv, Frames, BrokenFrame;
    var j, torn := CutPlace(c, s, length);
    s' := s.(disk := s.disk.(file := s.disk.file[..length]), process := Down,
             history := s.history.(log := s.history.log[..j], torn := torn));
    assert CutTo(c, s, s', length, j, torn);
  }

  lemma CutPlace(c: Config, s: State, length: nat) returns (j: nat, torn: Octets)
    requires ConfigOk(c) && Inv(c, s) && s.disk.synced <= length <= |s.disk.file|
    ensures s.history.stable <= j <= |s.history.log| && (torn != [] ==> BrokenFrame(c, torn))
    ensures s.disk.file[..length] == Frames(c.st, c.cd, s.history.log[..j]) + torn
  {
    hide MessagesOk, ProcessOk, ConnectionOk, ReceiverOk, ReportsOk, Frame, Frames, Image, Anchors, BrokenFrame;
    var log, whole := s.history.log, Frames(c.st, c.cd, s.history.log);
    if length < |whole| {
      assert s.disk.file[..length] == whole[..length];
      j, torn := CutFrames(c.st, c.cd, log, length);
      if j < s.history.stable {
        FramesLonger(c.st, c.cd, log, j + 1, s.history.stable);
        CutBefore(c, log, j, torn, length);
      }
      if torn != [] {
        assert Readable(c.cd, log[j]);
        PartIsBroken(c, c.cd.text(log[j]), torn);
      }
    } else {
      j, torn := |log|, s.history.torn[..length - |whole|];
      assert log[..j] == log;
      assert s.disk.file[..length] == whole + torn;
      if torn != [] {
        PartOfBroken(c, s.history.torn, torn);
      }
    }
  }

  lemma PartIsBroken(c: Config, raw: Octets, torn: Octets)
    requires 0 < |raw| <= MAX_RECORD && torn < Frame(c.st, raw)
    ensures BrokenFrame(c, torn)
  {
  }

  lemma PartOfBroken(c: Config, torn: Octets, part: Octets)
    requires BrokenFrame(c, torn) && part <= torn
    ensures BrokenFrame(c, part)
  {
    var raw: Octets :| 0 < |raw| <= MAX_RECORD && torn < Frame(c.st, raw);
    assert part < Frame(c.st, raw);
  }

  lemma CutBefore(c: Config, log: seq<Record>, j: nat, torn: Octets, length: nat)
    requires j < |log| && length <= |Frames(c.st, c.cd, log)|
    requires Frames(c.st, c.cd, log)[..length] == Frames(c.st, c.cd, log[..j]) + torn
    requires torn != [] ==> torn < Frame(c.st, c.cd.text(log[j]))
    ensures length < |Frames(c.st, c.cd, log[..j + 1])|
  {
    FramesSnoc(c.st, c.cd, log, j);
    assert length == |Frames(c.st, c.cd, log)[..length]| == |Frames(c.st, c.cd, log[..j])| + |torn|;
  }

  // Reopening after any crash: it fails exactly when the file ends inside a record.
  lemma ReopensUnlessTorn(c: Config, states: seq<State>, steps: seq<Step>, i: nat)
    requires ConfigOk(c) && Run(c, states, steps) && i < |states|
    ensures var s := states[i];
      && (Recovered(c.st, c.cd, s.disk).Some? <==> s.history.torn == [])
      && (s.history.torn == [] ==> Remembers(c.st, Recovered(c.st, c.cd, s.disk).value, s.history.log))
  {
    hide Inv, Run;
    RunInv(c, states, steps, i);
    ReopensInv(c, states[i]);
  }

  lemma ReopensInv(c: Config, s: State)
    requires ConfigOk(c) && Inv(c, s)
    ensures Recovered(c.st, c.cd, s.disk).Some? <==> s.history.torn == []
    ensures s.history.torn == [] ==> Remembers(c.st, Recovered(c.st, c.cd, s.disk).value, s.history.log)
  {
    hide MessagesOk, ProcessOk, ConnectionOk, ReceiverOk, ReportsOk, Frames, Recovered, Remembers, LogOk;
    AnchorWithin(c, s);
    if s.history.torn == [] {
      RecoverComplete(c.st, c.cd, s.disk, s.history.log);
    } else if Recovered(c.st, c.cd, s.disk).Some? {
      RecoveredIs(c, s);
    }
  }

  // ------------------------------------------------------------------ no honest stream wedges

  // Records the receiver still has to acknowledge.
  function Backlog(s: State): int {
    s.disk.anchor.tail - s.disk.anchor.ack
  }

  // No message of an honest sender and receiver is ever refused, in any reachable state.
  ghost predicate NothingRefused(c: Config, s: State) {
    && (s.process.Up? && s.process.task.Connecting? ==>
          var ticket := s.process.task.ticket;
          && ticket in s.hellos && Open(c.st, s.tables, s.hellos[ticket]).Success?
          && forall conn | conn in s.channels && s.channels[conn].ticket == ticket && s.channels[conn].greeting.Some? ::
               Bound(s.process.memory, s.channels[conn].greeting.value).Success?)
    && (s.process.Up? && s.process.task.Adopting? ==>
          Acknowledged(s.process.memory, s.process.task.greeting.committed, s.process.task.greeting.chain).Success?)
    && (s.tables.owner in s.channels && s.channels[s.tables.owner].request.Some? ==>
          var b := s.channels[s.tables.owner].request.value;
          Ingest(c.st, s.tables, s.tables.owner, b, MAX_BATCH, MAX_CHARGE).Success?)
    && (s.process.Up? && s.process.task.Streaming? && s.process.task.inflight.Some?
        && s.process.task.conn in s.channels && s.channels[s.process.task.conn].response.Some? ==>
          var a := s.channels[s.process.task.conn].response.value;
          && a.sequence == s.process.task.inflight.value && a.sequence >= 0
          && Acknowledged(s.process.memory, a.sequence, a.chain).Success?)
  }

  lemma NeverRefused(c: Config, states: seq<State>, steps: seq<Step>, i: nat)
    requires ConfigOk(c) && Run(c, states, steps) && i < |states|
    ensures NothingRefused(c, states[i])
  {
    hide Inv, Run, Open, Bound, Ingest, Acknowledged;
    RunInv(c, states, steps, i);
    var s := states[i];
    if s.process.Up? && s.process.task.Connecting? {
      HelloAccepted(c, s);
      var ticket := s.process.task.ticket;
      forall conn | conn in s.channels && s.channels[conn].ticket == ticket && s.channels[conn].greeting.Some?
        ensures Bound(s.process.memory, s.channels[conn].greeting.value).Success?
      {
        GreetingAccepted(c, s, conn);
      }
    }
    if s.process.Up? && s.process.task.Adopting? {
      HeadAdopted(c, s);
    }
    if s.tables.owner in s.channels && s.channels[s.tables.owner].request.Some? {
      BatchCommitted(c, s, s.tables.owner);
    }
    if s.process.Up? && s.process.task.Streaming? && s.process.task.inflight.Some?
      && s.process.task.conn in s.channels && s.channels[s.process.task.conn].response.Some? {
      AckAccepted(c, s);
    }
  }

  // A connected sender with a backlog and nothing under way can always send: one event fits every limit.
  lemma CanAlwaysSend(c: Config, states: seq<State>, steps: seq<Step>, i: nat) returns (s': State)
    requires ConfigOk(c) && Run(c, states, steps) && i < |states| && Backlog(states[i]) > 0
    requires states[i].process.Up? && states[i].process.task.Streaming? && states[i].process.task.inflight == None
    ensures Next(c, states[i], s', SendBatch(1))
  {
    hide Inv, Init, Run;
    RunInv(c, states, steps, i);
    TailOfInv(c, states[i]);
    var s := states[i];
    var m, conn := s.process.memory, s.process.task.conn;
    OneEventFits(c, s);
    s' := WithTask(s, m, Streaming(conn, Some(m.state.ack + 1))).(
      channels := if conn in s.channels
                  then s.channels[conn := s.channels[conn].(request := Some(NextBatch(m, 1)))]
                  else s.channels);
  }

  lemma OneEventFits(c: Config, s: State)
    requires ConfigOk(c) && Inv(c, s) && s.process.Up? && !PendingRecord(s.process.task) && Backlog(s) > 0
    ensures var m := s.process.memory;
      && m.state.ack + 1 <= |m.events| && m.state.ack + 1 < |m.hashes|
      && TotalCharge(NextBatch(m, 1).events) <= MAX_CHARGE
  {
    hide MessagesOk, ConnectionOk, ReportsOk, HonestLog, HoldsPrefix, Frames, LogOk, ChainOf, HashAt;
    var m, log := s.process.memory, s.history.log;
    TailOf(c, s);
    MemoryHash(c.st, m, log, |log|);
    var e := m.events[m.state.ack];
    assert m.events[m.state.ack..m.state.ack + 1] == [e];
    assert Valid(c.st, e) by {
      RememberedValid(c.st, m, log, m.state.ack);
    }
    assert [e][..0] == [];
  }

  lemma RememberedValid(st: Stream, m: Memory, log: seq<Record>, k: nat)
    requires Remembers(st, m, log) && k < |log|
    ensures |m.events| == |log| && Valid(st, m.events[k])
  {
    ImageMirrors(st, log);
  }

  // Every acknowledgement that arrives shortens the backlog, which never becomes negative.
  lemma AckShortensBacklog(c: Config, states: seq<State>, steps: seq<Step>, i: nat)
    requires ConfigOk(c) && Run(c, states, steps) && i < |steps| && steps[i] == ReceiveAck
    ensures 0 <= Backlog(states[i + 1]) < Backlog(states[i])
  {
    hide Inv, Init, Run, Acknowledged;
    RunStep(c, states, steps, i);
    RunInv(c, states, steps, i);
    AckAccepted(c, states[i]);
    TailOfInv(c, states[i]);
    ExactlyOnceAlways(c, states, steps, i + 1);
  }

  lemma RunStep(c: Config, states: seq<State>, steps: seq<Step>, i: nat)
    requires Run(c, states, steps) && i < |steps|
    ensures |states| == |steps| + 1 && Next(c, states[i], states[i + 1], steps[i])
  {
  }

  lemma TailOfInv(c: Config, s: State)
    requires Inv(c, s) && s.process.Up? && !PendingRecord(s.process.task)
    ensures s.process.memory.state == s.disk.anchor && s.disk.anchor.tail == |s.history.log|
  {
    TailOf(c, s);
  }
}
