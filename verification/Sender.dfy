// The sender's durable and volatile state, and what each operation on it computes.
module Sender {
  import opened Arithmetic
  import opened Wrappers
  import opened Bytes
  import opened Stream
  import opened WalFile

  datatype Peer = Peer(receiver: Octets, incarnation: Octets)

  // The separately stored anchor: how far the log is known durable and acknowledged.
  datatype Anchor = Anchor(
    tail: nat, tailHash: Octets,
    ack: nat, ackHash: Octets,
    peer: Option<Peer>, bound: bool,
    cap: nat, lastTime: int, checkpoint: int)

  // What survives the process. A crash may lose any octets of `file` past `synced`.
  datatype Disk = Disk(file: Octets, synced: nat, anchor: Anchor)

  // What the process holds.
  datatype Memory = Memory(
    state: Anchor,
    events: seq<Event>,
    hashes: seq<Octets>,
    keys: map<Octets, (Octets, int)>)

  datatype Hello = Hello(tail: nat, ack: nat, ackHash: Octets)

  // sameContract: protocol 1.1 with the built-in contract binding; checkpointOnly: no profiles, event type 1 only.
  datatype Greeting = Greeting(
    receiver: Octets, incarnation: Octets, sameContract: bool, checkpointOnly: bool,
    committed: nat, chain: Octets)

  function InitialAnchor(st: Stream, cap: nat): Anchor {
    Anchor(0, st.genesis, 0, st.genesis, None, false, cap, 0, -1)
  }

  // ------------------------------------------------------------------ opening

  // The anchor agrees with the log that was read back.
  predicate AnchorMatches(a: Anchor, hashes: seq<Octets>) {
    && a.tail < |hashes| && hashes[a.tail] == a.tailHash
    && a.ack <= a.tail && hashes[a.ack] == a.ackHash
  }

  function MemoryOf(a: Anchor, m: Mirror): Memory
    requires m.hashes != []
  {
    Memory(
      a.(tail := |m.events|, tailHash := m.hashes[|m.hashes| - 1], lastTime := m.lastTime, checkpoint := m.floor),
      m.events, m.hashes, m.keys)
  }

  // Memory after reopening; None is corruption, and nothing is changed then.
  function Recovered(st: Stream, cd: Codec, disk: Disk): Option<Memory> {
    match ReadAll(st, cd, disk.file, 0, EmptyMirror(st))
    case None => None
    case Some(m) =>
      if m.hashes != [] && |m.hashes| == |m.events| + 1 && AnchorMatches(disk.anchor, m.hashes)
      then Some(MemoryOf(disk.anchor, m)) else None
  }

  // ------------------------------------------------------------------ admission

  datatype Admission = Known(sequence: int) | Refused(code: Code) | Append(record: Record)

  function Checkpoint(cd: Codec, sequence: int, time: int, boundary: int, relay: Octets): Event {
    Event(sequence, 1, [], time, relay, cd.payloadOf(boundary))
  }

  function NewRecord(st: Stream, cd: Codec, m: Memory, key: Octets, e: Event, time: int, boundary: int): Record
    requires m.hashes != []
  {
    Record(key, cd.requestOf(time, boundary), e, st.link(m.hashes[|m.hashes| - 1], e))
  }

  // The decision on a caller's checkpoint; the log changes only on Append.
  function Admit(st: Stream, cd: Codec, m: Memory, length: nat, key: Octets, time: int, boundary: int, relay: Octets)
      : (a: Admission)
    requires m.hashes != []
    ensures a.Append? ==> a.record.key == key && a.record.event.sequence == m.state.tail + 1
  {
    if !(0 < |key| <= 128) then Refused(InvalidHandshake)
    else if key in m.keys then
      if m.keys[key].0 == cd.requestOf(time, boundary) then Known(m.keys[key].1) else Refused(IdempotencyKeyConflict)
    else if !m.state.bound then Refused(EpochNotApproved)
    else
      var e := Checkpoint(cd, m.state.tail + 1, time, boundary, relay);
      match st.check(e)
      case Failure(code) => Refused(code)
      case Success(_) =>
        if !(time >= m.state.lastTime && time > m.state.checkpoint && boundary >= m.state.checkpoint)
        then Refused(CheckpointBackdatedEvent)
        else
          var r := NewRecord(st, cd, m, key, e, time, boundary);
          if length + |Frame(st, cd.text(r))| > m.state.cap then Refused(ResourceLimitExceeded)
          else Append(r)
  }

  function AnchorAfter(a: Anchor, r: Record, boundary: int): Anchor
    requires r.event.sequence >= 0
  {
    a.(tail := r.event.sequence, tailHash := r.chain, lastTime := r.event.time, checkpoint := boundary)
  }

  function MemoryAfter(m: Memory, r: Record, boundary: int): Memory
    requires r.event.sequence >= 0
  {
    Memory(AnchorAfter(m.state, r, boundary), m.events + [r.event], m.hashes + [r.chain],
      m.keys[r.key := (r.request, r.event.sequence)])
  }

  // ------------------------------------------------------------------ acknowledgement and handshake

  function Acknowledged(m: Memory, sequence: nat, digest: Octets): Result<Anchor, Code> {
    if !(m.state.ack <= sequence <= m.state.tail && sequence < |m.hashes|) then Failure(SenderRollback)
    else if m.hashes[sequence] != digest then Failure(SplitLog)
    else Success(m.state.(ack := sequence, ackHash := digest))
  }

  function Greet(m: Memory): Hello {
    Hello(m.state.tail, m.state.ack, m.state.ackHash)
  }

  // State after accepting a receiver's greeting, before the committed head is adopted as acknowledgement.
  function Bound(m: Memory, g: Greeting): Result<Anchor, Code> {
    if !(|g.receiver| == 16 && |g.incarnation| == 16) then Failure(InvalidHandshake)
    else if m.state.peer.Some? && m.state.peer.value.receiver != g.receiver then Failure(ReceiverIdChanged)
    else if m.state.peer.Some? && m.state.peer.value.incarnation != g.incarnation
    then Failure(ReceiverIncarnationChanged)
    else if !g.sameContract then Failure(ContractBindingChanged)
    else if !g.checkpointOnly then Failure(SemanticContractMismatch)
    else if !(g.committed <= m.state.tail && g.committed < |m.hashes|) then Failure(SenderRollback)
    else if !(g.committed >= m.state.ack) then Failure(ReceiverRollback)
    else if m.hashes[g.committed] != g.chain then Failure(SplitLog)
    else Success(m.state.(peer := Some(Peer(g.receiver, g.incarnation)), bound := true))
  }

  // The checks on a greeting that come before its position in the log is looked at.
  predicate PeerAccepted(m: Memory, g: Greeting) {
    && |g.receiver| == 16 && |g.incarnation| == 16
    && (m.state.peer.Some? ==> m.state.peer.value == Peer(g.receiver, g.incarnation))
    && g.sameContract && g.checkpointOnly
  }

  // ------------------------------------------------------------------ consistency of the two stores

  // Memory of a running sender whose complete log is `log`.
  ghost predicate Remembers(st: Stream, m: Memory, log: seq<Record>) {
    && Image(st, log).Some?
    && (var i := Image(st, log).value;
        && m.events == i.events && m.hashes == i.hashes && m.keys == i.keys
        && m.state.lastTime == i.lastTime && m.state.checkpoint == i.floor)
    && m.state.tail == |log|
    && m.state.tailHash == ChainOf(st, Events(log))
    && m.state.ack <= |log|
    && m.state.ackHash == ChainOf(st, Events(log)[..m.state.ack])
  }

  // The anchor describes a prefix of the log.
  ghost predicate Anchors(st: Stream, a: Anchor, log: seq<Record>) {
    && a.tail <= |log| && a.tailHash == ChainOf(st, Events(log)[..a.tail])
    && a.ack <= a.tail && a.ackHash == ChainOf(st, Events(log)[..a.ack])
  }

  // A record that an admission can write.
  predicate WellSized(st: Stream, r: Record) {
    Valid(st, r.event) && 0 < |r.key| <= 128 && |r.request| == 32 && |r.chain| == 32
  }

  // The environment's functions: records read back as written, and a checkpoint carries its boundary.
  ghost predicate CodecOk(st: Stream, cd: Codec) {
    && (forall r: Record :: WellSized(st, r) ==> Readable(cd, r))
    && (forall t: int, b: int :: |cd.requestOf(t, b)| == 32)
    && (forall n: int, t: int, b: int, u: Octets {:trigger Checkpoint(cd, n, t, b, u)} ::
          Valid(st, Checkpoint(cd, n, t, b, u)) ==> Boundary(st, Checkpoint(cd, n, t, b, u)) == b)
  }

  // Appending the admitted record continues the log, and the two ways of advancing memory agree.
  lemma AdmitContinues(st: Stream, cd: Codec, m: Memory, log: seq<Record>, length: nat,
      key: Octets, time: int, boundary: int, relay: Octets)
    requires StreamOk(st) && CodecOk(st, cd) && LogOk(st, cd, log) && Remembers(st, m, log)
    requires m.hashes != [] && Admit(st, cd, m, length, key, time, boundary, relay).Append?
    ensures var r := Admit(st, cd, m, length, key, time, boundary, relay).record;
      && r.event.sequence == |log| + 1
      && Continues(st, Image(st, log).value, r)
      && LogOk(st, cd, log + [r])
      && Remembers(st, MemoryAfter(m, r, boundary), log + [r])
      && Boundary(st, r.event) == boundary
  {
    var r := Admit(st, cd, m, length, key, time, boundary, relay).record;
    var e := Checkpoint(cd, m.state.tail + 1, time, boundary, relay);
    assert r.event == e && Boundary(st, e) == boundary;
    ImageMirrors(st, log);
    AppendRemembers(st, cd, m, log, r);
  }

  lemma AppendRemembers(st: Stream, cd: Codec, m: Memory, log: seq<Record>, r: Record)
    requires LogOk(st, cd, log) && Remembers(st, m, log) && Continues(st, Image(st, log).value, r) && Readable(cd, r)
    ensures LogOk(st, cd, log + [r])
    ensures r.event.sequence >= 0 && Remembers(st, MemoryAfter(m, r, Boundary(st, r.event)), log + [r])
  {
    ImageSnoc(st, log, r);
    ImageChain(st, log);
    EventsSnoc(st, log, r);
    assert Events(log + [r])[..m.state.ack] == Events(log)[..m.state.ack];
  }

  lemma ImageSnoc(st: Stream, log: seq<Record>, r: Record)
    requires Image(st, log).Some? && Continues(st, Image(st, log).value, r)
    ensures Image(st, log + [r]) == Some(Extended(st, Image(st, log).value, r))
    ensures r.event.sequence == |log| + 1
  {
    assert (log + [r])[..|log|] == log;
    ImageMirrors(st, log);
  }

  // The last chain hash of a log's image is the chain hash of its events.
  lemma ImageChain(st: Stream, log: seq<Record>)
    requires Image(st, log).Some?
    ensures var i := Image(st, log).value;
      |i.events| == |log| && |i.hashes| == |log| + 1 && i.hashes[|log|] == ChainOf(st, Events(log))
  {
    ImageMirrors(st, log);
    assert Events(log)[..|log|] == Events(log);
  }

  lemma EventsSnoc(st: Stream, log: seq<Record>, r: Record)
    ensures Events(log + [r]) == Events(log) + [r.event]
    ensures ChainOf(st, Events(log + [r])) == st.link(ChainOf(st, Events(log)), r.event)
  {
    assert Events(log + [r]) == Events(log) + [r.event];
    assert (Events(log) + [r.event])[..|log|] == Events(log);
  }

  // ------------------------------------------------------------------ crash recovery

  // A file that holds complete records of a log whose prefix is anchored reopens to the memory of that log.
  lemma RecoverComplete(st: Stream, cd: Codec, disk: Disk, log: seq<Record>)
    requires StreamOk(st) && LogOk(st, cd, log) && disk.file == Frames(st, cd, log) && Anchors(st, disk.anchor, log)
    ensures Recovered(st, cd, disk).Some?
    ensures Remembers(st, Recovered(st, cd, disk).value, log)
    ensures Recovered(st, cd, disk).value.state
         == disk.anchor.(tail := |log|, tailHash := ChainOf(st, Events(log)),
                         lastTime := Image(st, log).value.lastTime, checkpoint := Image(st, log).value.floor)
  {
    hide ReadAll, Frames, ChainOf, Image, Keyed, Numbered;
    ReadComplete(st, cd, log);
    ImageMirrors(st, log);
    assert Events(log)[..|log|] == Events(log);
  }

  lemma AnchorsPrefix(st: Stream, a: Anchor, log: seq<Record>, i: nat)
    requires Anchors(st, a, log) && a.tail <= i <= |log|
    ensures Anchors(st, a, log[..i])
  {
    assert Events(log[..i])[..a.tail] == Events(log)[..a.tail];
    assert Events(log[..i])[..a.ack] == Events(log)[..a.ack];
  }

  lemma LogPrefixOk(st: Stream, cd: Codec, log: seq<Record>, i: nat)
    requires LogOk(st, cd, log) && i <= |log|
    ensures LogOk(st, cd, log[..i])
  {
    ImagePrefix(st, log, i);
  }

  lemma {:induction false} FramesLonger(st: Stream, cd: Codec, log: seq<Record>, i: nat, j: nat)
    requires i <= j <= |log|
    ensures |Frames(st, cd, log[..i])| <= |Frames(st, cd, log[..j])|
  {
    FramesPrefix(st, cd, log[..j], i);
    assert log[..j][..i] == log[..i];
  }

  lemma FramesStrictlyLonger(st: Stream, cd: Codec, log: seq<Record>, i: nat, j: nat)
    requires i < j <= |log|
    ensures |Frames(st, cd, log[..i])| < |Frames(st, cd, log[..j])|
  {
    FramesSnoc(st, cd, log, i);
    FramesLonger(st, cd, log, i + 1, j);
  }

  // Cut the file of any run of admissions at any octet past the durable records: reopening either fails because
  // the last record is incomplete, or restores exactly a prefix of the log that keeps every durable record.
  lemma CrashRecovery(st: Stream, cd: Codec, disk: Disk, log: seq<Record>, stable: nat, k: nat)
    requires StreamOk(st) && LogOk(st, cd, log) && disk.file == Frames(st, cd, log)
    requires Anchors(st, disk.anchor, log) && disk.anchor.tail <= stable <= |log|
    requires |Frames(st, cd, log[..stable])| <= k <= |disk.file|
    ensures var cut := Recovered(st, cd, disk.(file := disk.file[..k]));
      (exists j :: stable <= j <= |log| && k == |Frames(st, cd, log[..j])|
                   && cut.Some? && Remembers(st, cut.value, log[..j]))
      || (cut.None? && forall j :: 0 <= j <= |log| ==> k != |Frames(st, cd, log[..j])|)
  {
    var j, torn := CutFrames(st, cd, log, k);
    var cut := disk.(file := disk.file[..k]);
    LogPrefixOk(st, cd, log, j);
    assert |disk.file[..k]| == k;
    if torn == [] {
      assert cut.file == Frames(st, cd, log[..j]);
      if j < stable {
        FramesStrictlyLonger(st, cd, log, j, stable);
      }
      AnchorsPrefix(st, disk.anchor, log, j);
      RecoverComplete(st, cd, cut, log[..j]);
    } else {
      assert Readable(cd, log[j]);
      ReadBroken(st, cd, log[..j], cd.text(log[j]), torn);
      forall i | 0 <= i <= |log|
        ensures k != |Frames(st, cd, log[..i])|
      {
        FramesSnoc(st, cd, log, j);
        if i <= j {
          FramesLonger(st, cd, log, i, j);
        } else {
          FramesLonger(st, cd, log, j + 1, i);
        }
      }
    }
  }

  lemma KeyRemembered(st: Stream, m: Memory, log: seq<Record>, i: nat)
    requires Remembers(st, m, log) && i < |log|
    ensures log[i].key in m.keys && m.keys[log[i].key] == (log[i].request, i + 1)
  {
    ImageMirrors(st, log);
  }

  // Retrying an admitted key after any reopening returns the original sequence, and never appends.
  lemma RetryReturnsOriginal(st: Stream, cd: Codec, m: Memory, log: seq<Record>, i: nat, length: nat,
      time: int, boundary: int, relay: Octets)
    requires Remembers(st, m, log) && m.hashes != [] && i < |log| && 0 < |log[i].key| <= 128
    ensures Admit(st, cd, m, length, log[i].key, time, boundary, relay)
         == if log[i].request == cd.requestOf(time, boundary) then Known(i + 1) else Refused(IdempotencyKeyConflict)
  {
    KeyRemembered(st, m, log, i);
  }
}
