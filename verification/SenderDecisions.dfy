// Exactly when the sender's operations succeed, in terms of its log alone, and which code each refusal has.
module SenderDecisions {
  import opened Wrappers
  import opened Bytes
  import opened Stream
  import opened WalFile
  import opened Sender

  // ------------------------------------------------------------------ admission

  // The record that would continue the log with the caller's checkpoint.
  function Candidate(st: Stream, cd: Codec, log: seq<Record>, key: Octets, time: int, boundary: int, relay: Octets)
      : Record {
    var e := Checkpoint(cd, |log| + 1, time, boundary, relay);
    Record(key, cd.requestOf(time, boundary), e, st.link(ChainOf(st, Events(log)), e))
  }

  predicate KeyUsed(log: seq<Record>, key: Octets) {
    exists i :: 0 <= i < |log| && log[i].key == key
  }

  predicate KeySized(key: Octets) {
    0 < |key| <= 128
  }

  lemma RememberedKeys(st: Stream, m: Memory, log: seq<Record>, key: Octets)
    requires Remembers(st, m, log)
    ensures key in m.keys <==> KeyUsed(log, key)
    ensures m.hashes != [] && m.hashes[|m.hashes| - 1] == ChainOf(st, Events(log)) && m.state.tail == |log|
    ensures var i := Image(st, log).value;
      && i.hashes == m.hashes && |i.events| == |log| && i.keys == m.keys
      && i.lastTime == m.state.lastTime && i.floor == m.state.checkpoint
  {
    hide ChainOf, Image;
    ImageMirrors(st, log);
    assert Events(log)[..|log|] == Events(log);
  }

  // An admission appends exactly when the key is well sized and new, the sender is bound, the candidate record
  // continues the log by the reader's own rule, and its frame fits the cap; it then appends that record.
  lemma AdmitExactly(st: Stream, cd: Codec, m: Memory, log: seq<Record>, length: nat,
      key: Octets, time: int, boundary: int, relay: Octets)
    requires CodecOk(st, cd) && Remembers(st, m, log) && m.hashes != []
    ensures var a, r := Admit(st, cd, m, length, key, time, boundary, relay),
                        Candidate(st, cd, log, key, time, boundary, relay);
      && (a.Append? <==>
            && KeySized(key) && !KeyUsed(log, key) && m.state.bound
            && Continues(st, Image(st, log).value, r)
            && length + |Frame(st, cd.text(r))| <= m.state.cap)
      && (a.Append? ==> a.record == r)
  {
    hide ChainOf, Image, Remembers, Frame;
    RememberedKeys(st, m, log, key);
    CheckpointBoundary(st, cd, |log| + 1, time, boundary, relay);
  }

  lemma CheckpointBoundary(st: Stream, cd: Codec, n: int, time: int, boundary: int, relay: Octets)
    requires CodecOk(st, cd)
    ensures var e := Checkpoint(cd, n, time, boundary, relay); Valid(st, e) ==> Boundary(st, e) == boundary
  {
  }

  // Why an admission that does not append is refused: the first of the conditions that fails.
  lemma AdmitRefusals(st: Stream, cd: Codec, m: Memory, log: seq<Record>, length: nat,
      key: Octets, time: int, boundary: int, relay: Octets)
    requires CodecOk(st, cd) && Remembers(st, m, log) && m.hashes != []
    ensures var a, r := Admit(st, cd, m, length, key, time, boundary, relay),
                        Candidate(st, cd, log, key, time, boundary, relay);
      && (!KeySized(key) ==> a == Refused(InvalidHandshake))
      && (KeySized(key) && !KeyUsed(log, key) ==>
            && (!m.state.bound ==> a == Refused(EpochNotApproved))
            && (m.state.bound && st.check(r.event).Failure? ==> a == Refused(st.check(r.event).error))
            && (m.state.bound && Valid(st, r.event) && !Continues(st, Image(st, log).value, r) ==>
                  a == Refused(CheckpointBackdatedEvent))
            && (m.state.bound && Continues(st, Image(st, log).value, r) ==>
                  length + |Frame(st, cd.text(r))| > m.state.cap ==> a == Refused(ResourceLimitExceeded)))
  {
    hide ChainOf, Image, Remembers, Frame;
    RememberedKeys(st, m, log, key);
    CheckpointBoundary(st, cd, |log| + 1, time, boundary, relay);
  }

  // The reader's rule on times, by the log's last event: no earlier than it, past its boundary, and not falling behind.
  lemma ContinuesByLast(st: Stream, log: seq<Record>, r: Record)
    requires Image(st, log).Some? && log != []
    ensures var last := log[|log| - 1].event;
      Valid(st, last) && (Continues(st, Image(st, log).value, r) <==>
        && r.event.sequence == |log| + 1 && !KeyUsed(log, r.key) && Valid(st, r.event)
        && r.event.time >= last.time && r.event.time > Boundary(st, last) && Boundary(st, r.event) >= Boundary(st, last)
        && r.chain == st.link(ChainOf(st, Events(log)), r.event))
  {
    hide ChainOf, Image;
    ImageMirrors(st, log);
    assert Events(log)[..|log|] == Events(log);
    assert Valid(st, Events(log)[|log| - 1]);
  }

  // ------------------------------------------------------------------ acknowledgement and handshake

  // A position is taken as acknowledged exactly when it is not behind the last one, lies in the log, and comes with the
  // chain hash of the log up to there.
  lemma AcknowledgeExactly(st: Stream, m: Memory, log: seq<Record>, sequence: nat, digest: Octets)
    requires Remembers(st, m, log)
    ensures var r := Acknowledged(m, sequence, digest);
      && (r.Success? <==> m.state.ack <= sequence <= |log| && digest == ChainOf(st, Events(log)[..sequence]))
      && (r.Success? ==> r.value == m.state.(ack := sequence, ackHash := digest))
      && (!(m.state.ack <= sequence <= |log|) ==> r == Failure(SenderRollback))
      && (m.state.ack <= sequence <= |log| && digest != ChainOf(st, Events(log)[..sequence]) ==> r == Failure(SplitLog))
  {
    hide ChainOf, Image;
    ImageMirrors(st, log);
  }

  // A greeting is accepted exactly from the remembered peer, or the first one, with the built-in contract, at a
  // position between the acknowledged one and the end of the log, with the chain hash of the log up to there.
  lemma BindExactly(st: Stream, m: Memory, log: seq<Record>, g: Greeting)
    requires Remembers(st, m, log)
    ensures var r, peer := Bound(m, g), Peer(g.receiver, g.incarnation);
      && (r.Success? <==>
            && |g.receiver| == 16 && |g.incarnation| == 16 && g.sameContract && g.checkpointOnly
            && (m.state.peer == None || m.state.peer == Some(peer))
            && m.state.ack <= g.committed <= |log| && g.chain == ChainOf(st, Events(log)[..g.committed]))
      && (r.Success? ==> r.value == m.state.(peer := Some(peer), bound := true))
  {
    hide ChainOf, Image;
    ImageMirrors(st, log);
  }

  // Refusals of a greeting from another receiver, of another contract, and at a wrong position.
  lemma BindRefusals(st: Stream, m: Memory, log: seq<Record>, g: Greeting)
    requires Remembers(st, m, log) && |g.receiver| == 16 && |g.incarnation| == 16
    ensures var r, known := Bound(m, g), m.state.peer;
      && (known.Some? && known.value.receiver != g.receiver ==> r == Failure(ReceiverIdChanged))
      && (known.Some? && known.value.receiver == g.receiver && known.value.incarnation != g.incarnation ==>
            r == Failure(ReceiverIncarnationChanged))
      && (known == None || known == Some(Peer(g.receiver, g.incarnation)) ==>
            && (!g.sameContract ==> r == Failure(ContractBindingChanged))
            && (g.sameContract && !g.checkpointOnly ==> r == Failure(SemanticContractMismatch))
            && (g.sameContract && g.checkpointOnly ==>
                  && (g.committed > |log| ==> r == Failure(SenderRollback))
                  && (g.committed < m.state.ack ==> r == Failure(ReceiverRollback))
                  && (m.state.ack <= g.committed <= |log| && g.chain != ChainOf(st, Events(log)[..g.committed]) ==>
                        r == Failure(SplitLog))))
  {
    hide ChainOf, Image;
    ImageMirrors(st, log);
  }

  // ------------------------------------------------------------------ reading the file back

  function FramesOf(st: Stream, raws: seq<Octets>): Octets {
    if raws == [] then [] else FramesOf(st, raws[..|raws| - 1]) + Frame(st, raws[|raws| - 1])
  }

  // The records that the raw contents parse to.
  ghost predicate Parses(cd: Codec, raws: seq<Octets>, log: seq<Record>) {
    && |log| == |raws|
    && forall i :: 0 <= i < |raws| ==> 0 < |raws[i]| <= MAX_RECORD && cd.parse(raws[i]) == Some(log[i])
  }

  lemma FoundParts(st: Stream, file: Octets, at: nat) returns (n: nat)
    requires StreamOk(st) && ReadFrame(st, file, at).Found?
    ensures 0 < n <= MAX_RECORD && |ReadFrame(st, file, at).raw| == n && ReadFrame(st, file, at).next == at + 40 + n
    ensures |Take(file, at, 8)| == 8 && Take(file, at, 8) == Header(n)
    ensures Take(file, at + 8, n) == ReadFrame(st, file, at).raw
    ensures Take(file, at + 8 + n, 32) == st.hash(Header(n) + ReadFrame(st, file, at).raw)
  {
    hide FromBigEndian, Fits;
    var header := Take(file, at, 8);
    n := FromBigEndian(header[4..]);
    FromBigEndianInverse(header[4..]);
    assert header == header[..4] + header[4..];
  }

  lemma TakesJoin(file: Octets, at: nat, n: nat)
    requires |Take(file, at, 8)| == 8 && |Take(file, at + 8, n)| == n && |Take(file, at + 8 + n, 32)| == 32 && n > 0
    ensures at + 40 + n <= |file|
    ensures file[at..at + 40 + n] == Take(file, at, 8) + Take(file, at + 8, n) + Take(file, at + 8 + n, 32)
  {
  }

  // A frame that is found is there octet for octet, with its own hash.
  lemma FoundIsFrame(st: Stream, file: Octets, at: nat)
    requires StreamOk(st) && ReadFrame(st, file, at).Found?
    ensures var f := ReadFrame(st, file, at);
      && 0 < |f.raw| <= MAX_RECORD && at <= f.next <= |file| && file[at..f.next] == Frame(st, f.raw)
  {
    hide ReadFrame, Take, Header;
    var n := FoundParts(st, file, at);
    HashWidth(st, Header(n) + ReadFrame(st, file, at).raw);
    TakesJoin(file, at, n);
  }

  lemma HashWidth(st: Stream, s: Octets)
    requires StreamOk(st)
    ensures |st.hash(s)| == 32
  {
  }

  lemma FramesOfSnoc(st: Stream, raws: seq<Octets>, raw: Octets)
    ensures FramesOf(st, raws + [raw]) == FramesOf(st, raws) + Frame(st, raw)
  {
    assert (raws + [raw])[..|raws|] == raws;
  }

  // Reading on, after records that have been read, succeeds only by reading frames up to the very end.
  lemma {:induction false} ReadIsFrames(st: Stream, cd: Codec, file: Octets, at: nat, raws: seq<Octets>,
      log: seq<Record>)
      returns (raws': seq<Octets>, log': seq<Record>)
    requires StreamOk(st) && at <= |file| && file[..at] == FramesOf(st, raws) && Parses(cd, raws, log)
    requires Image(st, log).Some? && ReadAll(st, cd, file, at, Image(st, log).value).Some?
    ensures Parses(cd, raws', log') && file == FramesOf(st, raws')
    ensures Image(st, log') == ReadAll(st, cd, file, at, Image(st, log).value)
    decreases |file| - at
  {
    hide Frame, Continues, StreamOk, Extended;
    var m := Image(st, log).value;
    var read := ReadFrame(st, file, at);
    if read == EndOfFile {
      EndIsEnd(st, file, at);
      assert file[..at] == file;
      raws', log' := raws, log;
    } else {
      FoundIsFrame(st, file, at);
      var r := cd.parse(read.raw).value;
      assert (log + [r])[..|log|] == log;
      assert Image(st, log + [r]) == Extend(st, m, r);
      FramesOfSnoc(st, raws, read.raw);
      assert file[..read.next] == file[..at] + file[at..read.next];
      Progress(st, file, at);
      raws', log' := ReadIsFrames(st, cd, file, read.next, raws + [read.raw], log + [r]);
    }
  }

  lemma Progress(st: Stream, file: Octets, at: nat)
    requires ReadFrame(st, file, at).Found?
    ensures at < ReadFrame(st, file, at).next <= |file|
  {
  }

  lemma EndIsEnd(st: Stream, file: Octets, at: nat)
    requires ReadFrame(st, file, at) == EndOfFile
    ensures at >= |file|
  {
    assert Take(file, at, 8) == [];
  }

  // A file reads back only if it consists of complete frames, each with the hash of its own content, of records that
  // form a log; what is read is the image of that log. Nothing else on disk is ever taken for a record.
  lemma ReadOnlyFrames(st: Stream, cd: Codec, file: Octets) returns (raws: seq<Octets>, log: seq<Record>)
    requires StreamOk(st) && ReadAll(st, cd, file, 0, EmptyMirror(st)).Some?
    ensures Parses(cd, raws, log) && file == FramesOf(st, raws)
    ensures Image(st, log) == ReadAll(st, cd, file, 0, EmptyMirror(st))
  {
    assert file[..0] == [];
    raws, log := ReadIsFrames(st, cd, file, 0, [], []);
  }

  // A log on disk reopens exactly when the anchor describes a prefix of it.
  lemma ReopensExactly(st: Stream, cd: Codec, disk: Disk, log: seq<Record>)
    requires StreamOk(st) && LogOk(st, cd, log) && disk.file == Frames(st, cd, log)
    ensures Recovered(st, cd, disk).Some? <==> Anchors(st, disk.anchor, log)
  {
    hide ReadAll, ChainOf, Image, Frames;
    ReadComplete(st, cd, log);
    ImageMirrors(st, log);
  }
}
