// The sender's write-ahead log as the program keeps it: files, anchor and volatile mirrors, updated in place.
//
// Each method is proved against the functions of module Sender. Where a write, a sync or the replacement of the
// anchor can fail, a parameter says how far it got; after a failure the log is closed until it is reopened.
module Wal {
  import opened Wrappers
  import opened Bytes
  import opened Stream
  import opened WalFile
  import opened Sender

  // Replacing the anchor file: done, or failed before or after the new file took the old one's place.
  datatype SaveFault = SaveDone | SaveFailed(replaced: bool)

  // Appending a record: done up to the anchor, or failed with some octets written, or failed to sync.
  datatype AppendFault = AppendDone(save: SaveFault) | WriteFailed(kept: nat) | SyncFailed

  predicate NoFault(f: AppendFault) {
    f == AppendDone(SaveDone)
  }

  // The anchor on disk after writing a new one.
  function SavedAnchor(before: Anchor, after: Anchor, fault: SaveFault): Anchor {
    if fault == SaveFailed(false) then before else after
  }

  // The disk after appending a frame and writing the anchor that goes with it, as far as they got.
  function AppendedDisk(d: Disk, frame: Octets, a: Anchor, fault: AppendFault): Disk {
    var file := d.file + frame;
    match fault
    case WriteFailed(kept) => d.(file := if kept < |frame| then d.file + frame[..kept] else file)
    case SyncFailed => d.(file := file)
    case AppendDone(save) => Disk(file, |file|, SavedAnchor(d.anchor, a, save))
  }

  ghost predicate Broken(st: Stream, torn: Octets) {
    torn != [] ==> exists raw: Octets :: 0 < |raw| <= MAX_RECORD && torn < Frame(st, raw)
  }

  // What is on disk: complete records, at most one broken one, and an anchor for a synced prefix of them.
  ghost predicate Intact(st: Stream, cd: Codec, disk: Disk, log: seq<Record>, torn: Octets, stable: nat) {
    && LogOk(st, cd, log)
    && disk.file == Frames(st, cd, log) + torn && Broken(st, torn)
    && stable <= |log| && disk.synced == |Frames(st, cd, log[..stable])|
    && Anchors(st, disk.anchor, log) && disk.anchor.tail <= stable
  }

  // A new complete record, synced or not.
  lemma IntactAppend(st: Stream, cd: Codec, disk: Disk, log: seq<Record>, r: Record)
    requires Intact(st, cd, disk, log, [], |log|) && LogOk(st, cd, log + [r])
    ensures Intact(st, cd, disk.(file := disk.file + Frame(st, cd.text(r))), log + [r], [], |log|)
  {
    hide Image, ChainOf, Frame, Broken;
    EventsSnoc(st, log, r);
    assert (log + [r])[..|log|] == log;
    assert log[..|log|] == log;
    assert Events(log + [r])[..disk.anchor.tail] == Events(log)[..disk.anchor.tail];
    assert Events(log + [r])[..disk.anchor.ack] == Events(log)[..disk.anchor.ack];
  }

  lemma IntactSynced(st: Stream, cd: Codec, disk: Disk, log: seq<Record>, stable: nat)
    requires Intact(st, cd, disk, log, [], stable)
    ensures Intact(st, cd, disk.(synced := |disk.file|), log, [], |log|)
  {
    assert log[..|log|] == log;
  }

  lemma IntactAnchored(st: Stream, cd: Codec, disk: Disk, log: seq<Record>, a: Anchor)
    requires Intact(st, cd, disk, log, [], |log|) && Anchors(st, a, log)
    ensures Intact(st, cd, disk.(anchor := a), log, [], |log|)
  {
  }

  // A record written only in part.
  lemma IntactTorn(st: Stream, cd: Codec, disk: Disk, log: seq<Record>, raw: Octets, kept: nat)
    requires Intact(st, cd, disk, log, [], |log|) && 0 < |raw| <= MAX_RECORD && kept < |Frame(st, raw)|
    ensures Intact(st, cd, disk.(file := disk.file + Frame(st, raw)[..kept]), log, Frame(st, raw)[..kept], |log|)
  {
    var torn := Frame(st, raw)[..kept];
    assert torn < Frame(st, raw);
    assert disk.file + torn == Frames(st, cd, log) + torn;
  }

  // Memory of a log's sender anchors that log.
  lemma RemembersAnchors(st: Stream, m: Memory, log: seq<Record>)
    requires Remembers(st, m, log)
    ensures Anchors(st, m.state, log) && |m.hashes| == |log| + 1 && |m.events| == |log|
    ensures m.hashes[m.state.ack] == m.state.ackHash && m.hashes[m.state.tail] == m.state.tailHash
  {
    ImageMirrors(st, log);
    assert Events(log)[..|log|] == Events(log);
  }

  // Reading on from a position, by what is found there.
  lemma ReadUnfolds(st: Stream, cd: Codec, file: Octets, at: nat, m: Mirror)
    ensures var read := ReadFrame(st, file, at);
      && (read == EndOfFile ==> ReadAll(st, cd, file, at, m) == Some(m))
      && (read == Corrupt ==> ReadAll(st, cd, file, at, m) == None)
      && (read.Found? ==>
            && at < read.next && at < |file|
            && match Advance(st, cd, m, read.raw)
               case None => ReadAll(st, cd, file, at, m) == None
               case Some(m') => ReadAll(st, cd, file, at, m) == ReadAll(st, cd, file, read.next, m'))
  {
    hide Advance;
  }

  class Wal {
    const st: Stream
    const cd: Codec

    // Outlives the process.
    var disk: Disk

    // Lives with the process, while `healthy`.
    var healthy: bool
    var state: Anchor
    var events: seq<Event>
    var hashes: seq<Octets>
    var keys: map<Octets, (Octets, int)>

    // The complete records on disk, the octets after them, and how many of the records are synced.
    ghost var log: seq<Record>
    ghost var torn: Octets
    ghost var stable: nat

    function Mem(): Memory
      reads this
    {
      Memory(state, events, hashes, keys)
    }

    ghost predicate Valid()
      reads this
    {
      && StreamOk(st) && CodecOk(st, cd)
      && Intact(st, cd, disk, log, torn, stable)
      && (healthy ==>
            hashes != [] && torn == [] && stable == |log| && Remembers(st, Mem(), log) && disk.anchor == state)
    }

    // Finds a disk as some earlier process left it; nothing has been read yet.
    constructor (st: Stream, cd: Codec, disk: Disk, ghost log: seq<Record>, ghost torn: Octets, ghost stable: nat)
      requires StreamOk(st) && CodecOk(st, cd) && Intact(st, cd, disk, log, torn, stable)
      ensures Valid() && !healthy && this.st == st && this.cd == cd && this.disk == disk
      ensures this.log == log && this.torn == torn && this.stable == stable
    {
      this.st, this.cd, this.disk, this.healthy := st, cd, disk, false;
      this.state, this.events, this.hashes, this.keys := disk.anchor, [], [], map[];
      this.log, this.torn, this.stable := log, torn, stable;
    }

    // A new log, with its initial anchor already in place.
    constructor Create(st: Stream, cd: Codec, cap: nat)
      requires StreamOk(st) && CodecOk(st, cd)
      ensures Valid() && !healthy && this.st == st && this.cd == cd
      ensures disk == Disk([], 0, InitialAnchor(st, cap)) && log == [] && torn == []
    {
      this.st, this.cd, this.disk, this.healthy := st, cd, Disk([], 0, InitialAnchor(st, cap)), false;
      this.state, this.events, this.hashes, this.keys := InitialAnchor(st, cap), [], [], map[];
      this.log, this.torn, this.stable := [], [], 0;
    }

    // Writes the anchor; a failure closes the log, and a closed log writes nothing.
    method Save(fault: SaveFault) returns (r: Result<(), Code>)
      modifies this`disk, this`healthy
      ensures !old(healthy) ==> r == Failure(WalReopenRequired) && disk == old(disk) && !healthy
      ensures old(healthy) ==>
        && disk == old(disk).(anchor := SavedAnchor(old(disk).anchor, state, fault))
        && healthy == (fault == SaveDone)
        && r == if fault == SaveDone then Success(()) else Failure(WalIoFailure)
    {
      if !healthy {
        return Failure(WalReopenRequired);
      }
      match fault
      case SaveDone =>
        disk := disk.(anchor := state);
        r := Success(());
      case SaveFailed(replaced) =>
        if replaced {
          disk := disk.(anchor := state);
        }
        healthy := false;
        r := Failure(WalIoFailure);
    }

    // Reads the file into memory record by record, from the first; None is corruption, wherever it is found.
    method ReadBack() returns (r: Option<(int, int)>)
      requires StreamOk(st)
      modifies this`events, this`hashes, this`keys
      ensures ReadAll(st, cd, disk.file, 0, EmptyMirror(st))
           == if r.Some? then Some(Mirror(events, hashes, keys, r.value.0, r.value.1)) else None
      ensures r.Some? ==> |hashes| == |events| + 1
    {
      hide ReadAll, ReadFrame, Advance;
      events, hashes, keys := [], [st.genesis], map[];
      var lastTime, floor := 0, -1;
      var at: nat := 0;
      var read := ReadFrame(st, disk.file, at);
      while read.Found?
        invariant read == ReadFrame(st, disk.file, at) && |hashes| == |events| + 1
        invariant ReadAll(st, cd, disk.file, 0, EmptyMirror(st))
               == ReadAll(st, cd, disk.file, at, Mirror(events, hashes, keys, lastTime, floor))
        decreases |disk.file| - at
      {
        ghost var m := Mirror(events, hashes, keys, lastTime, floor);
        ReadUnfolds(st, cd, disk.file, at, m);
        var times := Append(read.raw, lastTime, floor);
        if times == None {
          return None;
        }
        lastTime, floor := times.value.0, times.value.1;
        at := read.next;
        read := ReadFrame(st, disk.file, at);
      }
      ReadUnfolds(st, cd, disk.file, at, Mirror(events, hashes, keys, lastTime, floor));
      r := if read == Corrupt then None else Some((lastTime, floor));
    }

    // One record read back: it must parse and continue what was read before.
    method Append(raw: Octets, lastTime: int, floor: int) returns (r: Option<(int, int)>)
      requires hashes != []
      modifies this`events, this`hashes, this`keys
      ensures Advance(st, cd, Mirror(old(events), old(hashes), old(keys), lastTime, floor), raw)
           == if r.Some? then Some(Mirror(events, hashes, keys, r.value.0, r.value.1)) else None
      ensures r.Some? ==> |hashes| == |old(hashes)| + 1 && |events| == |old(events)| + 1
    {
      var parsed := cd.parse(raw);
      if parsed == None {
        return None;
      }
      var x := parsed.value;
      if x.event.sequence != |events| + 1 || x.key in keys {
        return None;
      }
      var boundary := st.check(x.event);
      if boundary.Failure? || !(x.event.time >= lastTime && x.event.time > floor && boundary.value >= floor) {
        return None;
      }
      var ch := st.link(hashes[|hashes| - 1], x.event);
      if ch != x.chain {
        return None;
      }
      events, hashes, keys := events + [x.event], hashes + [ch], keys[x.key := (x.request, x.event.sequence)];
      r := Some((x.event.time, boundary.value));
    }

    // Reopens the log. Success means that memory is that of exactly the records on disk, all synced by now; a broken
    // record fails without a change.
    method Recover(syncFails: bool, fault: SaveFault) returns (r: Result<(), Code>)
      requires Valid() && !healthy
      modifies this
      ensures Valid() && disk.file == old(disk).file && log == old(log) && torn == old(torn)
      ensures r.Success? <==> old(torn) == [] && !syncFails && fault == SaveDone
      ensures r.Success? ==>
        && healthy
        && Recovered(st, cd, old(disk)) == Some(Mem())
        && disk == Disk(old(disk).file, |old(disk).file|, state)
      ensures r.Failure? ==> !healthy && r.error == (if old(torn) == [] then WalIoFailure else WalCorruption)
      ensures old(torn) != [] || syncFails ==> disk == old(disk)
      ensures old(torn) == [] && !syncFails ==>
        && Recovered(st, cd, old(disk)).Some?
        && disk == Disk(old(disk).file, |old(disk).file|,
             SavedAnchor(old(disk).anchor, Recovered(st, cd, old(disk)).value.state, fault))
    {
      hide ReadAll, Frames, LogOk, Remembers, Broken, Intact, StreamOk, CodecOk, Anchors, Image;
      RecoverIs(st, cd, disk, log, torn, stable);
      state := disk.anchor;
      var back := ReadBack();
      if back == None || !AnchorMatches(state, hashes) {
        return Failure(WalCorruption);
      }
      if syncFails {
        return Failure(WalIoFailure);
      }
      IntactSynced(st, cd, disk, log, stable);
      disk, stable := disk.(synced := |disk.file|), |log|;
      var (lastTime, floor) := back.value;
      state := state.(tail := |events|, tailHash := hashes[|hashes| - 1], lastTime := lastTime, checkpoint := floor);
      RemembersAnchors(st, Mem(), log);
      IntactAnchored(st, cd, disk, log, state);
      healthy := true;
      r := Save(fault);
    }

    // What an admission will decide. A running log has at least the genesis hash in memory.
    function Decision(key: Octets, time: int, boundary: int, relay: Octets): (a: Admission)
      reads this
      ensures a.Append? ==> a.record.event.sequence == state.tail + 1
    {
      if hashes == [] then Refused(WalReopenRequired)
      else Admit(st, cd, Mem(), |disk.file|, key, time, boundary, relay)
    }

    // A caller's checkpoint: answered from memory, refused without a change, or appended, synced and anchored.
    // A failure on the way closes the log; the record may then be on disk in part, in full, or not at all.
    method AdmitCheckpoint(key: Octets, time: int, boundary: int, relay: Octets, fault: AppendFault)
        returns (r: Result<int, Code>)
      requires Valid()
      modifies this
      ensures Valid() && old(log) <= log
      ensures !old(healthy) ==> r == Failure(WalReopenRequired) && disk == old(disk) && Mem() == old(Mem()) && !healthy
      ensures old(healthy) ==>
        match old(Decision(key, time, boundary, relay))
        case Known(sequence) => r == Success(sequence) && disk == old(disk) && Mem() == old(Mem()) && healthy
        case Refused(code) => r == Failure(code) && disk == old(disk) && Mem() == old(Mem()) && healthy
        case Append(rec) =>
          if NoFault(fault) then
            && r == Success(rec.event.sequence) && healthy && log == old(log) + [rec]
            && Mem() == MemoryAfter(old(Mem()), rec, boundary)
            && disk == AppendedDisk(old(disk), Frame(st, cd.text(rec)), AnchorAfter(old(state), rec, boundary), fault)
          else
            && r == Failure(WalIoFailure) && !healthy && (log == old(log) || log == old(log) + [rec])
            && disk == AppendedDisk(old(disk), Frame(st, cd.text(rec)), AnchorAfter(old(state), rec, boundary), fault)
    {
      hide Frames, LogOk, Remembers, Broken, StreamOk, Anchors, Image, Frame, MemoryAfter;
      if !healthy {
        return Failure(WalReopenRequired);
      }
      RemembersAnchors(st, Mem(), log);
      if !(0 < |key| <= 128) {
        return Failure(InvalidHandshake);
      }
      var request := cd.requestOf(time, boundary);
      if key in keys {
        if keys[key].0 != request {
          return Failure(IdempotencyKeyConflict);
        }
        return Success(keys[key].1);
      }
      if !state.bound {
        return Failure(EpochNotApproved);
      }
      var e := Checkpoint(cd, state.tail + 1, time, boundary, relay);
      var checked := st.check(e);
      if checked.Failure? {
        return Failure(checked.error);
      }
      if !(time >= state.lastTime && time > state.checkpoint && boundary >= state.checkpoint) {
        return Failure(CheckpointBackdatedEvent);
      }
      var rec := Record(key, request, e, st.link(hashes[|hashes| - 1], e));
      if |disk.file| + |Frame(st, cd.text(rec))| > state.cap {
        return Failure(ResourceLimitExceeded);
      }
      assert Admit(st, cd, Mem(), |disk.file|, key, time, boundary, relay) == Admission.Append(rec);
      AdmittedFits(st, cd, Mem(), log, |disk.file|, key, time, boundary, relay);
      r := Write(rec, boundary, fault);
    }

    // Appends a record's frame and syncs it.
    method AppendFrame(rec: Record, fault: AppendFault) returns (ok: bool)
      requires Valid() && healthy && LogOk(st, cd, log + [rec]) && 0 < |cd.text(rec)| <= MAX_RECORD
      modifies this`disk, this`torn, this`healthy, this`log, this`stable
      ensures ok == fault.AppendDone?
      ensures ok ==>
        && healthy && log == old(log) + [rec] && torn == [] && stable == |log|
        && Intact(st, cd, disk, log, torn, stable)
        && disk == Disk(old(disk).file + Frame(st, cd.text(rec)), |disk.file|, old(disk).anchor)
      ensures !ok ==>
        && Valid() && !healthy && (log == old(log) || log == old(log) + [rec])
        && disk == AppendedDisk(old(disk), Frame(st, cd.text(rec)), old(disk).anchor, fault)
    {
      hide Frames, LogOk, Remembers, Broken, Intact, StreamOk, CodecOk, Anchors, Image, Frame;
      var frame := Frame(st, cd.text(rec));
      IntactAppend(st, cd, disk, log, rec);
      if fault.WriteFailed? && fault.kept < |frame| {
        IntactTorn(st, cd, disk, log, cd.text(rec), fault.kept);
        disk, torn, healthy := disk.(file := disk.file + frame[..fault.kept]), frame[..fault.kept], false;
        return false;
      }
      disk, log := disk.(file := disk.file + frame), log + [rec];
      if fault.WriteFailed? || fault.SyncFailed? {
        healthy := false;
        return false;
      }
      IntactSynced(st, cd, disk, log, stable);
      disk, stable := disk.(synced := |disk.file|), |log|;
      ok := true;
    }

    // The three durable steps of an admission, then the volatile one.
    method Write(rec: Record, boundary: int, fault: AppendFault) returns (r: Result<int, Code>)
      requires Valid() && healthy && LogOk(st, cd, log + [rec]) && 0 < |cd.text(rec)| <= MAX_RECORD
      requires rec.event.sequence >= 0 && Remembers(st, MemoryAfter(Mem(), rec, boundary), log + [rec])
      modifies this
      ensures Valid()
      ensures if NoFault(fault) then
            && r == Success(rec.event.sequence) && healthy && log == old(log) + [rec]
            && Mem() == MemoryAfter(old(Mem()), rec, boundary)
            && disk == AppendedDisk(old(disk), Frame(st, cd.text(rec)), AnchorAfter(old(state), rec, boundary), fault)
          else
            && r == Failure(WalIoFailure) && !healthy && (log == old(log) || log == old(log) + [rec])
            && disk == AppendedDisk(old(disk), Frame(st, cd.text(rec)), AnchorAfter(old(state), rec, boundary), fault)
    {
      hide Frames, LogOk, Remembers, Broken, Intact, StreamOk, CodecOk, Anchors, Image, Frame;
      var appended := AppendFrame(rec, fault);
      if !appended {
        return Failure(WalIoFailure);
      }
      RemembersAnchors(st, MemoryAfter(Mem(), rec, boundary), log);
      state := state.(tail := rec.event.sequence, tailHash := rec.chain,
                      lastTime := rec.event.time, checkpoint := boundary);
      IntactAnchored(st, cd, disk, log, state);
      ghost var disk0 := disk;
      var saved := Save(fault.save);
      assert disk == disk0 || disk == disk0.(anchor := state);
      if saved.Failure? {
        return Failure(WalIoFailure);
      }
      events, hashes := events + [rec.event], hashes + [rec.chain];
      keys := keys[rec.key := (rec.request, rec.event.sequence)];
      r := Success(rec.event.sequence);
    }

    // Records an acknowledgement; one for the position already acknowledged writes nothing.
    method Acknowledge(sequence: nat, digest: Octets, fault: SaveFault) returns (r: Result<(), Code>)
      requires Valid()
      modifies this`disk, this`healthy, this`state
      ensures Valid() && log == old(log) && disk.file == old(disk).file
      ensures !old(healthy) ==> r == Failure(WalReopenRequired) && disk == old(disk) && Mem() == old(Mem()) && !healthy
      ensures old(healthy) ==>
        match Acknowledged(old(Mem()), sequence, digest)
        case Failure(code) => r == Failure(code) && disk == old(disk) && Mem() == old(Mem()) && healthy
        case Success(a) =>
          if sequence == old(state).ack || fault == SaveDone then
            && r == Success(()) && healthy
            && Mem() == old(Mem()).(state := a) && disk == old(disk).(anchor := a)
          else
            && r == Failure(WalIoFailure) && !healthy
            && disk == old(disk).(anchor := SavedAnchor(old(state), a, fault))
    {
      hide Frames, LogOk, Broken, Intact, StreamOk, CodecOk, Anchors, Image, Frame;
      if !healthy {
        return Failure(WalReopenRequired);
      }
      RemembersAnchors(st, Mem(), log);
      if !(state.ack <= sequence <= state.tail) {
        return Failure(SenderRollback);
      }
      if hashes[sequence] != digest {
        return Failure(SplitLog);
      }
      if sequence == state.ack {
        assert state.(ack := sequence, ackHash := digest) == state;
        return Success(());
      }
      HashRemembered(st, Mem(), log, sequence);
      state := state.(ack := sequence, ackHash := digest);
      RemembersAnchors(st, Mem(), log);
      IntactAnchored(st, cd, disk, log, state);
      r := Save(fault);
    }

    // Accepts a receiver's greeting and adopts its committed head as the acknowledged position.
    method Bind(g: Greeting, fault: SaveFault, ackFault: SaveFault) returns (r: Result<(), Code>)
      requires Valid()
      modifies this`disk, this`healthy, this`state
      ensures Valid() && log == old(log) && disk.file == old(disk).file
      ensures !old(healthy) ==> r == Failure(WalReopenRequired) && disk == old(disk) && Mem() == old(Mem()) && !healthy
      ensures old(healthy) ==>
        match Bound(old(Mem()), g)
        case Failure(code) => r == Failure(code) && disk == old(disk) && Mem() == old(Mem()) && healthy
        case Success(a) =>
          var a' := a.(ack := g.committed, ackHash := g.chain);
          if fault == SaveDone && (ackFault == SaveDone || g.committed == old(state).ack) then
            && r == Success(()) && healthy && Mem() == old(Mem()).(state := a') && disk == old(disk).(anchor := a')
          else
            && r == Failure(WalIoFailure) && !healthy
            && disk == old(disk).(anchor :=
                 if fault != SaveDone then SavedAnchor(old(state), a, fault) else SavedAnchor(a, a', ackFault))
    {
      hide Frames, LogOk, Broken, Intact, StreamOk, CodecOk, Anchors, Image, Frame;
      if !healthy {
        return Failure(WalReopenRequired);
      }
      RemembersAnchors(st, Mem(), log);
      if !(|g.receiver| == 16 && |g.incarnation| == 16) {
        return Failure(InvalidHandshake);
      }
      if state.peer.Some? {
        if state.peer.value.receiver != g.receiver {
          return Failure(ReceiverIdChanged);
        }
        if state.peer.value.incarnation != g.incarnation {
          return Failure(ReceiverIncarnationChanged);
        }
      }
      if !g.sameContract {
        return Failure(ContractBindingChanged);
      }
      if !g.checkpointOnly {
        return Failure(SemanticContractMismatch);
      }
      if !(g.committed <= state.tail) {
        return Failure(SenderRollback);
      }
      if !(g.committed >= state.ack) {
        return Failure(ReceiverRollback);
      }
      if hashes[g.committed] != g.chain {
        return Failure(SplitLog);
      }
      state := state.(peer := Some(Peer(g.receiver, g.incarnation)), bound := true);
      RemembersAnchors(st, Mem(), log);
      IntactAnchored(st, cd, disk, log, state);
      r := Save(fault);
      if r.Success? {
        r := Acknowledge(g.committed, g.chain, ackFault);
      }
    }

    method IncreaseCap(cap: nat, fault: SaveFault) returns (r: Result<(), Code>)
      requires Valid()
      modifies this`disk, this`healthy, this`state
      ensures Valid() && log == old(log) && disk.file == old(disk).file
      ensures r == if !old(healthy) then Failure(WalReopenRequired)
                   else if cap <= old(state).cap then Failure(InvalidCapIncrease)
                   else if fault == SaveDone then Success(()) else Failure(WalIoFailure)
      ensures r.Success? ==> healthy && state == old(state).(cap := cap) && disk == old(disk).(anchor := state)
      ensures r.Failure? && r.error != WalIoFailure ==>
        disk == old(disk) && state == old(state) && healthy == old(healthy)
      ensures r.Failure? && r.error == WalIoFailure ==>
        !healthy && disk == old(disk).(anchor := SavedAnchor(old(state), old(state).(cap := cap), fault))
    {
      hide Frames, LogOk, Broken, Intact, StreamOk, CodecOk, Anchors, Image, Frame;
      if !healthy {
        return Failure(WalReopenRequired);
      }
      if cap <= state.cap {
        return Failure(InvalidCapIncrease);
      }
      state := state.(cap := cap);
      RemembersAnchors(st, Mem(), log);
      IntactAnchored(st, cd, disk, log, state);
      r := Save(fault);
    }
  }

  // Reopening succeeds exactly when no broken record ends the file.
  lemma RecoverIs(st: Stream, cd: Codec, disk: Disk, log: seq<Record>, torn: Octets, stable: nat)
    requires StreamOk(st) && CodecOk(st, cd) && Intact(st, cd, disk, log, torn, stable)
    ensures torn == [] ==>
      && Recovered(st, cd, disk).Some? && Remembers(st, Recovered(st, cd, disk).value, log)
      && ReadAll(st, cd, disk.file, 0, EmptyMirror(st)).Some?
    ensures torn != [] ==> ReadAll(st, cd, disk.file, 0, EmptyMirror(st)) == None
  {
    if torn == [] {
      assert disk.file == Frames(st, cd, log);
      RecoverComplete(st, cd, disk, log);
    } else {
      var raw: Octets :| 0 < |raw| <= MAX_RECORD && torn < Frame(st, raw);
      ReadBroken(st, cd, log, raw, torn);
    }
  }

  lemma AdmittedFits(st: Stream, cd: Codec, m: Memory, log: seq<Record>, length: nat,
      key: Octets, time: int, boundary: int, relay: Octets)
    requires StreamOk(st) && CodecOk(st, cd) && LogOk(st, cd, log) && Remembers(st, m, log)
    requires m.hashes != [] && Admit(st, cd, m, length, key, time, boundary, relay).Append?
    ensures var r := Admit(st, cd, m, length, key, time, boundary, relay).record;
      && LogOk(st, cd, log + [r]) && 0 < |cd.text(r)| <= MAX_RECORD
      && r.event.sequence >= 0 && Remembers(st, MemoryAfter(m, r, boundary), log + [r])
  {
    hide Admit, Remembers, Image, Continues, MemoryAfter;
    AdmitContinues(st, cd, m, log, length, key, time, boundary, relay);
    var r := Admit(st, cd, m, length, key, time, boundary, relay).record;
    assert (log + [r])[|log|] == r;
    assert Readable(cd, (log + [r])[|log|]);
  }

  lemma HashRemembered(st: Stream, m: Memory, log: seq<Record>, n: nat)
    requires Remembers(st, m, log) && n <= |log|
    ensures |m.hashes| == |log| + 1 && m.hashes[n] == ChainOf(st, Events(log)[..n])
  {
    ImageMirrors(st, log);
  }
}
