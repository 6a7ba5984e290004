// The sender's log file: length- and hash-framed records, and what reading a file back yields.
module WalFile {
  import opened Arithmetic
  import opened Wrappers
  import opened Bytes
  import opened Stream

  // One admitted checkpoint: caller key, fingerprint of the caller's request, event and chain hash.
  datatype Record = Record(key: Octets, request: Octets, event: Event, chain: Octets)

  // JSON and protobuf text are parameters: `text` writes a record, `parse` reads one back.
  datatype Codec = Codec(
    text: Record -> Octets,
    parse: Octets -> Option<Record>,
    payloadOf: int -> Octets,
    requestOf: (int, int) -> Octets)

  const MAX_RECORD: nat := 16384

  // "DRP1"
  const MAGIC: Octets := [68, 82, 80, 49]

  // A record that the reader accepts and reads back as written.
  predicate Readable(cd: Codec, r: Record) {
    0 < |cd.text(r)| <= MAX_RECORD && cd.parse(cd.text(r)) == Some(r)
  }

  function Header(n: nat): (h: Octets)
    ensures |h| == 8
  {
    MAGIC + BigEndian(4, n)
  }

  function Frame(st: Stream, raw: Octets): Octets {
    Header(|raw|) + raw + st.hash(Header(|raw|) + raw)
  }

  function Frames(st: Stream, cd: Codec, log: seq<Record>): Octets {
    if log == [] then [] else Frames(st, cd, log[..|log| - 1]) + Frame(st, cd.text(log[|log| - 1]))
  }

  // ------------------------------------------------------------------ reading

  datatype Read = EndOfFile | Corrupt | Found(raw: Octets, next: nat)

  // Up to n octets from position `at`, fewer at the end of the file.
  function Take(file: Octets, at: nat, n: nat): Octets {
    if at >= |file| then [] else if at + n <= |file| then file[at..at + n] else file[at..]
  }

  function ReadFrame(st: Stream, file: Octets, at: nat): (r: Read)
    ensures r.Found? ==> at < r.next <= |file|
  {
    var header := Take(file, at, 8);
    if header == [] then EndOfFile
    else if |header| != 8 || header[..4] != MAGIC then Corrupt
    else
      var n := FromBigEndian(header[4..]);
      if !(0 < n <= MAX_RECORD) then Corrupt
      else
        var raw := Take(file, at + 8, n);
        var digest := Take(file, at + 8 + |raw|, 32);
        if |raw| != n || st.hash(header + raw) != digest then Corrupt
        else Found(raw, at + 8 + n + |digest|)
  }

  // Volatile image of a log: what the sender keeps in memory beside the file.
  datatype Mirror = Mirror(
    events: seq<Event>,
    hashes: seq<Octets>,
    keys: map<Octets, (Octets, int)>,
    lastTime: int,
    floor: int)

  function EmptyMirror(st: Stream): Mirror {
    Mirror([], [st.genesis], map[], 0, -1)
  }

  // The event's times continue a log with the given last time and floor.
  predicate InOrder(st: Stream, e: Event, lastTime: int, floor: int)
    requires Valid(st, e)
  {
    e.time >= lastTime && e.time > floor && Boundary(st, e) >= floor
  }

  // The record continues the log.
  predicate Continues(st: Stream, m: Mirror, r: Record) {
    && m.hashes != []
    && r.event.sequence == |m.events| + 1
    && r.key !in m.keys
    && Valid(st, r.event)
    && InOrder(st, r.event, m.lastTime, m.floor)
    && st.link(m.hashes[|m.hashes| - 1], r.event) == r.chain
  }

  function Extended(st: Stream, m: Mirror, r: Record): Mirror
    requires Valid(st, r.event)
  {
    Mirror(m.events + [r.event], m.hashes + [r.chain], m.keys[r.key := (r.request, r.event.sequence)],
      r.event.time, Boundary(st, r.event))
  }

  function Extend(st: Stream, m: Mirror, r: Record): Option<Mirror> {
    if Continues(st, m, r) then Some(Extended(st, m, r)) else None
  }

  // Image after one more raw record; None is corruption.
  function Advance(st: Stream, cd: Codec, m: Mirror, raw: Octets): Option<Mirror> {
    match cd.parse(raw)
    case None => None
    case Some(r) => Extend(st, m, r)
  }

  // Reads the whole file from `at`; None is corruption.
  function ReadAll(st: Stream, cd: Codec, file: Octets, at: nat, m: Mirror): Option<Mirror>
    decreases |file| - at
  {
    match ReadFrame(st, file, at)
    case EndOfFile => Some(m)
    case Corrupt => None
    case Found(raw, next) =>
      match Advance(st, cd, m, raw)
      case None => None
      case Some(m') => ReadAll(st, cd, file, next, m')
  }

  // ------------------------------------------------------------------ logs

  // Image of a log, defined exactly for the logs the sender can build.
  function Image(st: Stream, log: seq<Record>): Option<Mirror> {
    if log == [] then Some(EmptyMirror(st))
    else match Image(st, log[..|log| - 1])
      case None => None
      case Some(m) => Extend(st, m, log[|log| - 1])
  }

  ghost predicate LogOk(st: Stream, cd: Codec, log: seq<Record>) {
    Image(st, log).Some? && forall i :: 0 <= i < |log| ==> Readable(cd, log[i])
  }

  function Events(log: seq<Record>): (es: seq<Event>)
    ensures |es| == |log|
    ensures forall i :: 0 <= i < |log| ==> es[i] == log[i].event
  {
    seq(|log|, i requires 0 <= i < |log| => log[i].event)
  }

  lemma {:induction false} ImagePrefix(st: Stream, log: seq<Record>, i: nat)
    requires Image(st, log).Some? && i <= |log|
    ensures Image(st, log[..i]).Some?
  {
    if i < |log| {
      ImagePrefix(st, log[..|log| - 1], i);
      assert log[..|log| - 1][..i] == log[..i];
    } else {
      assert log[..i] == log;
    }
  }

  // hashes[i] is the chain hash of the first i events.
  ghost predicate Chained(st: Stream, events: seq<Event>, hashes: seq<Octets>) {
    && AllValid(st, events)
    && |hashes| == |events| + 1
    && forall i :: 0 <= i <= |events| ==> hashes[i] == ChainOf(st, events[..i])
  }

  ghost predicate Numbered(events: seq<Event>) {
    forall i :: 0 <= i < |events| ==> events[i].sequence == i + 1
  }

  // keys maps exactly the callers' keys of the log to their requests and sequences.
  ghost predicate Keyed(log: seq<Record>, keys: map<Octets, (Octets, int)>) {
    && (forall i :: 0 <= i < |log| ==> log[i].key in keys && keys[log[i].key] == (log[i].request, i + 1))
    && (forall k :: k in keys ==> exists i :: 0 <= i < |log| && log[i].key == k)
  }

  ghost predicate Timed(st: Stream, events: seq<Event>, lastTime: int, floor: int)
    requires AllValid(st, events)
  {
    if events == [] then lastTime == 0 && floor == -1
    else lastTime == events[|events| - 1].time && floor == Boundary(st, events[|events| - 1])
  }

  // What the image of a log is.
  ghost predicate Mirrors(st: Stream, m: Mirror, log: seq<Record>) {
    && m.events == Events(log)
    && Chained(st, m.events, m.hashes)
    && Numbered(m.events)
    && Keyed(log, m.keys)
    && Timed(st, m.events, m.lastTime, m.floor)
    && (forall i :: 0 <= i < |log| ==> log[i].chain == m.hashes[i + 1])
  }

  lemma EmptyMirrors(st: Stream)
    ensures Mirrors(st, EmptyMirror(st), [])
  {
  }

  lemma {:induction false} ImageMirrors(st: Stream, log: seq<Record>)
    requires Image(st, log).Some?
    ensures Mirrors(st, Image(st, log).value, log)
  {
    hide Mirrors, Continues, Extended, EmptyMirror;
    if log == [] {
      EmptyMirrors(st);
    } else {
      var log0, r := log[..|log| - 1], log[|log| - 1];
      ImageMirrors(st, log0);
      assert log == log0 + [r];
      ExtendMirrors(st, Image(st, log0).value, log0, r);
    }
  }

  lemma ExtendMirrors(st: Stream, m0: Mirror, log0: seq<Record>, r: Record)
    requires Mirrors(st, m0, log0) && Continues(st, m0, r)
    ensures Mirrors(st, Extended(st, m0, r), log0 + [r])
  {
    hide ChainOf, InOrder, Chained, Keyed;
    var m, log := Extended(st, m0, r), log0 + [r];
    assert m.events == Events(log) by {
      assert m0.events == Events(log0);
    }
    ExtendChained(st, m0.events, m0.hashes, r.event);
    ExtendKeyed(log0, m0.keys, r);
    ExtendHashes(m0.hashes, log0, r);
  }

  lemma ExtendHashes(hashes: seq<Octets>, log: seq<Record>, r: Record)
    requires |hashes| == |log| + 1 && forall i :: 0 <= i < |log| ==> log[i].chain == hashes[i + 1]
    ensures forall i :: 0 <= i < |log + [r]| ==> (log + [r])[i].chain == (hashes + [r.chain])[i + 1]
  {
  }

  lemma ExtendChained(st: Stream, events: seq<Event>, hashes: seq<Octets>, e: Event)
    requires Chained(st, events, hashes) && Valid(st, e)
    ensures Chained(st, events + [e], hashes + [st.link(hashes[|events|], e)])
  {
    var es, hs := events + [e], hashes + [st.link(hashes[|events|], e)];
    forall i | 0 <= i <= |es|
      ensures hs[i] == ChainOf(st, es[..i])
    {
      if i <= |events| {
        assert es[..i] == events[..i];
      } else {
        assert es[..i] == es && es[..|es| - 1] == events == events[..|events|];
      }
    }
  }

  lemma ExtendKeyed(log: seq<Record>, keys: map<Octets, (Octets, int)>, r: Record)
    requires Keyed(log, keys) && r.key !in keys
    ensures Keyed(log + [r], keys[r.key := (r.request, |log| + 1)])
  {
    var log', keys' := log + [r], keys[r.key := (r.request, |log| + 1)];
    forall k | k in keys'
      ensures exists i :: 0 <= i < |log'| && log'[i].key == k
    {
      if k == r.key {
        assert log'[|log|].key == k;
      } else {
        var i :| 0 <= i < |log| && log[i].key == k;
        assert log'[i].key == k;
      }
    }
  }

  // ------------------------------------------------------------------ reading back what was written

  lemma {:induction false} FramesPrefix(st: Stream, cd: Codec, log: seq<Record>, i: nat)
    requires i <= |log|
    ensures Frames(st, cd, log[..i]) <= Frames(st, cd, log)
  {
    if i < |log| {
      FramesPrefix(st, cd, log[..|log| - 1], i);
      assert log[..|log| - 1][..i] == log[..i];
    } else {
      assert log[..i] == log;
    }
  }

  lemma FitsRecord()
    ensures Fits(4, MAX_RECORD)
  {
    assert Fits(1, 64) && Fits(2, 16384);
    FitsWider(2, 4, 16384);
  }

  lemma FrameParts(st: Stream, raw: Octets)
    requires StreamOk(st) && 0 < |raw| <= MAX_RECORD
    ensures |Frame(st, raw)| == 40 + |raw|
    ensures Frame(st, raw)[..8] == Header(|raw|) && Frame(st, raw)[8..8 + |raw|] == raw
    ensures Frame(st, raw)[8 + |raw|..] == st.hash(Header(|raw|) + raw)
    ensures Header(|raw|)[..4] == MAGIC && FromBigEndian(Header(|raw|)[4..]) == |raw|
  {
    FitsRecord();
    FitsSmaller(4, MAX_RECORD, |raw|);
    BigEndianInverse(4, |raw|);
    assert Header(|raw|)[4..] == BigEndian(4, |raw|);
  }

  lemma TakePart(file: Octets, at: nat, f: Octets, i: nat, n: nat)
    requires at <= |file| && f <= file[at..] && i + n <= |f| && n > 0
    ensures Take(file, at + i, n) == f[i..i + n]
  {
    assert forall k :: 0 <= k < |f| ==> file[at + k] == file[at..][k] == f[k];
  }

  lemma FoundFrame(st: Stream, file: Octets, at: nat, raw: Octets)
    requires StreamOk(st) && 0 < |raw| <= MAX_RECORD
    requires Take(file, at, 8) == Header(|raw|) && Take(file, at + 8, |raw|) == raw
    requires Take(file, at + 8 + |raw|, 32) == st.hash(Header(|raw|) + raw)
    requires Header(|raw|)[..4] == MAGIC && FromBigEndian(Header(|raw|)[4..]) == |raw|
    ensures ReadFrame(st, file, at) == Found(raw, at + 40 + |raw|)
  {
  }

  // A complete frame in the file is found.
  lemma ReadWritten(st: Stream, file: Octets, at: nat, raw: Octets)
    requires StreamOk(st) && 0 < |raw| <= MAX_RECORD
    requires at <= |file| && Frame(st, raw) <= file[at..]
    ensures ReadFrame(st, file, at) == Found(raw, at + |Frame(st, raw)|)
  {
    FrameParts(st, raw);
    var f := Frame(st, raw);
    TakePart(file, at, f, 0, 8);
    TakePart(file, at, f, 8, |raw|);
    TakePart(file, at, f, 8 + |raw|, 32);
    FoundFrame(st, file, at, raw);
  }

  // A frame that the file breaks off is corruption.
  lemma ReadTorn(st: Stream, file: Octets, at: nat, raw: Octets)
    requires StreamOk(st) && 0 < |raw| <= MAX_RECORD
    requires at < |file| && file[at..] < Frame(st, raw)
    ensures ReadFrame(st, file, at) == Corrupt
  {
    FrameParts(st, raw);
    var f := Frame(st, raw);
    var rest := file[at..];
    if |rest| >= 8 {
      assert Take(file, at, 8) == rest[..8] == f[..8];
    }
  }

  lemma FramesSnoc(st: Stream, cd: Codec, log: seq<Record>, i: nat)
    requires i < |log|
    ensures Frames(st, cd, log[..i + 1]) == Frames(st, cd, log[..i]) + Frame(st, cd.text(log[i]))
    ensures Image(st, log[..i]).Some? ==> Image(st, log[..i + 1]) == Extend(st, Image(st, log[..i]).value, log[i])
  {
    assert log[..i + 1][..i] == log[..i] && log[..i + 1][i] == log[i];
  }

  lemma ReadStep(st: Stream, cd: Codec, file: Octets, at: nat, r: Record, m: Mirror)
    requires StreamOk(st) && Readable(cd, r) && Continues(st, m, r)
    requires at <= |file| && Frame(st, cd.text(r)) <= file[at..]
    ensures ReadAll(st, cd, file, at, m)
         == ReadAll(st, cd, file, at + |Frame(st, cd.text(r))|, Extended(st, m, r))
  {
    hide ReadAll, ReadFrame, Frame, InOrder, StreamOk;
    var raw := cd.text(r);
    ReadWritten(st, file, at, raw);
    FoundStep(st, cd, file, at, raw, at + |Frame(st, raw)|, m, Extended(st, m, r));
  }

  lemma FoundStep(st: Stream, cd: Codec, file: Octets, at: nat, raw: Octets, next: nat, m: Mirror, m': Mirror)
    requires ReadFrame(st, file, at) == Found(raw, next) && Advance(st, cd, m, raw) == Some(m')
    ensures ReadAll(st, cd, file, at, m) == ReadAll(st, cd, file, next, m')
  {
  }

  lemma {:induction false} ReadFrames(st: Stream, cd: Codec, file: Octets, log: seq<Record>, i: nat)
    requires StreamOk(st) && LogOk(st, cd, log) && i <= |log|
    requires Frames(st, cd, log) <= file
    ensures Image(st, log[..i]).Some?
    ensures ReadAll(st, cd, file, |Frames(st, cd, log[..i])|, Image(st, log[..i]).value)
         == ReadAll(st, cd, file, |Frames(st, cd, log)|, Image(st, log).value)
    decreases |log| - i
  {
    hide ReadAll, Frame, Continues, StreamOk;
    ImagePrefix(st, log, i);
    if i == |log| {
      assert log[..i] == log;
    } else {
      ReadFrames(st, cd, file, log, i + 1);
      FramesPrefix(st, cd, log, i + 1);
      FramesSnoc(st, cd, log, i);
      var a, b := Frames(st, cd, log[..i]), Frame(st, cd.text(log[i]));
      PrefixAfter(a, b, file);
      assert Readable(cd, log[i]);
      ReadStep(st, cd, file, |a|, log[i], Image(st, log[..i]).value);
    }
  }

  lemma PrefixAfter(a: Octets, b: Octets, file: Octets)
    requires a + b <= file
    ensures b <= file[|a|..]
  {
    assert b == (a + b)[|a|..] == file[..|a| + |b|][|a|..];
  }

  // A file of complete records reads back as the image of the log.
  lemma ReadComplete(st: Stream, cd: Codec, log: seq<Record>)
    requires StreamOk(st) && LogOk(st, cd, log)
    ensures ReadAll(st, cd, Frames(st, cd, log), 0, EmptyMirror(st)) == Image(st, log)
  {
    assert log[..0] == [];
    ReadFrames(st, cd, Frames(st, cd, log), log, 0);
  }

  // A file that breaks off inside a record does not read back at all.
  lemma ReadBroken(st: Stream, cd: Codec, log: seq<Record>, raw: Octets, torn: Octets)
    requires StreamOk(st) && LogOk(st, cd, log) && 0 < |raw| <= MAX_RECORD
    requires torn != [] && torn < Frame(st, raw)
    ensures ReadAll(st, cd, Frames(st, cd, log) + torn, 0, EmptyMirror(st)) == None
  {
    var file := Frames(st, cd, log) + torn;
    assert log[..0] == [];
    ReadFrames(st, cd, file, log, 0);
    assert file[|Frames(st, cd, log)|..] == torn;
    ReadTorn(st, file, |Frames(st, cd, log)|, raw);
  }

  // Cutting a file anywhere leaves complete records and, at most, a broken one.
  lemma {:induction false} CutFrames(st: Stream, cd: Codec, log: seq<Record>, k: nat) returns (j: nat, torn: Octets)
    requires k <= |Frames(st, cd, log)|
    ensures j <= |log| && Frames(st, cd, log)[..k] == Frames(st, cd, log[..j]) + torn
    ensures torn != [] ==> j < |log| && torn < Frame(st, cd.text(log[j]))
    ensures j == |log| <==> k == |Frames(st, cd, log)|
  {
    if k == |Frames(st, cd, log)| {
      j, torn := |log|, [];
      assert log[..j] == log;
    } else {
      var log0 := log[..|log| - 1];
      var whole, rest := Frames(st, cd, log0), Frame(st, cd.text(log[|log| - 1]));
      if k < |whole| {
        j, torn := CutFrames(st, cd, log0, k);
        assert log0[..j] == log[..j];
        assert (whole + rest)[..k] == whole[..k];
      } else {
        j, torn := |log0|, rest[..k - |whole|];
        assert (whole + rest)[..k] == whole + torn;
      }
    }
  }
}
