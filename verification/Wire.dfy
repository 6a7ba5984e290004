// Events of the relay protocol, their validation, and the hash chain over them.
//
// SHA-256 is a parameter `hash`; nothing about it is assumed except where a lemma requires that no two different
// strings from a named finite set collide. Protobuf payload bytes are read through the parameter `boundaryOf`.
module Wire {
  import opened Wrappers
  import opened Bytes
  import opened HashChain
  import opened Stream

  // SHA-256, the reader of payload messages, and the stream's identity.
  datatype Identity = Identity(
    hash: Octets -> Octets,
    boundaryOf: Octets -> Option<int>,
    sender: Octets,
    epoch: Octets)

  ghost predicate IdentityOk(id: Identity) {
    && |id.sender| == 16
    && |id.epoch| == 16
    && forall s: Octets :: |id.hash(s)| == 32
  }

  // Checks an event in isolation; the result is the completeness boundary in its payload.
  function Validate(id: Identity, e: Event): Result<int, Code> {
    if !(1 <= e.sequence <= MAX_SEQUENCE) then Failure(SequenceOutOfRange)
    else if e.eventType < 0 || e.eventType > 65535 then Failure(EventTypeOutOfRange)
    else if e.eventType != 1 then Failure(UnadvertisedEventType)
    else if e.scope != [] then Failure(InvalidEventPlacement)
    else if |e.payload| > MAX_PAYLOAD then Failure(EventTooLarge)
    else if !(|e.relay| == 16 && NonZero(e.relay)) then Failure(MalformedFrame)
    else if !(0 <= e.time <= MAX_TIME) then Failure(MalformedFrame)
    else match id.boundaryOf(e.payload)
      case None => Failure(SemanticPayloadInvalid)
      case Some(b) => if 0 <= b <= e.time then Success(b) else Failure(SemanticPayloadInvalid)
  }

  // "CoreDRP1-GENESIS", "CoreDRP1-EVENT" and "CoreDRP1-PAYLOAD" in ASCII.
  const GENESIS_TAG: Octets := [67, 111, 114, 101, 68, 82, 80, 49, 45, 71, 69, 78, 69, 83, 73, 83]
  const EVENT_TAG: Octets := [67, 111, 114, 101, 68, 82, 80, 49, 45, 69, 86, 69, 78, 84]
  const PAYLOAD_TAG: Octets := [67, 111, 114, 101, 68, 82, 80, 49, 45, 80, 65, 89, 76, 79, 65, 68]

  predicate Ok(id: Identity, e: Event) {
    Validate(id, e).Success?
  }

  predicate AllOk(id: Identity, es: seq<Event>) {
    forall i :: 0 <= i < |es| ==> Ok(id, es[i])
  }

  function GenesisPreimage(id: Identity): Octets {
    GENESIS_TAG + id.sender + id.epoch + [0]
  }

  function Genesis(id: Identity): Octets {
    id.hash(GenesisPreimage(id))
  }

  function PayloadPreimage(p: Octets): Octets {
    PAYLOAD_TAG + BigEndian(4, |p|) + p
  }

  function ChainPreimage(id: Identity, previous: Octets, e: Event): Octets
    requires e.sequence >= 0 && e.eventType >= 0 && e.time >= 0
  {
    EVENT_TAG + (previous + (id.sender + (id.epoch + ([0] + (BigEndian(8, e.sequence) + (BigEndian(2, e.eventType)
      + (e.relay + (BigEndian(2, |e.scope|) + (e.scope + (BigEndian(8, e.time)
      + id.hash(PayloadPreimage(e.payload))))))))))))
  }

  function Chain(id: Identity, previous: Octets, e: Event): Octets
    requires Ok(id, e)
  {
    id.hash(ChainPreimage(id, previous, e))
  }

  // The program's stream, as the relay sees it. The chain is only ever extended by validated events.
  function StreamOf(id: Identity): Stream {
    Stream(
      e => Validate(id, e),
      (previous, e) => if Validate(id, e).Success? then Chain(id, previous, e) else Genesis(id),
      Genesis(id),
      id.hash)
  }

  lemma StreamOfOk(id: Identity)
    requires IdentityOk(id)
    ensures StreamOk(StreamOf(id))
  {
  }

  // ------------------------------------------------------------------ what the hashed strings determine

  lemma ValidFits(id: Identity, e: Event)
    requires Ok(id, e)
    ensures Fits(8, e.sequence) && Fits(2, e.eventType) && Fits(2, |e.scope|) && Fits(8, e.time) && Fits(4, |e.payload|)
  {
    FitsMaxSequence();
    FitsSmaller(8, MAX_SEQUENCE, e.sequence);
    FitsSmaller(8, MAX_SEQUENCE, e.time);
    FitsSmaller(4, 65536, |e.payload|);
  }

  lemma FitsMaxSequence()
    ensures Fits(8, MAX_SEQUENCE) && Fits(4, 65536)
  {
    assert Fits(1, 127) && Fits(2, 0x7fff) && Fits(3, 0x7f_ffff) && Fits(4, 0x7fff_ffff);
    assert Fits(5, 0x7f_ffff_ffff) && Fits(6, 0x7fff_ffff_ffff);
    assert Fits(7, 0x7f_ffff_ffff_ffff);
    assert Fits(2, 1) && Fits(3, 256);
  }

  // The event preimage determines the previous hash and every field but the payload, and the payload's hash.
  lemma PreimageFields(id: Identity, p: Octets, e: Event, q: Octets, f: Event)
    requires IdentityOk(id) && |p| == 32 && |q| == 32 && Ok(id, e) && Ok(id, f)
    requires ChainPreimage(id, p, e) == ChainPreimage(id, q, f)
    ensures p == q && e.(payload := []) == f.(payload := [])
    ensures id.hash(PayloadPreimage(e.payload)) == id.hash(PayloadPreimage(f.payload))
  {
    ValidFits(id, e);
    ValidFits(id, f);
    var h, g := id.hash(PayloadPreimage(e.payload)), id.hash(PayloadPreimage(f.payload));
    var e1, f1 := BigEndian(8, e.time) + h, BigEndian(8, f.time) + g;
    var e2, f2 := e.scope + e1, f.scope + f1;
    var e3, f3 := BigEndian(2, |e.scope|) + e2, BigEndian(2, |f.scope|) + f2;
    var e4, f4 := e.relay + e3, f.relay + f3;
    var e5, f5 := BigEndian(2, e.eventType) + e4, BigEndian(2, f.eventType) + f4;
    var e6, f6 := BigEndian(8, e.sequence) + e5, BigEndian(8, f.sequence) + f5;
    var e7, f7: Octets := [0] + e6, [0] + f6;
    var e8, f8 := id.epoch + e7, id.epoch + f7;
    var e9, f9 := id.sender + e8, id.sender + f8;
    SplitAt(EVENT_TAG, p + e9, EVENT_TAG, q + f9);
    SplitAt(p, e9, q, f9);
    SplitAt(id.sender, e8, id.sender, f8);
    SplitAt(id.epoch, e7, id.epoch, f7);
    SplitAt([0], e6, [0], f6);
    SplitAt(BigEndian(8, e.sequence), e5, BigEndian(8, f.sequence), f5);
    SplitAt(BigEndian(2, e.eventType), e4, BigEndian(2, f.eventType), f4);
    SplitAt(e.relay, e3, f.relay, f3);
    SplitAt(BigEndian(2, |e.scope|), e2, BigEndian(2, |f.scope|), f2);
    SplitAt(e.scope, e1, f.scope, f1);
    SplitAt(BigEndian(8, e.time), h, BigEndian(8, f.time), g);
    BigEndianInjective(8, e.sequence, f.sequence);
    BigEndianInjective(8, e.time, f.time);
  }

  lemma PayloadFields(p: Octets, q: Octets)
    requires PayloadPreimage(p) == PayloadPreimage(q)
    ensures p == q
  {
    SplitAt(PAYLOAD_TAG + BigEndian(4, |p|), p, PAYLOAD_TAG + BigEndian(4, |q|), q);
  }

  lemma GenesisIsNoEvent(id: Identity, previous: Octets, e: Event)
    requires Ok(id, e)
    ensures GenesisPreimage(id) != ChainPreimage(id, previous, e)
  {
    assert GenesisPreimage(id)[9] == 71;
    assert ChainPreimage(id, previous, e)[9] == 69;
  }

  // The program's hashing of events, for the agreement argument of module HashChain.
  function Hashing(id: Identity): Scheme {
    Scheme(
      id.hash,
      GenesisPreimage(id),
      (previous, e) => if Ok(id, e) then ChainPreimage(id, previous, e) else EVENT_TAG,
      PayloadPreimage,
      e => Ok(id, e))
  }

  lemma HashingSeparates(id: Identity)
    requires IdentityOk(id)
    ensures Separates(Hashing(id))
  {
    var h := Hashing(id);
    forall p: Octets, e: Event | h.ok(e)
      ensures h.step(p, e) != h.start
    {
      GenesisIsNoEvent(id, p, e);
    }
    forall p: Octets, e: Event, q: Octets, f: Event
      ensures StepSeparates(h, p, e, q, f)
    {
      if |p| == 32 && |q| == 32 && h.ok(e) && h.ok(f) && h.step(p, e) == h.step(q, f) {
        PreimageFields(id, p, e, q, f);
      }
    }
    forall a: Octets, b: Octets
      ensures PayloadSeparates(h, a, b)
    {
      if h.payload(a) == h.payload(b) {
        PayloadFields(a, b);
      }
    }
  }

  lemma {:induction false} ChainOfIsLogHash(id: Identity, es: seq<Event>)
    requires AllOk(id, es)
    ensures ChainOf(StreamOf(id), es) == LogHash(Hashing(id), es)
  {
    if es != [] {
      ChainOfIsLogHash(id, es[..|es| - 1]);
    }
  }

  // Two logs with one chain hash are the same log, whatever their lengths, unless two of the strings hashed
  // along them collide.
  lemma HashAgreement(id: Identity, es: seq<Event>, fs: seq<Event>)
    requires IdentityOk(id) && AllOk(id, es) && AllOk(id, fs)
    requires CollisionFree(id.hash, Preimages(Hashing(id), es) + Preimages(Hashing(id), fs))
    requires ChainOf(StreamOf(id), es) == ChainOf(StreamOf(id), fs)
    ensures es == fs
  {
    ChainOfIsLogHash(id, es);
    ChainOfIsLogHash(id, fs);
    HashingSeparates(id);
    LogsAgree(Hashing(id), es, fs);
  }

  // ------------------------------------------------------------------ exactly which events are well formed

  // An event passes exactly when its fields are within bounds, its relay id is not all zero, and its payload holds a
  // boundary between zero and the event's time; the boundary is the result.
  lemma ValidateExactly(id: Identity, e: Event)
    ensures Validate(id, e).Success? <==>
      && 1 <= e.sequence < 0x8000_0000_0000_0000 && e.eventType == 1 && |e.scope| == 0 && |e.payload| <= 4096
      && |e.relay| == 16 && (exists i :: 0 <= i < 16 && e.relay[i] > 0) && 0 <= e.time <= 253402300799999
      && match id.boundaryOf(e.payload) case None => false case Some(b) => 0 <= b && b <= e.time
    ensures Validate(id, e).Success? ==> id.boundaryOf(e.payload) == Some(Validate(id, e).value)
  {
    if |e.relay| == 16 {
      assert NonZero(e.relay) <==> exists i :: 0 <= i < 16 && e.relay[i] > 0;
    }
  }

  // Which code the first violated rule has.
  lemma ValidateRefusals(id: Identity, e: Event)
    ensures var r := Validate(id, e);
      if e.sequence < 1 || e.sequence > MAX_SEQUENCE then r == Failure(SequenceOutOfRange)
      else if e.eventType != 1 then
        r == Failure(if 0 <= e.eventType < 65536 then UnadvertisedEventType else EventTypeOutOfRange)
      else if |e.scope| > 0 then r == Failure(InvalidEventPlacement)
      else if |e.payload| > 4096 then r == Failure(EventTooLarge)
      else if |e.relay| != 16 || (forall i :: 0 <= i < |e.relay| ==> e.relay[i] == 0) || e.time < 0 || e.time > MAX_TIME
      then r == Failure(MalformedFrame)
      else r.Failure? ==> r == Failure(SemanticPayloadInvalid)
  {
  }
}
