// The relay's assumptions can be met: a concrete codec, and the program's own stream, satisfy them.
module RelayInstance {
  import opened Wrappers
  import opened Bytes
  import opened Stream
  import opened Wire
  import opened WalFile
  import opened Sender
  import Receiver
  import opened Relay

  const ZEROS: Octets := seq(32, i => 0)
  const ID: Octets := seq(16, i => 1)

  function NonNegative(n: int): nat {
    if n < 0 then 0 else n
  }

  // A record as octets: the key with its length, then fields of fixed width, then the payload.
  function Text(r: Record): Octets {
    BigEndian(4, |r.key|) + (r.key + (r.request + (r.chain + (BigEndian(8, NonNegative(r.event.sequence))
      + (BigEndian(8, NonNegative(r.event.time)) + (r.event.relay + r.event.payload))))))
  }

  function Parse(s: Octets): Option<Record> {
    if |s| < 4 then None
    else
      var n := FromBigEndian(s[..4]);
      if |s| < 4 + n + 96 then None
      else
        var t := s[4 + n..];
        var e := Event(FromBigEndian(t[64..72]), 1, [], FromBigEndian(t[72..80]), t[80..96], t[96..]);
        Some(Record(s[4..4 + n], t[..32], e, t[32..64]))
  }

  function PayloadOf(boundary: int): Octets {
    if boundary >= 0 && Fits(8, boundary) then BigEndian(8, boundary) else []
  }

  function BoundaryIn(payload: Octets): Option<int> {
    if |payload| == 8 then Some(FromBigEndian(payload)) else None
  }

  function Example(): Config {
    var id := Identity(s => ZEROS, BoundaryIn, ID, ID);
    Config(StreamOf(id), Codec(Text, Parse, PayloadOf, (time, boundary) => ZEROS), Peer(ID, ID))
  }

  lemma Parts(a: Octets, b: Octets)
    ensures (a + b)[..|a|] == a && (a + b)[|a|..] == b
  {
  }

  lemma TextReadsBack(r: Record)
    requires InBounds(r.event) && 0 < |r.key| <= 128 && |r.request| == 32 && |r.chain| == 32
    ensures 0 < |Text(r)| <= MAX_RECORD && Parse(Text(r)) == Some(r)
  {
    hide BigEndian, FromBigEndian, Fits;
    FitsMaxSequence();
    FitsSmaller(8, MAX_SEQUENCE, r.event.sequence);
    FitsSmaller(8, MAX_SEQUENCE, r.event.time);
    FitsSmaller(4, 65536, |r.key|);
    BigEndianInverse(4, |r.key|);
    BigEndianInverse(8, r.event.sequence);
    BigEndianInverse(8, r.event.time);
    var tail := r.event.relay + r.event.payload;
    var times := BigEndian(8, r.event.time) + tail;
    var numbers := BigEndian(8, r.event.sequence) + times;
    var chained := r.chain + numbers;
    var fixed := r.request + chained;
    Parts(BigEndian(4, |r.key|), r.key + fixed);
    Parts(r.key, fixed);
    Parts(r.request, chained);
    Parts(r.chain, numbers);
    Parts(BigEndian(8, r.event.sequence), times);
    Parts(BigEndian(8, r.event.time), tail);
    Parts(r.event.relay, r.event.payload);
    var s := Text(r);
    var n := |r.key|;
    assert s == BigEndian(4, n) + (r.key + fixed);
    assert s[4..4 + n] == r.key && s[4 + n..] == fixed;
    assert fixed[32..64] == r.chain && fixed[64..] == numbers;
    assert fixed[64..72] == BigEndian(8, r.event.sequence) && fixed[72..80] == BigEndian(8, r.event.time);
    assert fixed[80..96] == r.event.relay && fixed[96..] == r.event.payload;
  }

  lemma BoundaryReadsBack(c: Config, n: int, t: int, b: int, u: Octets)
    requires c == Example() && Valid(c.st, Checkpoint(c.cd, n, t, b, u))
    ensures Boundary(c.st, Checkpoint(c.cd, n, t, b, u)) == b
  {
    hide BigEndian, FromBigEndian, Fits;
    if b >= 0 && Fits(8, b) {
      BigEndianInverse(8, b);
    }
  }

  lemma ExampleOk()
    ensures ConfigOk(Example())
    ensures exists s: State :: Init(Example(), s)
  {
    var c := Example();
    StreamOfOk(Identity(s => ZEROS, BoundaryIn, ID, ID));
    assert StreamOk(c.st);
    forall r: Record | WellSized(c.st, r)
      ensures Readable(c.cd, r)
    {
      TextReadsBack(r);
    }
    forall n: int, t: int, b: int, u: Octets | Valid(c.st, Checkpoint(c.cd, n, t, b, u))
      ensures Boundary(c.st, Checkpoint(c.cd, n, t, b, u)) == b
    {
      BoundaryReadsBack(c, n, t, b, u);
    }
    var s := State(Disk([], 0, InitialAnchor(c.st, 0)), Down, Receiver.EmptyTables(c.st), map[], map[],
                   History([], [], 0, map[]));
    assert Init(c, s);
  }
}
