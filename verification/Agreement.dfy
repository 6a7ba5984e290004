// A handshake that succeeds proves that sender and receiver hold the same events.
module Agreement {
  import opened Wrappers
  import opened Bytes
  import opened Stream
  import opened HashChain
  import opened Wire
  import opened WalFile
  import opened Sender

  // If the sender accepts a greeting whose chain hash is that of some well-formed log, that log is exactly the
  // sender's first `committed` events: same length, same events. Only collisions among the strings hashed along the
  // two logs could break this.
  lemma GreetingAgreement(id: Identity, m: Memory, log: seq<Record>, g: Greeting, received: seq<Event>)
    requires IdentityOk(id) && Remembers(StreamOf(id), m, log) && AllOk(id, received)
    requires Bound(m, g).Success? && g.chain == ChainOf(StreamOf(id), received)
    requires CollisionFree(id.hash,
      Preimages(Hashing(id), Events(log)[..g.committed]) + Preimages(Hashing(id), received))
    ensures g.committed <= |log| && received == Events(log)[..g.committed] && |received| == g.committed
  {
    SenderHash(id, m, log, g);
    HashAgreement(id, Events(log)[..g.committed], received);
  }

  lemma SenderHash(id: Identity, m: Memory, log: seq<Record>, g: Greeting)
    requires Remembers(StreamOf(id), m, log) && Bound(m, g).Success?
    ensures g.committed <= |log| && g.chain == ChainOf(StreamOf(id), Events(log)[..g.committed])
    ensures AllOk(id, Events(log)[..g.committed])
  {
    hide Image, Mirrors, ChainOf, Remembers, Bound, Validate;
    BoundHash(StreamOf(id), m, log, g);
    forall i | 0 <= i < g.committed
      ensures Ok(id, Events(log)[i])
    {
      assert Valid(StreamOf(id), Events(log)[i]);
    }
  }

  lemma BoundHash(st: Stream, m: Memory, log: seq<Record>, g: Greeting)
    requires Remembers(st, m, log) && Bound(m, g).Success?
    ensures g.committed <= |log| && g.chain == ChainOf(st, Events(log)[..g.committed]) && AllValid(st, Events(log))
  {
    hide ChainOf;
    ImageMirrors(st, log);
  }

  // The other direction: a receiver that holds other events at that position is refused, and as a split unless an
  // earlier check refuses it already.
  lemma SplitDetected(id: Identity, m: Memory, log: seq<Record>, g: Greeting, received: seq<Event>)
    requires IdentityOk(id) && Remembers(StreamOf(id), m, log) && AllOk(id, received)
    requires g.committed == |received| <= |log| && received != Events(log)[..g.committed]
    requires g.chain == ChainOf(StreamOf(id), received)
    requires CollisionFree(id.hash,
      Preimages(Hashing(id), Events(log)[..g.committed]) + Preimages(Hashing(id), received))
    ensures Bound(m, g).Failure?
    ensures PeerAccepted(m, g) && g.committed >= m.state.ack ==> Bound(m, g) == Failure(SplitLog)
  {
    hide Remembers, CollisionFree, AllOk;
    RememberedPositions(StreamOf(id), m, log);
    if PeerAccepted(m, g) && g.committed >= m.state.ack {
      BoundWithin(m, g);
    }
    if Bound(m, g).Success? {
      GreetingAgreement(id, m, log, g, received);
    }
  }

  lemma RememberedPositions(st: Stream, m: Memory, log: seq<Record>)
    requires Remembers(st, m, log)
    ensures m.state.tail == |log| && |m.hashes| == |log| + 1
  {
    ImageMirrors(st, log);
  }

  // A position that the sender has, from an accepted peer, is refused only as a split.
  lemma BoundWithin(m: Memory, g: Greeting)
    requires g.committed <= m.state.tail && g.committed < |m.hashes|
    requires PeerAccepted(m, g) && g.committed >= m.state.ack
    ensures Bound(m, g).Success? || Bound(m, g) == Failure(SplitLog)
  {
  }
}
