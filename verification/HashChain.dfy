// Equal chain hashes mean equal logs: the argument, independent of how events are laid out as octets.
module HashChain {
  import opened Bytes
  import opened Stream

  // Which strings are hashed: `start` before any event, `step` for an event after a chain hash, and `payload` for
  // an event's payload, whose hash is part of `step`. `ok` selects the events that can be chained.
  datatype Scheme = Scheme(
    hash: Octets -> Octets,
    start: Octets,
    step: (Octets, Event) -> Octets,
    payload: Octets -> Octets,
    ok: Event -> bool)

  // What equal `step` strings must agree on.
  ghost predicate StepSeparates(h: Scheme, p: Octets, e: Event, q: Octets, f: Event) {
    |p| == 32 && |q| == 32 && h.ok(e) && h.ok(f) && h.step(p, e) == h.step(q, f) ==>
      && p == q
      && e.(payload := []) == f.(payload := [])
      && h.hash(h.payload(e.payload)) == h.hash(h.payload(f.payload))
  }

  ghost predicate PayloadSeparates(h: Scheme, a: Octets, b: Octets) {
    h.payload(a) == h.payload(b) ==> a == b
  }

  // The hashed strings can be taken apart again.
  ghost predicate Separates(h: Scheme) {
    && (forall s: Octets :: |h.hash(s)| == 32)
    && (forall p: Octets, e: Event :: h.ok(e) ==> h.step(p, e) != h.start)
    && (forall p: Octets, e: Event, q: Octets, f: Event {:trigger StepSeparates(h, p, e, q, f)} ::
          StepSeparates(h, p, e, q, f))
    && (forall a: Octets, b: Octets {:trigger PayloadSeparates(h, a, b)} :: PayloadSeparates(h, a, b))
  }

  function LogHash(h: Scheme, es: seq<Event>): Octets {
    if es == [] then h.hash(h.start) else h.hash(h.step(LogHash(h, es[..|es| - 1]), es[|es| - 1]))
  }

  predicate AllChained(h: Scheme, es: seq<Event>) {
    forall i :: 0 <= i < |es| ==> h.ok(es[i])
  }

  // Every string that is hashed to build the chain of a log.
  ghost function Preimages(h: Scheme, es: seq<Event>): set<Octets> {
    if es == [] then {h.start}
    else
      var es0, e := es[..|es| - 1], es[|es| - 1];
      Preimages(h, es0) + {h.payload(e.payload), h.step(LogHash(h, es0), e)}
  }

  ghost predicate NoCollision(hash: Octets -> Octets, a: Octets, b: Octets) {
    hash(a) == hash(b) ==> a == b
  }

  // No two different strings in s have one hash.
  ghost predicate CollisionFree(hash: Octets -> Octets, s: set<Octets>) {
    forall a, b {:trigger NoCollision(hash, a, b)} :: a in s && b in s ==> NoCollision(hash, a, b)
  }

  lemma {:induction false} StartInPreimages(h: Scheme, es: seq<Event>)
    ensures h.start in Preimages(h, es)
  {
    if es != [] {
      StartInPreimages(h, es[..|es| - 1]);
    }
  }

  lemma StartDiffers(h: Scheme, es: seq<Event>, s: set<Octets>)
    requires Separates(h) && AllChained(h, es) && es != [] && CollisionFree(h.hash, s)
    requires h.start in s && Preimages(h, es) <= s
    ensures LogHash(h, es) != h.hash(h.start)
  {
    var last := h.step(LogHash(h, es[..|es| - 1]), es[|es| - 1]);
    assert last in Preimages(h, es);
    assert NoCollision(h.hash, last, h.start);
  }

  lemma LastAgrees(h: Scheme, es: seq<Event>, fs: seq<Event>, s: set<Octets>)
    requires Separates(h) && AllChained(h, es) && AllChained(h, fs) && CollisionFree(h.hash, s)
    requires es != [] && fs != [] && Preimages(h, es) <= s && Preimages(h, fs) <= s
    requires LogHash(h, es) == LogHash(h, fs)
    ensures es[|es| - 1] == fs[|fs| - 1] && LogHash(h, es[..|es| - 1]) == LogHash(h, fs[..|fs| - 1])
  {
    var p, e, q, f := LogHash(h, es[..|es| - 1]), es[|es| - 1], LogHash(h, fs[..|fs| - 1]), fs[|fs| - 1];
    assert h.step(p, e) in Preimages(h, es) && h.payload(e.payload) in Preimages(h, es);
    assert h.step(q, f) in Preimages(h, fs) && h.payload(f.payload) in Preimages(h, fs);
    assert NoCollision(h.hash, h.step(p, e), h.step(q, f));
    assert StepSeparates(h, p, e, q, f);
    assert NoCollision(h.hash, h.payload(e.payload), h.payload(f.payload));
    assert PayloadSeparates(h, e.payload, f.payload);
  }

  lemma {:induction false} AgreementWithin(h: Scheme, es: seq<Event>, fs: seq<Event>, s: set<Octets>)
    requires Separates(h) && AllChained(h, es) && AllChained(h, fs) && CollisionFree(h.hash, s)
    requires h.start in s && Preimages(h, es) <= s && Preimages(h, fs) <= s
    requires LogHash(h, es) == LogHash(h, fs)
    ensures es == fs
    decreases |es|
  {
    if es != [] {
      StartDiffers(h, es, s);
    }
    if fs != [] {
      StartDiffers(h, fs, s);
    }
    if es != [] && fs != [] {
      LastAgrees(h, es, fs, s);
      AgreementWithin(h, es[..|es| - 1], fs[..|fs| - 1], s);
      assert es == es[..|es| - 1] + [es[|es| - 1]] && fs == fs[..|fs| - 1] + [fs[|fs| - 1]];
    }
  }

  lemma LogsAgree(h: Scheme, es: seq<Event>, fs: seq<Event>)
    requires Separates(h) && AllChained(h, es) && AllChained(h, fs)
    requires CollisionFree(h.hash, Preimages(h, es) + Preimages(h, fs))
    requires LogHash(h, es) == LogHash(h, fs)
    ensures es == fs
  {
    StartInPreimages(h, es);
    AgreementWithin(h, es, fs, Preimages(h, es) + Preimages(h, fs));
  }
}
