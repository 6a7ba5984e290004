// The sender's stop-and-wait loop: which batches it sends, under which credit, and when it ends.
//
// Messages from the receiver are a parameter, in order of arrival; running out of them is a lost connection.
module Drain {
  import opened Wrappers
  import opened Arithmetic
  import opened Bytes
  import opened Stream
  import opened WalFile
  import opened Sender
  import opened Receiver
  import opened Wal

  // What the receiver's greeting offers.
  datatype Offer = Offer(payload: nat, events: nat, bytes: nat, windowEvents: nat, windowBytes: nat)

  // The offer, cut down to the sender's own maxima.
  datatype Limits = Limits(payload: int, events: int, bytes: int)

  datatype Frame =
    | AckFrame(sequence: nat, digest: Octets)
    | WindowUpdate(events: nat, bytes: nat)
    | Heartbeat
    | ErrorFrame(code: Code)
    | OtherFrame

  function Min(a: int, b: int): int {
    if a <= b then a else b
  }

  function LimitsOf(o: Offer): (l: Limits)
    ensures l.payload >= 0 && l.events >= 0 && l.bytes >= 0
  {
    Limits(Min(o.payload, MAX_PAYLOAD), Min(o.events, MAX_BATCH), Min(o.bytes, MAX_CHARGE))
  }

  // ------------------------------------------------------------------ choosing a batch

  predicate TooLarge(l: Limits, e: Event) {
    |e.payload| > l.payload || Charge(e) > l.bytes
  }

  // The events fit into one batch under the limits and the credit.
  predicate HasRoom(l: Limits, we: nat, wb: nat, es: seq<Event>) {
    |es| <= Min(we, l.events) && TotalCharge(es) <= Min(wb, l.bytes)
  }

  lemma ChargeSnoc(es: seq<Event>, n: nat)
    requires n < |es|
    ensures TotalCharge(es[..n + 1]) == TotalCharge(es[..n]) + Charge(es[n])
  {
    assert es[..n + 1][..n] == es[..n];
  }

  lemma {:induction false} RoomForLess(l: Limits, we: nat, wb: nat, es: seq<Event>, n: nat)
    requires HasRoom(l, we, wb, es) && n <= |es|
    ensures HasRoom(l, we, wb, es[..n])
  {
    if n < |es| {
      RoomForLess(l, we, wb, es[..|es| - 1], n);
      assert es[..|es| - 1][..n] == es[..n];
    } else {
      assert es[..n] == es;
    }
  }

  // r is the length of the longest batch, or says that an event too large for any batch is reached with room before it.
  predicate LongestFit(es: seq<Event>, l: Limits, we: nat, wb: nat, r: Result<nat, Code>) {
    match r
    case Success(n) =>
      && n <= |es| && HasRoom(l, we, wb, es[..n]) && TotalCharge(es[..n]) <= l.bytes
      && (forall i :: 0 <= i < |es| && i <= n ==> !TooLarge(l, es[i]))
      && (forall m :: n < m <= |es| ==> !HasRoom(l, we, wb, es[..m]))
    case Failure(code) =>
      && code == EventTooLarge
      && exists i :: 0 <= i < |es| && TooLarge(l, es[i]) && HasRoom(l, we, wb, es[..i])
                     && forall k :: 0 <= k < i ==> !TooLarge(l, es[k])
  }

  // The length of the longest batch, or the discovery of an event that no batch can hold.
  method SelectBatch(es: seq<Event>, l: Limits, we: nat, wb: nat) returns (r: Result<nat, Code>)
    requires l.events >= 0 && l.bytes >= 0
    ensures LongestFit(es, l, we, wb, r)
  {
    var size := 0;
    for n := 0 to |es|
      invariant size == TotalCharge(es[..n]) && HasRoom(l, we, wb, es[..n])
      invariant forall k :: 0 <= k < n ==> !TooLarge(l, es[k])
    {
      if |es[n].payload| > l.payload || Charge(es[n]) > l.bytes {
        return Failure(EventTooLarge);
      }
      ChargeSnoc(es, n);
      if n >= Min(we, l.events) || size + Charge(es[n]) > Min(wb, l.bytes) {
        forall k | n < k <= |es|
          ensures !HasRoom(l, we, wb, es[..k])
        {
          if HasRoom(l, we, wb, es[..k]) {
            assert es[..k][..n + 1] == es[..n + 1];
            RoomForLess(l, we, wb, es[..k], n + 1);
          }
        }
        return Success(n);
      }
      size := size + Charge(es[n]);
    }
    r := Success(|es|);
  }

  // With the limits and credit that the receiver's greeting offers, an honest log always yields a batch of at least
  // one event, which is within the receiver's own admission limits.
  lemma HonestSelection(st: Stream, es: seq<Event>, r: Result<nat, Code>)
    requires StreamOk(st) && AllValid(st, es) && es != []
    requires LongestFit(es, Limits(MAX_PAYLOAD, MAX_BATCH, MAX_CHARGE), MAX_BATCH, MAX_CHARGE, r)
    ensures r.Success? && 0 < r.value <= MAX_BATCH && r.value <= |es| && TotalCharge(es[..r.value]) <= MAX_CHARGE
  {
    hide StreamOk, TotalCharge, HasRoom;
    var l := Limits(MAX_PAYLOAD, MAX_BATCH, MAX_CHARGE);
    forall i | 0 <= i < |es|
      ensures !TooLarge(l, es[i])
    {
      ValidFits(st, es[i]);
    }
    FirstFits(st, es);
    RoomIs(l, MAX_BATCH, MAX_CHARGE, es[..if r.Success? then r.value else 0]);
  }

  lemma ValidFits(st: Stream, e: Event)
    requires StreamOk(st) && Valid(st, e)
    ensures !TooLarge(Limits(MAX_PAYLOAD, MAX_BATCH, MAX_CHARGE), e)
  {
  }

  lemma FirstFits(st: Stream, es: seq<Event>)
    requires StreamOk(st) && AllValid(st, es) && es != []
    ensures HasRoom(Limits(MAX_PAYLOAD, MAX_BATCH, MAX_CHARGE), MAX_BATCH, MAX_CHARGE, es[..1])
  {
    assert Valid(st, es[0]);
    ChargeSnoc(es, 0);
  }

  lemma RoomIs(l: Limits, we: nat, wb: nat, es: seq<Event>)
    ensures HasRoom(l, we, wb, es) <==> |es| <= Min(we, l.events) && TotalCharge(es) <= Min(wb, l.bytes)
  {
  }

  // There is only one outcome of choosing a batch.
  lemma LongestFitUnique(es: seq<Event>, l: Limits, we: nat, wb: nat, r: Result<nat, Code>, q: Result<nat, Code>)
    requires LongestFit(es, l, we, wb, r) && LongestFit(es, l, we, wb, q)
    ensures r == q
  {
    hide HasRoom, TotalCharge;
  }


  // ------------------------------------------------------------------ an honest receiver's answers

  // The frame acknowledges the batch of n events that the sender sends from position `at`.
  predicate Answers(es: seq<Event>, hs: seq<Octets>, o: Offer, at: nat, n: nat, frame: Frame)
    requires at <= |es|
  {
    && 0 < n && at + n <= |es| && at + n < |hs|
    && LongestFit(es[at..], LimitsOf(o), o.windowEvents, o.windowBytes, Success(n))
    && frame == AckFrame(at + n, hs[at + n])
  }

  // The frames acknowledge batch after batch, from position `at` to the end of the log.
  ghost predicate AcksAll(es: seq<Event>, hs: seq<Octets>, o: Offer, at: nat, frames: seq<Frame>)
    requires at <= |es|
    decreases |frames|
  {
    || at == |es|
    || (frames != []
        && exists n: nat :: Answers(es, hs, o, at, n, frames[0]) && AcksAll(es, hs, o, at + n, frames[1..]))
  }

  // The receiver answers the heartbeat and then acknowledges every batch, under an offer the sender accepts.
  ghost predicate HonestReceiver(es: seq<Event>, hs: seq<Octets>, o: Offer, start: nat, frames: seq<Frame>) {
    && Fair(o)
    && start <= |es| && frames != [] && frames[0] == Heartbeat && AcksAll(es, hs, o, start, frames[1..])
  }

  // What an honest receiver answers to the next batch.
  lemma NextAnswer(es: seq<Event>, hs: seq<Octets>, o: Offer, at: nat, frames: seq<Frame>, k: nat, r: Result<nat, Code>)
    requires at < |es| && k <= |frames| && AcksAll(es, hs, o, at, frames[k..])
    requires LongestFit(es[at..], LimitsOf(o), o.windowEvents, o.windowBytes, r)
    ensures r.Success? && r.value > 0 && at + r.value <= |es| && k < |frames| && at + r.value < |hs|
    ensures frames[k] == AckFrame(at + r.value, hs[at + r.value])
    ensures AcksAll(es, hs, o, at + r.value, frames[k + 1..])
  {
    hide LongestFit;
    var n: nat :| Answers(es, hs, o, at, n, frames[k..][0]) && AcksAll(es, hs, o, at + n, frames[k..][1..]);
    assert frames[k..][1..] == frames[k + 1..];
    LongestFitUnique(es[at..], LimitsOf(o), o.windowEvents, o.windowBytes, r, Success(n));
  }

  // There is credit whenever a batch fits.
  lemma CreditLeft(es: seq<Event>, o: Offer, n: nat)
    requires n > 0 && LongestFit(es, LimitsOf(o), o.windowEvents, o.windowBytes, Success(n))
    ensures o.windowEvents > 0 && o.windowBytes > 0
  {
    assert TotalCharge(es[..n]) >= Charge(es[..n][n - 1]) > 0;
  }

  // With the receiver's own maxima as offer, a valid log always has such answers.
  lemma {:induction false} AnswersExist(st: Stream, es: seq<Event>, hs: seq<Octets>, at: nat)
      returns (frames: seq<Frame>)
    requires StreamOk(st) && AllValid(st, es) && at <= |es| < |hs|
    ensures AcksAll(es, hs, Offer(MAX_PAYLOAD, MAX_BATCH, MAX_CHARGE, MAX_BATCH, MAX_CHARGE), at, frames)
    decreases |es| - at
  {
    frames := [];
    if at < |es| {
      hide LongestFit, StreamOk;
      var o, rest := Offer(MAX_PAYLOAD, MAX_BATCH, MAX_CHARGE, MAX_BATCH, MAX_CHARGE), es[at..];
      var r := FitExists(rest, LimitsOf(o), MAX_BATCH, MAX_CHARGE, 0);
      assert AllValid(st, rest);
      HonestSelection(st, rest, r);
      var more := AnswersExist(st, es, hs, at + r.value);
      frames := [AckFrame(at + r.value, hs[at + r.value])] + more;
      assert frames[1..] == more;
      assert Answers(es, hs, o, at, r.value, frames[0]);
    }
  }

  lemma {:induction false} FitExists(es: seq<Event>, l: Limits, we: nat, wb: nat, n: nat) returns (r: Result<nat, Code>)
    requires l.events >= 0 && l.bytes >= 0 && n <= |es| && HasRoom(l, we, wb, es[..n])
    requires forall k :: 0 <= k < n ==> !TooLarge(l, es[k])
    ensures LongestFit(es, l, we, wb, r)
    decreases |es| - n
  {
    RoomIs(l, we, wb, es[..n]);
    if n == |es| {
      r := Success(n);
    } else if TooLarge(l, es[n]) {
      r := Failure(EventTooLarge);
    } else if HasRoom(l, we, wb, es[..n + 1]) {
      r := FitExists(es, l, we, wb, n + 1);
    } else {
      forall m | n < m <= |es|
        ensures !HasRoom(l, we, wb, es[..m])
      {
        if HasRoom(l, we, wb, es[..m]) {
          assert es[..m][..n + 1] == es[..n + 1];
          RoomForLess(l, we, wb, es[..m], n + 1);
        }
      }
      r := Success(n);
    }
  }

  // ------------------------------------------------------------------ the batches sent

  // Position after the batches in `sent`, the first of which follows position `start`.
  function Through(start: nat, sent: seq<Batch>): nat {
    if sent == [] then start else Through(start, sent[..|sent| - 1]) + |sent[|sent| - 1].events|
  }

  // A batch that continues position `at` of the log in memory, as StepSendBatch sends it.
  predicate BatchAt(es: seq<Event>, hs: seq<Octets>, l: Limits, at: nat, b: Batch) {
    && 0 < |b.events| <= l.events && TotalCharge(b.events) <= l.bytes
    && at + |b.events| <= |es| && at + |b.events| < |hs|
    && b == Batch(es[at].sequence, es[at..at + |b.events|], hs[at + |b.events|])
  }

  // The batches are consecutive pieces of the log in memory.
  predicate Pieces(es: seq<Event>, hs: seq<Octets>, l: Limits, start: nat, sent: seq<Batch>) {
    forall i :: 0 <= i < |sent| ==> BatchAt(es, hs, l, Through(start, sent[..i]), sent[i])
  }

  lemma NoPieces(es: seq<Event>, hs: seq<Octets>, l: Limits, start: nat)
    ensures Pieces(es, hs, l, start, []) && Through(start, []) == start
  {
  }

  lemma PiecesSnoc(es: seq<Event>, hs: seq<Octets>, l: Limits, start: nat, sent: seq<Batch>, b: Batch)
    requires Pieces(es, hs, l, start, sent) && BatchAt(es, hs, l, Through(start, sent), b)
    ensures Pieces(es, hs, l, start, sent + [b])
    ensures Through(start, sent + [b]) == Through(start, sent) + |b.events|
  {
    var sent' := sent + [b];
    assert sent'[..|sent|] == sent;
    forall i | 0 <= i < |sent'|
      ensures BatchAt(es, hs, l, Through(start, sent'[..i]), sent'[i])
    {
      assert i < |sent| ==> sent'[..i] == sent[..i];
    }
  }

  // All events of the batches, in order.
  function Delivered(sent: seq<Batch>): seq<Event> {
    if sent == [] then [] else Delivered(sent[..|sent| - 1]) + sent[|sent| - 1].events
  }

  // Nothing is skipped, repeated or reordered.
  lemma {:induction false} DeliveredInOrder(es: seq<Event>, hs: seq<Octets>, l: Limits, start: nat, sent: seq<Batch>)
    requires Pieces(es, hs, l, start, sent) && start <= |es|
    ensures start <= Through(start, sent) <= |es|
    ensures Delivered(sent) == es[start..Through(start, sent)]
  {
    hide Pieces, BatchAt;
    if sent != [] {
      var sent0, b := sent[..|sent| - 1], sent[|sent| - 1];
      PiecesInit(es, hs, l, start, sent);
      DeliveredInOrder(es, hs, l, start, sent0);
      PieceOf(es, hs, l, Through(start, sent0), b);
      JoinParts(es, start, Through(start, sent0), Through(start, sent));
    }
  }

  lemma PiecesInit(es: seq<Event>, hs: seq<Octets>, l: Limits, start: nat, sent: seq<Batch>)
    requires sent != [] && Pieces(es, hs, l, start, sent)
    ensures Pieces(es, hs, l, start, sent[..|sent| - 1])
    ensures BatchAt(es, hs, l, Through(start, sent[..|sent| - 1]), sent[|sent| - 1])
  {
    hide BatchAt;
    var sent0 := sent[..|sent| - 1];
    forall i | 0 <= i < |sent0|
      ensures BatchAt(es, hs, l, Through(start, sent0[..i]), sent0[i])
    {
      assert sent0[..i] == sent[..i];
      assert BatchAt(es, hs, l, Through(start, sent[..i]), sent[i]);
    }
  }

  lemma PieceOf(es: seq<Event>, hs: seq<Octets>, l: Limits, at: nat, b: Batch)
    requires BatchAt(es, hs, l, at, b)
    ensures at + |b.events| <= |es| && b.events == es[at..at + |b.events|]
  {
  }

  lemma JoinParts(es: seq<Event>, i: nat, j: nat, k: nat)
    requires i <= j <= k <= |es|
    ensures es[i..j] + es[j..k] == es[i..k]
  {
  }

  // The length of the batch, nothing for no batch.
  function LengthOf(r: Result<Option<Batch>, Code>): Result<nat, Code> {
    match r
    case Failure(code) => Failure(code)
    case Success(None) => Success(0)
    case Success(Some(b)) => Success(|b.events|)
  }

  // The longest batch of unacknowledged events that the limits and the credit allow, if any.
  method NextToSend(wal: Wal, l: Limits, we: nat, wb: nat) returns (r: Result<Option<Batch>, Code>)
    requires wal.Valid() && wal.healthy && wal.state.ack < wal.state.tail && l.events >= 0 && l.bytes >= 0
    ensures wal.state.ack < wal.state.tail == |wal.events|
    ensures LongestFit(wal.events[wal.state.ack..], l, we, wb, LengthOf(r))
    ensures r.Success? && r.value.Some? ==>
      var b := r.value.value;
      BatchAt(wal.events, wal.hashes, l, wal.state.ack, b) && wal.state.ack + |b.events| <= wal.state.tail
  {
    hide Wal.Valid, TotalCharge;
    InMemory(wal);
    var at := wal.state.ack;
    var rest := wal.events[at..];
    var n := SelectBatch(rest, l, we, wb);
    if n.Failure? {
      return Failure(n.error);
    }
    if n.value == 0 {
      return Success(None);
    }
    assert rest[..n.value] == wal.events[at..at + n.value];
    r := Success(Some(Batch(rest[0].sequence, rest[..n.value], wal.hashes[at + n.value])));
  }

  // ------------------------------------------------------------------ when each batch is sent

  datatype Credit = Credit(events: nat, bytes: nat)

  // The credit in force after these frames: the latest update, or what the greeting offered.
  function CreditAfter(o: Offer, frames: seq<Frame>): Credit {
    if frames == [] then Credit(o.windowEvents, o.windowBytes)
    else match frames[|frames| - 1]
      case WindowUpdate(events, bytes) => Credit(events, bytes)
      case _ => CreditAfter(o, frames[..|frames| - 1])
  }

  // The batch sent from position `at` after these frames: the heartbeat is answered, and no longer batch would fit.
  predicate SentAfter(es: seq<Event>, o: Offer, at: nat, frames: seq<Frame>, b: Batch) {
    && Heartbeat in frames && at <= |es|
    && var c := CreditAfter(o, frames);
       LongestFit(es[at..], LimitsOf(o), c.events, c.bytes, Success(|b.events|))
  }

  // Among frames i to j is the acknowledgement of a batch ending at this sequence.
  predicate AckedIn(frames: seq<Frame>, i: nat, j: nat, sequence: nat, digest: Octets) {
    i <= j <= |frames| && AckFrame(sequence, digest) in frames[i..j]
  }

  // Batch i was sent after the first when[i] frames, and acknowledged before the next was sent; `flying` is the end of
  // a batch not acknowledged yet.
  predicate InTurn(es: seq<Event>, o: Offer, start: nat, frames: seq<Frame>, sent: seq<Batch>, when: seq<nat>,
      flying: Option<nat>) {
    && |when| == |sent|
    && (forall i :: 0 <= i < |sent| ==>
          when[i] <= |frames| && SentAfter(es, o, Through(start, sent[..i]), frames[..when[i]], sent[i]))
    && (forall i :: 0 <= i < |sent| - 1 ==>
          AckedIn(frames, when[i], when[i + 1], Through(start, sent[..i + 1]), sent[i].terminal))
    && match flying
       case Some(end) => sent != [] && end == Through(start, sent)
       case None =>
         sent != [] ==> AckedIn(frames, when[|sent| - 1], |frames|, Through(start, sent), sent[|sent| - 1].terminal)
  }

  // What the sender takes from the receiver while the batch ending at `flying` is not acknowledged.
  predicate Acceptable(o: Offer, hs: seq<Octets>, flying: Option<nat>, frame: Frame) {
    match frame
    case AckFrame(sequence, digest) => flying == Some(sequence) && sequence < |hs| && hs[sequence] == digest
    case WindowUpdate(events, bytes) => events <= o.events && bytes <= o.bytes
    case Heartbeat => true
    case _ => false
  }

  // Neither an error nor an unexpected frame nor credit beyond the offer.
  predicate Proper(o: Offer, frame: Frame) {
    match frame
    case WindowUpdate(events, bytes) => events <= o.events && bytes <= o.bytes
    case AckFrame(_, _) => true
    case Heartbeat => true
    case _ => false
  }

  // What a frame that is not acceptable ends the stream with.
  function Complaint(flying: Option<nat>, frame: Frame): Code {
    match frame
    case ErrorFrame(code) => code
    case AckFrame(sequence, _) => if flying == Some(sequence) then SplitLog else MalformedFrame
    case WindowUpdate(_, _) => ResourceLimitExceeded
    case _ => MalformedFrame
  }

  // The offer a sender accepts.
  predicate Fair(o: Offer) {
    && o.payload > 0 && o.events > 0 && o.bytes > 0
    && o.windowEvents <= o.events && o.windowBytes <= o.bytes
  }

  // Why the stream ended early: no more frames, a frame that is not acceptable, or an event that no batch can hold.
  predicate Stopped(es: seq<Event>, hs: seq<Octets>, o: Offer, start: nat, frames: seq<Frame>, sent: seq<Batch>,
      received: nat, flying: Option<nat>, code: Code) {
    || (received == |frames| && code == ReceiverDurabilityUnavailable)
    || (received < |frames| && !Acceptable(o, hs, flying, frames[received])
        && code == Complaint(flying, frames[received]))
    || (received <= |frames| && flying == None && Through(start, sent) <= |es| && code == EventTooLarge
        && var c := CreditAfter(o, frames[..received]);
           LongestFit(es[Through(start, sent)..], LimitsOf(o), c.events, c.bytes, Failure(EventTooLarge)))
  }

  lemma TurnStarts(es: seq<Event>, o: Offer, start: nat)
    ensures InTurn(es, o, start, [], [], [], None)
  {
  }

  // One more frame.
  lemma TurnReceives(es: seq<Event>, o: Offer, start: nat, frames: seq<Frame>, sent: seq<Batch>, when: seq<nat>,
      flying: Option<nat>, frame: Frame)
    requires InTurn(es, o, start, frames, sent, when, flying)
    ensures InTurn(es, o, start, frames + [frame], sent, when, flying)
    ensures sent != [] && frame == AckFrame(Through(start, sent), sent[|sent| - 1].terminal) ==>
      InTurn(es, o, start, frames + [frame], sent, when, None)
  {
    hide SentAfter, Through;
    var all := frames + [frame];
    forall i | 0 <= i < |sent|
      ensures SentAfter(es, o, Through(start, sent[..i]), all[..when[i]], sent[i])
    {
      assert all[..when[i]] == frames[..when[i]];
    }
    forall i | 0 <= i < |sent| - 1
      ensures AckedIn(all, when[i], when[i + 1], Through(start, sent[..i + 1]), sent[i].terminal)
    {
      assert all[when[i]..when[i + 1]] == frames[when[i]..when[i + 1]];
    }
    if sent != [] {
      var w := when[|sent| - 1];
      assert all[w..|all|] == frames[w..|frames|] + [frame];
    }
  }

  // One more batch.
  lemma TurnSends(es: seq<Event>, o: Offer, start: nat, frames: seq<Frame>, sent: seq<Batch>, when: seq<nat>, b: Batch)
    requires InTurn(es, o, start, frames, sent, when, None) && SentAfter(es, o, Through(start, sent), frames, b)
    ensures InTurn(es, o, start, frames, sent + [b], when + [|frames|], Some(Through(start, sent + [b])))
  {
    hide SentAfter, Through;
    var sent', when' := sent + [b], when + [|frames|];
    assert frames[..|frames|] == frames && sent'[..|sent|] == sent;
    forall i | 0 <= i < |sent'|
      ensures SentAfter(es, o, Through(start, sent'[..i]), frames[..when'[i]], sent'[i])
    {
      assert i < |sent| ==> sent'[..i] == sent[..i];
    }
    forall i | 0 <= i < |sent'| - 1
      ensures AckedIn(frames, when'[i], when'[i + 1], Through(start, sent'[..i + 1]), sent'[i].terminal)
    {
      assert sent'[..i + 1] == sent[..i + 1];
      assert i == |sent| - 1 ==> sent[..i + 1] == sent;
    }
  }

  lemma CreditStep(o: Offer, frames: seq<Frame>, frame: Frame)
    ensures CreditAfter(o, frames + [frame]) ==
      match frame case WindowUpdate(events, bytes) => Credit(events, bytes) case _ => CreditAfter(o, frames)
  {
    assert (frames + [frame])[..|frames|] == frames;
  }

  // A batch is within the receiver's offer, the sender's own maxima and the credit, each event within both payload
  // maxima; and it is the longest such batch.
  predicate WithinAll(o: Offer, c: Credit, es: seq<Event>) {
    && |es| <= o.events && |es| <= MAX_BATCH && |es| <= c.events
    && TotalCharge(es) <= o.bytes && TotalCharge(es) <= MAX_CHARGE && TotalCharge(es) <= c.bytes
    && forall e :: e in es ==> |e.payload| <= o.payload && |e.payload| <= MAX_PAYLOAD
  }

  lemma SentWithin(es: seq<Event>, o: Offer, at: nat, frames: seq<Frame>, b: Batch)
    requires SentAfter(es, o, at, frames, b)
    ensures var n, c := |b.events|, CreditAfter(o, frames);
      && at + n <= |es| && WithinAll(o, c, es[at..at + n])
      && forall m :: at + n < m <= |es| ==> !WithinAll(o, c, es[at..m])
  {
    hide TotalCharge;
    var n, c, rest := |b.events|, CreditAfter(o, frames), es[at..];
    assert rest[..n] == es[at..at + n];
    forall m | at + n < m <= |es|
      ensures !WithinAll(o, c, es[at..m])
    {
      assert rest[..m - at] == es[at..m];
      assert !HasRoom(LimitsOf(o), c.events, c.bytes, rest[..m - at]);
    }
  }

  // ------------------------------------------------------------------ the control exchange and the loop

  // What the sender has learned from the receiver's frames so far.
  datatype Progress = Progress(waiting: bool, inflight: Option<nat>, we: nat, wb: nat)

  // One frame from the receiver. An acknowledgement must be the one for the batch in flight, and moves the acknowledged
  // position there.
  method Receive(wal: Wal, o: Offer, p: Progress, frame: Frame, fault: SaveFault) returns (r: Result<Progress, Code>)
    requires wal.Valid() && wal.healthy
    modifies wal`disk, wal`healthy, wal`state
    ensures wal.Valid() && wal.log == old(wal.log)
    ensures r.Success? ==>
      && wal.healthy
      && match frame
         case AckFrame(sequence, digest) =>
           && p.inflight == Some(sequence) && r.value == p.(inflight := None)
           && wal.state == old(wal.state).(ack := sequence, ackHash := digest)
         case WindowUpdate(events, bytes) => r.value == p.(we := events, wb := bytes) && wal.state == old(wal.state)
         case Heartbeat => r.value == p.(waiting := false) && wal.state == old(wal.state)
         case _ => false
    ensures r.Success? ==> Acceptable(o, wal.hashes, p.inflight, frame)
    ensures (
      && fault == SaveDone
      && (p.inflight.Some? ==> old(wal.state).ack <= p.inflight.value <= old(wal.state).tail)) ==>
      if Acceptable(o, wal.hashes, p.inflight, frame) then r.Success?
      else r == Failure(Complaint(p.inflight, frame))
  {
    hide Wal.Valid;
    match frame {
    case ErrorFrame(code) => return Failure(code);
    case AckFrame(sequence, digest) =>
      InMemory(wal);
      if p.inflight != Some(sequence) {
        return Failure(MalformedFrame);
      }
      var acknowledged := wal.Acknowledge(sequence, digest, fault);
      if acknowledged.Failure? {
        return Failure(acknowledged.error);
      }
      return Success(p.(inflight := None));
    case WindowUpdate(events, bytes) =>
      if !(events <= o.events && bytes <= o.bytes) {
        return Failure(ResourceLimitExceeded);
      }
      return Success(p.(we := events, wb := bytes));
    case Heartbeat => return Success(p.(waiting := false));
    case OtherFrame => return Failure(MalformedFrame);
    }
  }

  // Nothing goes wrong with the sender's own disk.
  ghost predicate FaultFree(faults: nat -> SaveFault) {
    forall k: nat :: faults(k) == SaveDone
  }

  // Between frames from an honest receiver nothing is in flight, and its next frame is the answer to what is sent next.
  ghost predicate OnTrack(es: seq<Event>, hs: seq<Octets>, o: Offer, p: Progress, ack: nat, frames: seq<Frame>,
      k: nat) {
    && p.inflight == None && p.we == o.windowEvents && p.wb == o.windowBytes && ack <= |es| && k <= |frames|
    && (if p.waiting then k == 0 && frames != [] && frames[0] == Heartbeat && AcksAll(es, hs, o, ack, frames[1..])
        else AcksAll(es, hs, o, ack, frames[k..]))
  }

  lemma TrackGreeted(es: seq<Event>, hs: seq<Octets>, o: Offer, p: Progress, ack: nat, frames: seq<Frame>, k: nat)
    requires OnTrack(es, hs, o, p, ack, frames, k) && p.waiting
    ensures k < |frames| && frames[k] == Heartbeat
    ensures OnTrack(es, hs, o, p.(waiting := false), ack, frames, k + 1)
  {
  }

  // As long as events remain there is credit, and the next frame acknowledges the next batch.
  lemma TrackAnswered(es: seq<Event>, hs: seq<Octets>, o: Offer, p: Progress, ack: nat, frames: seq<Frame>, k: nat)
    requires OnTrack(es, hs, o, p, ack, frames, k) && !p.waiting && ack < |es|
    ensures p.inflight == None && p.we == o.windowEvents > 0 && p.wb == o.windowBytes > 0
    ensures forall r :: LongestFit(es[ack..], LimitsOf(o), o.windowEvents, o.windowBytes, r) ==>
      && r.Success? && r.value > 0 && ack + r.value <= |es| && k < |frames| && ack + r.value < |hs|
      && frames[k] == AckFrame(ack + r.value, hs[ack + r.value])
      && OnTrack(es, hs, o, p, ack + r.value, frames, k + 1)
  {
    hide LongestFit;
    var n: nat :| Answers(es, hs, o, ack, n, frames[k..][0]) && AcksAll(es, hs, o, ack + n, frames[k..][1..]);
    CreditLeft(es[ack..], o, n);
    forall r | LongestFit(es[ack..], LimitsOf(o), o.windowEvents, o.windowBytes, r)
      ensures r.Success? && r.value > 0 && ack + r.value <= |es| && k < |frames| && ack + r.value < |hs|
        && frames[k] == AckFrame(ack + r.value, hs[ack + r.value])
        && OnTrack(es, hs, o, p, ack + r.value, frames, k + 1)
    {
      NextAnswer(es, hs, o, ack, frames, k, r);
    }
  }

  // Sends everything the receiver has not committed. Success means that all of it was sent, in consecutive batches,
  // each within the limits and acknowledged before the next, and that the whole log is acknowledged. An honest receiver
  // whose greeting is accepted makes it succeed. Each batch is the longest that the credit in force allows. It fails
  // only if the greeting is refused, the connection is lost, a frame is not acceptable, or an event fits no batch.
  method DrainLog(wal: Wal, g: Greeting, o: Offer, frames: seq<Frame>, fault: SaveFault, ackFault: SaveFault,
      faults: nat -> SaveFault)
      returns (r: Result<(), Code>, sent: seq<Batch>, received: nat, ghost when: seq<nat>,
        ghost flying: Option<nat>)
    requires wal.Valid()
    modifies wal`disk, wal`healthy, wal`state
    ensures wal.Valid() && wal.log == old(wal.log)
    ensures wal.events == old(wal.events) && wal.hashes == old(wal.hashes)
    ensures sent != [] ==> g.committed <= old(wal.state).tail
    ensures received <= |frames| && InTurn(wal.events, o, g.committed, frames[..received], sent, when, flying)
    ensures r.Success? ==>
      Fair(o) && Bound(old(wal.Mem()), g).Success? && Heartbeat in frames[..received] && flying == None
    ensures forall k :: 0 <= k < received ==> Proper(o, frames[k])
    ensures !Fair(o) ==> r == Failure(InvalidHandshake) && sent == []
    ensures (
      && r.Failure? && Fair(o) && old(wal.healthy) && Bound(old(wal.Mem()), g).Success?
      && fault == ackFault == SaveDone && FaultFree(faults)) ==>
      Stopped(wal.events, wal.hashes, o, g.committed, frames, sent, received, flying, r.error)
    ensures Pieces(wal.events, wal.hashes, LimitsOf(o), g.committed, sent)
    ensures r.Success? ==>
      && wal.healthy && wal.state.ack == wal.state.tail == Through(g.committed, sent)
      && g.committed <= wal.state.tail == |wal.events| && Delivered(sent) == wal.events[g.committed..]
    ensures (
      && old(wal.healthy) && Bound(old(wal.Mem()), g).Success?
      && fault == ackFault == SaveDone && FaultFree(faults)
      && HonestReceiver(wal.events, wal.hashes, o, g.committed, frames)) ==> r.Success?
  {
    hide Wal.Valid, Bound, Acknowledged, Pieces, Through, AcksAll, FaultFree;
    sent, received, when, flying := [], 0, [], None;
    NoPieces(wal.events, wal.hashes, LimitsOf(o), g.committed);
    TurnStarts(wal.events, o, g.committed);
    if !(o.payload > 0 && o.events > 0 && o.bytes > 0) {
      return Failure(InvalidHandshake), sent, received, when, flying;
    }
    if !(o.windowEvents <= o.events && o.windowBytes <= o.bytes) {
      return Failure(InvalidHandshake), sent, received, when, flying;
    }
    ghost var m0 := wal.Mem();
    r := wal.Bind(g, fault, ackFault);
    if r.Failure? {
      return;
    }
    BoundKeeps(m0, g);
    ghost var honest := FaultFree(faults) && HonestReceiver(wal.events, wal.hashes, o, wal.state.ack, frames);
    r, sent, received, when, flying := Exchange(wal, o, frames, faults, honest);
  }

  // How far the sender has come: what it sent from `start` on, what is in flight, what it was told.
  ghost predicate Underway(es: seq<Event>, hs: seq<Octets>, o: Offer, start: nat, ack: nat, frames: seq<Frame>,
      received: nat, sent: seq<Batch>, when: seq<nat>, p: Progress) {
    && Pieces(es, hs, LimitsOf(o), start, sent) && start <= |es| && ack <= |es|
    && Through(start, sent) == (if p.inflight.Some? then p.inflight.value else ack)
    && (p.inflight.Some? ==> ack < p.inflight.value <= |es|)
    && Sending(es, hs, o, start, frames, received, sent, when, p)
  }

  // Sends the longest batch that fits if nothing is in flight and there is credit.
  method SendNext(wal: Wal, o: Offer, p: Progress, sent: seq<Batch>, frames: seq<Frame>, received: nat,
      ghost start: nat, ghost when: seq<nat>, ghost honest: bool)
      returns (r: Result<(), Code>, p': Progress, sent': seq<Batch>, ghost when': seq<nat>)
    requires wal.Valid() && wal.healthy && (p.waiting || wal.state.ack < wal.state.tail)
    requires Underway(wal.events, wal.hashes, o, start, wal.state.ack, frames, received, sent, when, p)
    requires honest ==> OnTrack(wal.events, wal.hashes, o, p, wal.state.ack, frames, received)
    ensures Underway(wal.events, wal.hashes, o, start, wal.state.ack, frames, received, sent', when', p')
    ensures r.Failure? ==>
      Stopped(wal.events, wal.hashes, o, start, frames, sent', received, p'.inflight, r.error)
    ensures p'.waiting == p.waiting
    ensures honest ==> r.Success? && Expects(wal.events, wal.hashes, o, p', wal.state.ack, frames, received)
  {
    hide Wal.Valid, TotalCharge, HasRoom, LongestFit, AcksAll, OnTrack, Answers, LimitsOf, Sending, Stopped, Pieces;
    hide BatchAt, Through;
    p', sent', when' := p, sent, when;
    InMemory(wal);
    if honest && p.waiting {
      TrackGreeted(wal.events, wal.hashes, o, p, wal.state.ack, frames, received);
    } else if honest {
      TrackAnswered(wal.events, wal.hashes, o, p, wal.state.ack, frames, received);
    }
    if !p.waiting && p.inflight == None && p.we > 0 && p.wb > 0 {
      var next := NextToSend(wal, LimitsOf(o), p.we, p.wb);
      if next.Failure? {
        StopsLarge(wal.events, wal.hashes, o, start, frames, received, sent, when, p, next.error);
        return Failure(next.error), p', sent', when';
      }
      if next.value.Some? {
        p', sent', when' := Noted(wal, o, p, next.value.value, start, sent, frames, received, when);
      }
    }
    r := Success(());
  }

  // Notes the batch that was sent.
  method Noted(wal: Wal, o: Offer, p: Progress, b: Batch, ghost start: nat, sent: seq<Batch>, ghost frames: seq<Frame>,
      ghost received: nat, ghost when: seq<nat>)
      returns (p': Progress, sent': seq<Batch>, ghost when': seq<nat>)
    requires p.inflight == None && !p.waiting
    requires Underway(wal.events, wal.hashes, o, start, wal.state.ack, frames, received, sent, when, p)
    requires LongestFit(wal.events[wal.state.ack..], LimitsOf(o), p.we, p.wb, Success(|b.events|))
    requires BatchAt(wal.events, wal.hashes, LimitsOf(o), wal.state.ack, b)
    ensures Underway(wal.events, wal.hashes, o, start, wal.state.ack, frames, received, sent', when', p')
    ensures p' == p.(inflight := Some(wal.state.ack + |b.events|)) && sent' == sent + [b]
  {
    hide Pieces, Through, BatchAt, SentAfter, InTurn, CreditAfter, LongestFit, LimitsOf;
    PiecesSnoc(wal.events, wal.hashes, LimitsOf(o), start, sent, b);
    BatchLength(wal.events, wal.hashes, LimitsOf(o), wal.state.ack, b);
    BecomesSent(wal.events, o, wal.state.ack, frames[..received], b);
    TurnSends(wal.events, o, start, frames[..received], sent, when, b);
    p', sent', when' := p.(inflight := Some(wal.state.ack + |b.events|)), sent + [b], when + [|frames[..received]|];
  }

  // What comes next from an honest receiver: the heartbeat, or the acknowledgement of the batch in flight.
  ghost predicate Expects(es: seq<Event>, hs: seq<Octets>, o: Offer, p: Progress, ack: nat, frames: seq<Frame>,
      received: nat) {
    && received < |frames|
    && if p.waiting then
         && frames[received] == Heartbeat
         && OnTrack(es, hs, o, p.(waiting := false), ack, frames, received + 1)
       else
         && p.inflight.Some? && p.inflight.value < |hs|
         && frames[received] == AckFrame(p.inflight.value, hs[p.inflight.value])
         && OnTrack(es, hs, o, p.(inflight := None), p.inflight.value, frames, received + 1)
  }

  // The batch in flight is the last one sent and ends with the hash in memory.
  ghost predicate LastIs(hs: seq<Octets>, inflight: Option<nat>, sent: seq<Batch>) {
    inflight.Some? ==> sent != [] && inflight.value < |hs| && sent[|sent| - 1].terminal == hs[inflight.value]
  }

  // The control exchange and the loop that follows it, from the acknowledged position on.
  method Exchange(wal: Wal, o: Offer, frames: seq<Frame>, faults: nat -> SaveFault, ghost honest: bool)
      returns (r: Result<(), Code>, sent: seq<Batch>, received: nat, ghost when: seq<nat>,
        ghost flying: Option<nat>)
    requires wal.Valid() && wal.healthy && wal.state.ack <= wal.state.tail
    requires honest ==> FaultFree(faults) && HonestReceiver(wal.events, wal.hashes, o, wal.state.ack, frames)
    modifies wal`disk, wal`healthy, wal`state
    ensures wal.Valid() && wal.log == old(wal.log)
    ensures Pieces(wal.events, wal.hashes, LimitsOf(o), old(wal.state).ack, sent)
    ensures r.Success? ==>
      && wal.healthy && wal.state.ack == wal.state.tail == Through(old(wal.state).ack, sent)
      && old(wal.state).ack <= wal.state.tail == |wal.events| && Delivered(sent) == wal.events[old(wal.state).ack..]
    ensures honest ==> r.Success?
    ensures received <= |frames| && InTurn(wal.events, o, old(wal.state).ack, frames[..received], sent, when, flying)
    ensures r.Success? ==> Heartbeat in frames[..received] && flying == None
    ensures forall k :: 0 <= k < received ==> Proper(o, frames[k])
    ensures r.Failure? && FaultFree(faults) ==>
      Stopped(wal.events, wal.hashes, o, old(wal.state).ack, frames, sent, received, flying, r.error)
  {
    hide Wal.Valid, TotalCharge, Pieces, Through, HasRoom, LongestFit, AcksAll, BatchAt, OnTrack, FaultFree, Answers;
    hide InTurn, Acceptable, Sending, Stopped, Complaint, LimitsOf, Underway, Proper, Expects;
    sent, received, when, flying := [], 0, [], None;
    ghost var start, tail := wal.state.ack, wal.state.tail;
    var p := Progress(true, None, o.windowEvents, o.windowBytes);
    InMemory(wal);
    UnderwayStarts(wal.events, wal.hashes, o, start, frames);
    if honest {
      StartsOnTrack(wal.events, wal.hashes, o, start, frames);
    }
    while p.waiting || wal.state.ack < wal.state.tail
      invariant wal.Valid() && wal.log == old(wal.log) && wal.healthy && received <= |frames|
      invariant wal.state.tail == tail == |wal.events|
      invariant Underway(wal.events, wal.hashes, o, start, wal.state.ack, frames, received, sent, when, p)
      invariant honest ==> OnTrack(wal.events, wal.hashes, o, p, wal.state.ack, frames, received)
      decreases |frames| - received
    {
      ghost var ack := wal.state.ack;
      r, p, sent, when := SendNext(wal, o, p, sent, frames, received, start, when, honest);
      flying := p.inflight;
      UnderwayMeans(wal.events, wal.hashes, o, start, wal.state.ack, frames, received, sent, when, p);
      if r.Failure? {
        return;
      }
      if honest {
        ExpectsMeans(wal.events, wal.hashes, o, p, ack, frames, received);
      }
      if received == |frames| {
        return Failure(ReceiverDurabilityUnavailable), sent, received, when, flying;
      }
      if FaultFree(faults) {
        NoFaults(faults, received);
      }
      var progress := Receive(wal, o, p, frames[received], faults(received));
      if progress.Failure? {
        return Failure(progress.error), sent, received, when, flying;
      }
      UnderwayReceives(wal.events, wal.hashes, o, start, ack, frames, received, sent, when, p, progress.value);
      p, received := progress.value, received + 1;
    }
    InMemory(wal);
    UnderwayEnds(wal.events, wal.hashes, o, start, frames, received, sent, when, p);
    flying := None;
    r := Success(());
  }

  lemma UnderwayStarts(es: seq<Event>, hs: seq<Octets>, o: Offer, start: nat, frames: seq<Frame>)
    requires start <= |es|
    ensures Underway(es, hs, o, start, start, frames, 0, [], [], Progress(true, None, o.windowEvents, o.windowBytes))
  {
    hide Pieces, Sending, Through;
    NoPieces(es, hs, LimitsOf(o), start);
    SendingStarts(es, hs, o, start, frames);
  }

  // What holds when the stream stops here, and why it would.
  lemma UnderwayMeans(es: seq<Event>, hs: seq<Octets>, o: Offer, start: nat, ack: nat, frames: seq<Frame>,
      received: nat, sent: seq<Batch>, when: seq<nat>, p: Progress)
    requires Underway(es, hs, o, start, ack, frames, received, sent, when, p)
    ensures received <= |frames| && InTurn(es, o, start, frames[..received], sent, when, p.inflight)
    ensures Pieces(es, hs, LimitsOf(o), start, sent) && (p.inflight.Some? ==> ack <= p.inflight.value <= |es|)
    ensures forall k :: 0 <= k < received ==> Proper(o, frames[k])
    ensures received == |frames| ==>
      Stopped(es, hs, o, start, frames, sent, received, p.inflight, ReceiverDurabilityUnavailable)
    ensures received < |frames| && !Acceptable(o, hs, p.inflight, frames[received]) ==>
      Stopped(es, hs, o, start, frames, sent, received, p.inflight, Complaint(p.inflight, frames[received]))
  {
    hide InTurn, Pieces, Proper, Acceptable, Complaint;
  }

  lemma UnderwayReceives(es: seq<Event>, hs: seq<Octets>, o: Offer, start: nat, ack: nat, frames: seq<Frame>,
      received: nat, sent: seq<Batch>, when: seq<nat>, p: Progress, p': Progress)
    requires Underway(es, hs, o, start, ack, frames, received, sent, when, p)
    requires received < |frames| && Acceptable(o, hs, p.inflight, frames[received])
    requires match frames[received]
      case AckFrame(_, _) => p' == p.(inflight := None)
      case WindowUpdate(events, bytes) => p' == p.(we := events, wb := bytes)
      case Heartbeat => p' == p.(waiting := false)
      case _ => false
    ensures Underway(es, hs, o, start, if frames[received].AckFrame? then frames[received].sequence else ack, frames,
      received + 1, sent, when, p')
  {
    hide Sending, Pieces, Through;
    SendingReceives(es, hs, o, start, frames, received, sent, when, p, p');
  }

  // At the end of the log.
  lemma UnderwayEnds(es: seq<Event>, hs: seq<Octets>, o: Offer, start: nat, frames: seq<Frame>, received: nat,
      sent: seq<Batch>, when: seq<nat>, p: Progress)
    requires Underway(es, hs, o, start, |es|, frames, received, sent, when, p) && !p.waiting
    ensures received <= |frames| && InTurn(es, o, start, frames[..received], sent, when, None)
    ensures Heartbeat in frames[..received] && forall k :: 0 <= k < received ==> Proper(o, frames[k])
    ensures Pieces(es, hs, LimitsOf(o), start, sent)
    ensures start <= |es| == Through(start, sent) && Delivered(sent) == es[start..]
  {
    hide InTurn, Pieces, Proper, Through;
    DeliveredInOrder(es, hs, LimitsOf(o), start, sent);
  }

  lemma ExpectsMeans(es: seq<Event>, hs: seq<Octets>, o: Offer, p: Progress, ack: nat, frames: seq<Frame>,
      received: nat)
    requires Expects(es, hs, o, p, ack, frames, received)
    ensures received < |frames| && Acceptable(o, hs, p.inflight, frames[received])
    ensures if p.waiting then
        && frames[received] == Heartbeat
        && OnTrack(es, hs, o, p.(waiting := false), ack, frames, received + 1)
      else
        && p.inflight.Some? && frames[received].AckFrame? && frames[received].sequence == p.inflight.value
        && OnTrack(es, hs, o, p.(inflight := None), p.inflight.value, frames, received + 1)
  {
    hide OnTrack;
  }

  // Where the loop stands after the first `received` frames.
  ghost predicate Sending(es: seq<Event>, hs: seq<Octets>, o: Offer, start: nat, frames: seq<Frame>, received: nat,
      sent: seq<Batch>, when: seq<nat>, p: Progress) {
    && received <= |frames| && InTurn(es, o, start, frames[..received], sent, when, p.inflight)
    && LastIs(hs, p.inflight, sent) && CreditAfter(o, frames[..received]) == Credit(p.we, p.wb)
    && (!p.waiting ==> Heartbeat in frames[..received])
    && forall k :: 0 <= k < received ==> Proper(o, frames[k])
  }

  lemma SendingStarts(es: seq<Event>, hs: seq<Octets>, o: Offer, start: nat, frames: seq<Frame>)
    ensures Sending(es, hs, o, start, frames, 0, [], [], Progress(true, None, o.windowEvents, o.windowBytes))
  {
    assert frames[..0] == [];
  }

  // An acceptable frame is taken.
  lemma SendingReceives(es: seq<Event>, hs: seq<Octets>, o: Offer, start: nat, frames: seq<Frame>, received: nat,
      sent: seq<Batch>, when: seq<nat>, p: Progress, p': Progress)
    requires Sending(es, hs, o, start, frames, received, sent, when, p)
    requires received < |frames| && Acceptable(o, hs, p.inflight, frames[received])
    requires match frames[received]
      case AckFrame(_, _) => p' == p.(inflight := None)
      case WindowUpdate(events, bytes) => p' == p.(we := events, wb := bytes)
      case Heartbeat => p' == p.(waiting := false)
      case _ => false
    ensures Sending(es, hs, o, start, frames, received + 1, sent, when, p')
  {
    hide InTurn, CreditAfter, Acceptable, LastIs;
    InTurnFlying(es, o, start, frames[..received], sent, when, p.inflight);
    TurnAccepts(es, hs, o, start, frames, received, sent, when, p.inflight);
  }

  lemma InTurnFlying(es: seq<Event>, o: Offer, start: nat, frames: seq<Frame>, sent: seq<Batch>, when: seq<nat>,
      flying: Option<nat>)
    requires InTurn(es, o, start, frames, sent, when, flying)
    ensures flying.Some? ==> flying.value == Through(start, sent)
  {
  }

  lemma StopsLarge(es: seq<Event>, hs: seq<Octets>, o: Offer, start: nat, frames: seq<Frame>, received: nat,
      sent: seq<Batch>, when: seq<nat>, p: Progress, code: Code)
    requires Sending(es, hs, o, start, frames, received, sent, when, p) && p.inflight == None
    requires Through(start, sent) <= |es|
    requires LongestFit(es[Through(start, sent)..], LimitsOf(o), p.we, p.wb, Failure(code))
    ensures Stopped(es, hs, o, start, frames, sent, received, p.inflight, code)
    ensures received <= |frames| && InTurn(es, o, start, frames[..received], sent, when, p.inflight)
    ensures forall k :: 0 <= k < received ==> Proper(o, frames[k])
  {
    hide InTurn, Proper, Through, CreditAfter;
  }

  lemma BecomesSent(es: seq<Event>, o: Offer, at: nat, frames: seq<Frame>, b: Batch)
    requires Heartbeat in frames && at <= |es|
    requires var c := CreditAfter(o, frames);
      LongestFit(es[at..], LimitsOf(o), c.events, c.bytes, Success(|b.events|))
    ensures SentAfter(es, o, at, frames, b)
  {
  }

  // An acceptable frame keeps the order of sending; an acknowledgement ends the flight.
  lemma TurnAccepts(es: seq<Event>, hs: seq<Octets>, o: Offer, start: nat, frames: seq<Frame>, received: nat,
      sent: seq<Batch>, when: seq<nat>, flying: Option<nat>)
    requires received < |frames| && InTurn(es, o, start, frames[..received], sent, when, flying)
    requires Acceptable(o, hs, flying, frames[received]) && LastIs(hs, flying, sent)
    requires flying.Some? ==> flying.value == Through(start, sent)
    ensures var next := if frames[received].AckFrame? then None else flying;
      && InTurn(es, o, start, frames[..received + 1], sent, when, next)
      && LastIs(hs, next, sent)
    ensures Proper(o, frames[received])
    ensures var frame := frames[received];
      CreditAfter(o, frames[..received + 1]) ==
      match frame case WindowUpdate(events, bytes) => Credit(events, bytes)
                  case _ => CreditAfter(o, frames[..received])
    ensures Heartbeat in frames[..received + 1] <==> Heartbeat in frames[..received] || frames[received] == Heartbeat
  {
    hide InTurn, CreditAfter, Through;
    assert frames[..received + 1] == frames[..received] + [frames[received]];
    TurnReceives(es, o, start, frames[..received], sent, when, flying, frames[received]);
    CreditStep(o, frames[..received], frames[received]);
  }

  lemma StartsOnTrack(es: seq<Event>, hs: seq<Octets>, o: Offer, start: nat, frames: seq<Frame>)
    requires HonestReceiver(es, hs, o, start, frames)
    ensures OnTrack(es, hs, o, Progress(true, None, o.windowEvents, o.windowBytes), start, frames, 0)
  {
  }

  lemma NoFaults(faults: nat -> SaveFault, k: nat)
    requires FaultFree(faults)
    ensures faults(k) == SaveDone
  {
  }

  lemma BatchLength(es: seq<Event>, hs: seq<Octets>, l: Limits, at: nat, b: Batch)
    requires BatchAt(es, hs, l, at, b)
    ensures |b.events| > 0 && at + |b.events| <= |es|
    ensures at + |b.events| < |hs| && b.terminal == hs[at + |b.events|]
  {
  }

  lemma BoundKeeps(m: Memory, g: Greeting)
    ensures Bound(m, g).Success? ==>
      Bound(m, g).value.tail == m.state.tail && g.committed <= m.state.tail
  {
  }

  lemma AcknowledgedKeeps(m: Memory, sequence: nat, digest: Octets)
    ensures Acknowledged(m, sequence, digest).Success? ==>
      Acknowledged(m, sequence, digest).value == m.state.(ack := sequence, ackHash := digest)
  {
  }

  // A running log holds all its events in memory.
  lemma InMemory(wal: Wal)
    requires wal.Valid() && wal.healthy
    ensures |wal.events| == wal.state.tail && |wal.hashes| == wal.state.tail + 1 && wal.state.ack <= wal.state.tail
  {
    RemembersAnchors(wal.st, wal.Mem(), wal.log);
  }
}
