// Admitting payout events under policy evidence, and withdrawing that evidence: the sender's and receiver's state.
module Withdrawal {
  import opened Wrappers
  import opened Arithmetic
  import opened Bytes

  datatype Mode = RelayRequired | NoRelayRequired | UnknownMode

  // Policy evidence a sender holds for one scope.
  datatype Policy = Policy(
    activated: bool, authorized: bool, contract: bool,
    from: int, until: int, mode: Mode, member: bool, generation: int)

  // From `boundary` on, evidence of a generation below `generation` no longer admits.
  datatype Cap = Cap(generation: int, boundary: int)

  datatype Entry = Entry(request: Octets, scopes: seq<Octets>, time: int)

  // A sender's durable state.
  datatype SenderState = SenderState(
    policies: map<Octets, Policy>,
    caps: map<Octets, seq<Cap>>,
    historyKnown: bool,
    outcomes: map<Octets, int>,
    lastSequence: int,
    wal: seq<Entry>,
    admittedThrough: map<Octets, int>)

  datatype Pending = Pending(
    required: set<Octets>, members: set<Octets>, effective: int, generation: int, digest: Octets,
    acks: set<Octets>, scope: Octets)

  // The receiver's durable state for policy distribution.
  datatype ReceiverState = ReceiverState(
    mode: Mode, holders: set<Octets>, holderSkews: map<Octets, int>, pending: Option<Pending>,
    historyKnown: bool, committedThrough: map<(Octets, Octets), int>)

  datatype StagingAck = StagingAck(generation: int, digest: Octets)

  datatype PolicyError =
    | MissingEvidence | PermissionWithdrawn | OutsideCoverage | UnknownPolicy | NotMember | UnknownHistory
    | HistoryCrosses | IssuanceUnavailable | TransitionConflict | StagingMismatch | MissingAcknowledgement

  // ------------------------------------------------------------------ admission

  function CapsFor(s: SenderState, scope: Octets): seq<Cap> {
    if scope in s.caps then s.caps[scope] else []
  }

  function ThroughOf(s: SenderState, scope: Octets): int {
    if scope in s.admittedThrough then s.admittedThrough[scope] else -1
  }

  predicate Capped(caps: seq<Cap>, generation: int, time: int) {
    exists i :: 0 <= i < |caps| && generation < caps[i].generation && time >= caps[i].boundary
  }

  // Evidence for one scope: present and complete, not withdrawn, in force at the time, and usable.
  function CheckScope(s: SenderState, scope: Octets, time: int): Result<(), PolicyError> {
    if scope !in s.policies then Failure(MissingEvidence)
    else
      var p := s.policies[scope];
      if !p.activated || !p.authorized || !p.contract then Failure(MissingEvidence)
      else if Capped(CapsFor(s, scope), p.generation, time) then Failure(PermissionWithdrawn)
      else if !(p.from <= time < p.until) then Failure(OutsideCoverage)
      else if p.mode == UnknownMode then Failure(UnknownPolicy)
      else if p.mode == RelayRequired && !p.member then Failure(NotMember)
      else Success(())
  }

  function CheckScopes(s: SenderState, scopes: seq<Octets>, time: int): Result<(), PolicyError> {
    if scopes == [] then Success(())
    else match CheckScope(s, scopes[0], time)
      case Failure(e) => Failure(e)
      case Success(_) => CheckScopes(s, scopes[1..], time)
  }

  // High-water mark of every scope of the event.
  function Raise(through: map<Octets, int>, scopes: seq<Octets>, time: int): map<Octets, int> {
    if scopes == [] then through
    else
      var rest := Raise(through, scopes[..|scopes| - 1], time);
      var q := scopes[|scopes| - 1];
      rest[q := Max(time, if q in rest then rest[q] else -1)]
  }

  function Admitted(s: SenderState, request: Octets, scopes: seq<Octets>, time: int): SenderState {
    s.(wal := s.wal + [Entry(request, scopes, time)],
       lastSequence := s.lastSequence + 1,
       admittedThrough := Raise(s.admittedThrough, scopes, time),
       outcomes := s.outcomes[request := s.lastSequence + 1])
  }

  // Why a new request is refused, if it is.
  function Refusal(s: SenderState, scopes: seq<Octets>, time: int): Result<(), PolicyError> {
    match CheckScopes(s, scopes, time)
    case Failure(e) => Failure(e)
    case Success(_) => if !s.historyKnown then Failure(UnknownHistory) else Success(())
  }

  // ------------------------------------------------------------------ staging

  function WithCap(s: SenderState, scope: Octets, cap: Cap): SenderState {
    s.(caps := s.caps[scope := if cap in CapsFor(s, scope) then CapsFor(s, scope) else CapsFor(s, scope) + [cap]])
  }

  // Latest time of an admission into the scope, by the mark and by what is left of the log.
  function HighWater(s: SenderState, scope: Octets): int {
    Latest(ThroughOf(s, scope), s.wal, scope)
  }

  function Latest(base: int, wal: seq<Entry>, scope: Octets): int {
    if wal == [] then base
    else
      var rest, e := Latest(base, wal[..|wal| - 1], scope), wal[|wal| - 1];
      if scope in e.scopes then Max(rest, e.time) else rest
  }

  // The cap stays whatever the outcome.
  function Staged(s: SenderState, scope: Octets, p: Pending): (SenderState, Result<StagingAck, PolicyError>) {
    var s' := WithCap(s, scope, Cap(p.generation, p.effective));
    (s', if !s.historyKnown then Failure(UnknownHistory)
         else if HighWater(s, scope) >= p.effective then Failure(HistoryCrosses)
         else Success(StagingAck(p.generation, p.digest)))
  }

  // ------------------------------------------------------------------ the receiver

  function Issued(r: ReceiverState, sender: Octets, skew: int): Result<ReceiverState, PolicyError> {
    if r.pending.Some? || r.mode != NoRelayRequired then Failure(IssuanceUnavailable)
    else
      var known := if sender in r.holderSkews then r.holderSkews[sender] else 0;
      Success(r.(holders := r.holders + {sender}, holderSkews := r.holderSkews[sender := Max(skew, known)]))
  }

  function Prepared(r: ReceiverState, members: set<Octets>, effective: int, generation: int, digest: Octets,
      scope: Octets)
      : Result<ReceiverState, PolicyError> {
    if r.pending.Some? || members == {} then Failure(TransitionConflict)
    else Success(r.(pending := Some(Pending(members + r.holders, members, effective, generation, digest, {}, scope))))
  }

  function AcknowledgedBy(r: ReceiverState, sender: Octets, ack: StagingAck): Result<ReceiverState, PolicyError>
    requires r.pending.Some?
  {
    var p := r.pending.value;
    if sender !in p.required || ack != StagingAck(p.generation, p.digest) then Failure(StagingMismatch)
    else Success(r.(pending := Some(p.(acks := p.acks + {sender}))))
  }

  predicate CommittedCrosses(r: ReceiverState, p: Pending) {
    exists k :: k in r.committedThrough && k.1 == p.scope && r.committedThrough[k] >= p.effective
  }

  function CommitRequired(r: ReceiverState): Result<ReceiverState, PolicyError>
    requires r.pending.Some?
  {
    var p := r.pending.value;
    if p.required != p.members + r.holders || p.acks != p.required then Failure(MissingAcknowledgement)
    else if !r.historyKnown then Failure(UnknownHistory)
    else if CommittedCrosses(r, p) then Failure(HistoryCrosses)
    else Success(r.(mode := RelayRequired, pending := None))
  }

  // ------------------------------------------------------------------ facts about the functions

  lemma {:induction false} RaiseIs(through: map<Octets, int>, scopes: seq<Octets>, time: int, q: Octets)
    ensures q in Raise(through, scopes, time) <==> q in through || q in scopes
    ensures q in scopes ==> Raise(through, scopes, time)[q] == Max(time, if q in through then through[q] else -1)
    ensures q in through && q !in scopes ==> Raise(through, scopes, time)[q] == through[q]
  {
    if scopes != [] {
      var rest, last := scopes[..|scopes| - 1], scopes[|scopes| - 1];
      RaiseIs(through, rest, time, q);
      assert scopes == rest + [last];
    }
  }

  // The program's first failing scope decides.
  lemma {:induction false} ScopesChecked(s: SenderState, scopes: seq<Octets>, time: int)
    ensures CheckScopes(s, scopes, time).Success? <==> forall q :: q in scopes ==> CheckScope(s, q, time).Success?
    ensures CheckScopes(s, scopes, time).Success? ==> CheckScopes(s, scopes, time) == Success(())
  {
    if scopes != [] {
      ScopesChecked(s, scopes[1..], time);
      assert scopes == [scopes[0]] + scopes[1..];
    }
  }

  lemma ScopesPrefix(s: SenderState, scopes: seq<Octets>, time: int, i: nat)
    requires i < |scopes| && forall k :: 0 <= k < i ==> CheckScope(s, scopes[k], time).Success?
    ensures CheckScope(s, scopes[i], time).Failure? ==>
      CheckScopes(s, scopes, time) == Failure(CheckScope(s, scopes[i], time).error)
  {
    if i > 0 {
      ScopesPrefix(s, scopes[1..], time, i - 1);
    }
  }
}
