// What stands behind every admission and every staging, over all runs, and exactly when they succeed.
module WithdrawalAdmissions {
  import opened Wrappers
  import opened Arithmetic
  import opened Bytes
  import opened Withdrawal
  import opened WithdrawalProtocol
  import Exact = WithdrawalExact

  // Evidence good for an admission at the time: complete, in force, and of a known mode, with membership if relay is
  // required.
  predicate Usable(p: Policy, time: int) {
    && p.activated && p.authorized && p.contract
    && p.from <= time < p.until
    && (p.mode == NoRelayRequired || (p.mode == RelayRequired && p.member))
  }

  // No cap takes evidence of this generation away at the time.
  predicate Uncapped(caps: seq<Cap>, generation: int, time: int) {
    forall cap :: cap in caps ==> cap.generation <= generation || time < cap.boundary
  }

  // The sender may admit into the scope at the time.
  predicate MayUse(x: SenderState, q: Octets, time: int) {
    q in x.policies && Usable(x.policies[q], time) && Uncapped(CapsFor(x, q), x.policies[q].generation, time)
  }

  // ------------------------------------------------------------------ exactly when an admission succeeds

  lemma CappedIs(caps: seq<Cap>, generation: int, time: int)
    ensures Capped(caps, generation, time) <==> !Uncapped(caps, generation, time)
  {
    if cap :| cap in caps && generation < cap.generation && time >= cap.boundary {
      var i :| 0 <= i < |caps| && caps[i] == cap;
    }
  }

  // A new request is admitted exactly when the sender knows its history and may use its evidence for every scope.
  lemma AdmitsExactly(x: SenderState, scopes: seq<Octets>, time: int)
    ensures Refusal(x, scopes, time).Success? <==> x.historyKnown && forall q :: q in scopes ==> MayUse(x, q, time)
  {
    hide Capped, Uncapped, CheckScopes;
    ScopesChecked(x, scopes, time);
    forall q | q in scopes
      ensures CheckScope(x, q, time).Success? <==> MayUse(x, q, time)
    {
      ScopeExactly(x, q, time);
    }
  }

  lemma ScopeExactly(x: SenderState, q: Octets, time: int)
    ensures CheckScope(x, q, time).Success? <==> MayUse(x, q, time)
  {
    hide Capped, Uncapped;
    if q in x.policies {
      CappedIs(CapsFor(x, q), x.policies[q].generation, time);
    }
  }

  // What evidence lacks first decides the refusal.
  lemma ScopeRefusals(x: SenderState, q: Octets, time: int)
    ensures var r := CheckScope(x, q, time);
      if q !in x.policies then r == Failure(MissingEvidence)
      else
        var p := x.policies[q];
        && (!(p.activated && p.authorized && p.contract) ==> r == Failure(MissingEvidence))
        && (p.activated && p.authorized && p.contract ==>
              if !Uncapped(CapsFor(x, q), p.generation, time) then r == Failure(PermissionWithdrawn)
              else
                && (time < p.from || p.until <= time ==> r == Failure(OutsideCoverage))
                && (p.from <= time < p.until ==>
                      && (p.mode == UnknownMode ==> r == Failure(UnknownPolicy))
                      && (p.mode == RelayRequired && !p.member ==> r == Failure(NotMember))))
  {
    hide Capped, Uncapped;
    if q in x.policies {
      CappedIs(CapsFor(x, q), x.policies[q].generation, time);
    }
  }

  // The first scope that cannot be used decides; a sender that forgot its history is refused last.
  lemma RefusalExactly(x: SenderState, scopes: seq<Octets>, time: int, i: nat)
    requires i <= |scopes| && forall k :: 0 <= k < i ==> MayUse(x, scopes[k], time)
    ensures i < |scopes| && !MayUse(x, scopes[i], time) ==>
      CheckScope(x, scopes[i], time).Failure?
      && Refusal(x, scopes, time) == Failure(CheckScope(x, scopes[i], time).error)
    ensures i == |scopes| && !x.historyKnown ==> Refusal(x, scopes, time) == Failure(UnknownHistory)
  {
    hide CheckScope, MayUse;
    forall k | 0 <= k < |scopes|
      ensures CheckScope(x, scopes[k], time).Success? <==> MayUse(x, scopes[k], time)
    {
      ScopeExactly(x, scopes[k], time);
    }
    if i < |scopes| {
      ScopesPrefix(x, scopes, time, i);
    } else {
      ScopesChecked(x, scopes, time);
    }
  }

  // ------------------------------------------------------------------ what runs keep

  // What a sender holds was sent to it.
  ghost predicate Delivered(s: State, id: Octets, q: Octets) {
    id in s.senders && q in s.senders[id].policies ==> Evidence(id, q, s.senders[id].policies[q]) in s.evidence
  }

  // An admission was made under usable evidence that had been sent.
  ghost predicate Backed(s: State, a: Admission) {
    a in s.ledger.admissions ==> Evidence(a.sender, a.scope, a.policy) in s.evidence && Usable(a.policy, a.time)
  }

  ghost predicate AdmittedAt(s: State, id: Octets, q: Octets, time: int) {
    exists a :: a in s.ledger.admissions && a.sender == id && a.scope == q && a.time == time
  }

  // High-water marks and log entries are those of admissions.
  ghost predicate MarkAttained(s: State, id: Octets, q: Octets) {
    id in s.senders ==>
      var through := ThroughOf(s.senders[id], q); through == -1 || (through > -1 && AdmittedAt(s, id, q, through))
  }

  ghost predicate EntryAdmitted(s: State, id: Octets, e: Entry) {
    id in s.senders && e in s.senders[id].wal ==> forall q :: q in e.scopes ==> AdmittedAt(s, id, q, e.time)
  }

  // Requests are numbered from one, each once.
  ghost predicate RequestsNumbered(s: State, id: Octets) {
    id in s.senders ==>
      var x := s.senders[id];
      && x.lastSequence == |x.outcomes|
      && (forall r :: r in x.outcomes ==> 1 <= x.outcomes[r] <= x.lastSequence)
      && (forall r, r' :: r in x.outcomes && r' in x.outcomes && x.outcomes[r] == x.outcomes[r'] ==> r == r')
  }

  ghost predicate Recorded(s: State) {
    && (forall id, q {:trigger Delivered(s, id, q)} :: Delivered(s, id, q))
    && (forall a {:trigger Backed(s, a)} :: Backed(s, a))
    && (forall id, q {:trigger MarkAttained(s, id, q)} :: MarkAttained(s, id, q))
    && (forall id, e {:trigger EntryAdmitted(s, id, e)} :: EntryAdmitted(s, id, e))
    && (forall id {:trigger RequestsNumbered(s, id)} :: RequestsNumbered(s, id))
  }

  ghost predicate FreshInit(s: State) {
    Init(s) && forall id :: id in s.senders ==> s.senders[id].lastSequence == 0
  }

  lemma InitRecorded(s: State)
    requires FreshInit(s)
    ensures Recorded(s)
  {
  }

  lemma AdmittedAtKept(s: State, s': State, id: Octets, q: Octets, time: int)
    requires AdmittedAt(s, id, q, time) && s.ledger.admissions <= s'.ledger.admissions
    ensures AdmittedAt(s', id, q, time)
  {
    var a :| a in s.ledger.admissions && a.sender == id && a.scope == q && a.time == time;
    var k :| 0 <= k < |s.ledger.admissions| && s.ledger.admissions[k] == a;
    assert s'.ledger.admissions[k] == a;
  }

  lemma AdmissionIn(x: SenderState, id: Octets, scopes: seq<Octets>, time: int, a: Admission)
    requires forall q :: q in scopes ==> q in x.policies
    ensures a in AdmissionsOf(x, id, scopes, time) <==>
      a.scope in scopes && a == Admission(id, a.scope, time, x.policies[a.scope])
  {
    var r := AdmissionsOf(x, id, scopes, time);
    if a.scope in scopes && a == Admission(id, a.scope, time, x.policies[a.scope]) {
      var k :| 0 <= k < |scopes| && scopes[k] == a.scope;
      assert r[k] == a;
    }
  }

  lemma AdmitAttained(s: State, s': State, id: Octets, request: Octets, scopes: seq<Octets>, time: int,
      k: Octets, q: Octets)
    requires Recorded(s) && StepAdmit(s, s', id, request, scopes, time) && s' != s
    ensures MarkAttained(s', k, q)
  {
    hide Refusal, Delivered, Backed, EntryAdmitted, RequestsNumbered;
    NextExtends(s, s', Admit(id, request, scopes, time));
    var x := s.senders[id];
    assert MarkAttained(s, k, q);
    if k in s.senders && ThroughOf(s.senders[k], q) > -1 {
      AdmittedAtKept(s, s', k, q, ThroughOf(s.senders[k], q));
    }
    if k == id {
      RaiseIs(x.admittedThrough, scopes, time, q);
      if q in scopes {
        var a := Admission(id, q, time, x.policies[q]);
        AdmissionIn(x, id, scopes, time, a);
        assert a in s'.ledger.admissions;
        assert AdmittedAt(s', id, q, time);
      }
    }
  }

  lemma AdmitBacked(s: State, s': State, id: Octets, request: Octets, scopes: seq<Octets>, time: int, a: Admission)
    requires Recorded(s) && StepAdmit(s, s', id, request, scopes, time) && s' != s
    ensures Backed(s', a)
  {
    hide MarkAttained, EntryAdmitted, RequestsNumbered, Refusal;
    var x := s.senders[id];
    AdmitsExactly(x, scopes, time);
    AdmissionIn(x, id, scopes, time, a);
    assert Backed(s, a);
    assert Delivered(s, id, a.scope);
    if a in s'.ledger.admissions && a !in s.ledger.admissions {
      assert MayUse(x, a.scope, time);
    }
  }

  lemma AdmitEntry(s: State, s': State, id: Octets, request: Octets, scopes: seq<Octets>, time: int, k: Octets,
      e: Entry)
    requires Recorded(s) && StepAdmit(s, s', id, request, scopes, time) && s' != s
    ensures EntryAdmitted(s', k, e)
  {
    hide Refusal, Delivered, Backed, MarkAttained, RequestsNumbered, Raise;
    NextExtends(s, s', Admit(id, request, scopes, time));
    assert EntryAdmitted(s, k, e);
    if k in s'.senders && e in s'.senders[k].wal {
      forall q | q in e.scopes
        ensures AdmittedAt(s', k, q, e.time)
      {
        if e in s.senders[k].wal {
          AdmittedAtKept(s, s', k, q, e.time);
        } else {
          var a := Admission(id, q, time, s.senders[id].policies[q]);
          AdmissionIn(s.senders[id], id, scopes, time, a);
          assert a in s'.ledger.admissions;
        }
      }
    }
  }

  lemma AdmitNumbered(s: State, s': State, id: Octets, request: Octets, scopes: seq<Octets>, time: int, k: Octets)
    requires Recorded(s) && StepAdmit(s, s', id, request, scopes, time) && s' != s
    ensures RequestsNumbered(s', k)
  {
    hide Refusal, Delivered, Backed, MarkAttained, EntryAdmitted, Raise;
    assert RequestsNumbered(s, k);
    if k == id {
      var x := s.senders[id];
      assert |x.outcomes[request := x.lastSequence + 1]| == |x.outcomes| + 1;
    }
  }

  lemma AdmitRecorded(s: State, s': State, id: Octets, request: Octets, scopes: seq<Octets>, time: int)
    requires Recorded(s) && StepAdmit(s, s', id, request, scopes, time) && s' != s
    ensures Recorded(s')
  {
    hide Backed, MarkAttained, EntryAdmitted, RequestsNumbered, Refusal;
    forall k, q
      ensures Delivered(s', k, q) && MarkAttained(s', k, q)
    {
      assert Delivered(s, k, q);
      AdmitAttained(s, s', id, request, scopes, time, k, q);
    }
    forall a
      ensures Backed(s', a)
    {
      AdmitBacked(s, s', id, request, scopes, time, a);
    }
    forall k, e
      ensures EntryAdmitted(s', k, e)
    {
      AdmitEntry(s, s', id, request, scopes, time, k, e);
    }
    forall k
      ensures RequestsNumbered(s', k)
    {
      AdmitNumbered(s, s', id, request, scopes, time, k);
    }
  }

  // A step that admits nothing, and changes at most one sender's evidence, caps, log or marks.
  ghost predicate Quiet(s: State, s': State) {
    && s'.ledger.admissions == s.ledger.admissions && s.evidence <= s'.evidence && s'.senders.Keys == s.senders.Keys
    && forall id :: id in s.senders ==>
         var x, x' := s.senders[id], s'.senders[id];
         && x'.lastSequence == x.lastSequence && x'.outcomes == x.outcomes
         && (forall e :: e in x'.wal ==> e in x.wal)
         && (x'.admittedThrough == x.admittedThrough || x'.admittedThrough == map[])
         && (forall q :: q in x'.policies ==>
               (q in x.policies && x'.policies[q] == x.policies[q]) || Evidence(id, q, x'.policies[q]) in s.evidence)
  }

  lemma QuietRecorded(s: State, s': State)
    requires Recorded(s) && Quiet(s, s')
    ensures Recorded(s')
  {
    forall id, q
      ensures Delivered(s', id, q) && MarkAttained(s', id, q)
    {
      assert Delivered(s, id, q);
      assert MarkAttained(s, id, q);
      if id in s.senders && ThroughOf(s.senders[id], q) > -1 {
        AdmittedAtKept(s, s', id, q, ThroughOf(s.senders[id], q));
      }
    }
    forall a
      ensures Backed(s', a)
    {
      assert Backed(s, a);
    }
    forall id, e
      ensures EntryAdmitted(s', id, e)
    {
      assert EntryAdmitted(s, id, e);
      if id in s'.senders && e in s'.senders[id].wal {
        forall q | q in e.scopes
          ensures AdmittedAt(s', id, q, e.time)
        {
          AdmittedAtKept(s, s', id, q, e.time);
        }
      }
    }
    forall id
      ensures RequestsNumbered(s', id)
    {
      assert RequestsNumbered(s, id);
    }
  }

  // A step of the sender that admits nothing.
  lemma SenderQuiet(s: State, s': State, step: Step)
    requires Next(s, s', step)
    requires step.DeliverEvidence? || step.Prune? || step.ForgetHistory? || step.Stage? || (step.Admit? && s' == s)
    ensures Quiet(s, s')
  {
    hide Refusal, Raise, Latest, CapsFor;
  }

  lemma StepQuiet(s: State, s': State, step: Step)
    requires Next(s, s', step) && (!step.Admit? || s' == s)
    ensures Quiet(s, s')
  {
    hide Refusal, CommittedCrosses, Raise, Latest, CapsFor, AcknowledgedBy, CommitRequired, Prepared, Issued;
    if step.DeliverEvidence? || step.Prune? || step.ForgetHistory? || step.Stage? || step.Admit? {
      SenderQuiet(s, s', step);
    } else {
      hide StepAdmit, StepDeliver, StepPrune, StepForget, StepStage;
    }
  }

  lemma {:induction false} RunRecorded(states: seq<State>, steps: seq<Step>, i: nat)
    requires Run(states, steps) && FreshInit(states[0]) && i < |states|
    ensures Recorded(states[i])
  {
    hide Recorded, Next, Init, FreshInit;
    if i == 0 {
      InitRecorded(states[0]);
    } else {
      RunRecorded(states, steps, i - 1);
      NextRecorded(states[i - 1], states[i], steps[i - 1]);
    }
  }

  lemma NextRecorded(s: State, s': State, step: Step)
    requires Recorded(s) && Next(s, s', step)
    ensures Recorded(s')
  {
    hide Recorded, Quiet, StepAdmit;
    if step.Admit? && s' != s {
      AdmitRecorded(s, s', step.sender, step.request, step.scopes, step.time);
    } else {
      StepQuiet(s, s', step);
      QuietRecorded(s, s');
    }
  }

  // ------------------------------------------------------------------ guarantees

  // Every admission ever made was made under evidence that had been sent to that sender for that scope, complete, in
  // force at the admission's time, of a known mode, with membership when relay was required.
  lemma AdmissionsHaveEvidence(states: seq<State>, steps: seq<Step>, i: nat, a: Admission)
    requires Run(states, steps) && FreshInit(states[0]) && i < |states| && a in states[i].ledger.admissions
    ensures Evidence(a.sender, a.scope, a.policy) in states[i].evidence && Usable(a.policy, a.time)
  {
    hide Run;
    RunRecorded(states, steps, i);
    assert Backed(states[i], a);
  }

  // Conversely: a step that submits a new request admits it, once for each scope and under the next number, exactly
  // when history is known and the evidence for every scope may be used; otherwise it changes nothing.
  lemma AdmitStepExactly(s: State, s': State, id: Octets, request: Octets, scopes: seq<Octets>, time: int)
    requires Next(s, s', Admit(id, request, scopes, time)) && request !in s.senders[id].outcomes
    ensures var x := s.senders[id];
      if x.historyKnown && forall q :: q in scopes ==> MayUse(x, q, time) then
        && id in s'.senders && s'.senders[id].outcomes == x.outcomes[request := x.lastSequence + 1]
        && (forall q :: q in scopes ==> q in x.policies)
        && s'.ledger.admissions == s.ledger.admissions + AdmissionsOf(x, id, scopes, time)
      else s' == s
  {
    hide Refusal, MayUse, Raise;
    AdmitsExactly(s.senders[id], scopes, time);
  }

  // Every request a sender ever admitted has its own number, and the numbers are one to their count.
  lemma RequestsHaveOwnNumbers(states: seq<State>, steps: seq<Step>, i: nat, id: Octets)
    requires Run(states, steps) && FreshInit(states[0]) && i < |states| && id in states[i].senders
    ensures var x := states[i].senders[id];
      && x.lastSequence == |x.outcomes|
      && (forall r :: r in x.outcomes ==> 1 <= x.outcomes[r] <= |x.outcomes|)
      && (forall r, r' :: r in x.outcomes && r' in x.outcomes && x.outcomes[r] == x.outcomes[r'] ==> r == r')
  {
    hide Run;
    RunRecorded(states, steps, i);
    assert RequestsNumbered(states[i], id);
  }

  lemma {:induction false} LatestIs(base: int, wal: seq<Entry>, scope: Octets)
    ensures Latest(base, wal, scope) == base
      || exists e :: e in wal && scope in e.scopes && e.time == Latest(base, wal, scope)
  {
    if wal != [] {
      var rest, last := wal[..|wal| - 1], wal[|wal| - 1];
      LatestIs(base, rest, scope);
      assert wal == rest + [last];
    }
  }

  // In every reachable state, staging a withdrawal succeeds exactly when the sender knows its history, the boundary is
  // not negative, and the sender has never admitted into the scope at or past it - pruned or not.
  lemma StageExactly(states: seq<State>, steps: seq<Step>, i: nat, id: Octets, p: Pending)
    requires Run(states, steps) && FreshInit(states[0]) && i < |states| && id in states[i].senders
    ensures var s := states[i];
      Staged(s.senders[id], p.scope, p).1.Success? <==>
        && s.senders[id].historyKnown && p.effective > -1
        && forall a :: a in s.ledger.admissions && a.sender == id && a.scope == p.scope ==> a.time < p.effective
  {
    hide Run, Latest, Recorded, Inv;
    RunRecorded(states, steps, i);
    RunInv(states, steps, i);
    StageMarks(states[i], id, p);
  }

  lemma StageMarks(s: State, id: Octets, p: Pending)
    requires Recorded(s) && Inv(s) && id in s.senders
    ensures Staged(s.senders[id], p.scope, p).1.Success? <==>
      && s.senders[id].historyKnown && p.effective > -1
      && forall a :: a in s.ledger.admissions && a.sender == id && a.scope == p.scope ==> a.time < p.effective
  {
    hide Latest, Respects, Backed, Delivered, RequestsNumbered, ReceiverOk, EvidenceOk;
    var x := s.senders[id];
    var high := HighWater(x, p.scope);
    assert MarkAttained(s, id, p.scope);
    LatestAtLeast(ThroughOf(x, p.scope), x.wal, p.scope);
    LatestIs(ThroughOf(x, p.scope), x.wal, p.scope);
    if high > -1 {
      assert AdmittedAt(s, id, p.scope, high) by {
        if high != ThroughOf(x, p.scope) {
          var e :| e in x.wal && p.scope in e.scopes && e.time == high;
          assert EntryAdmitted(s, id, e);
        }
      }
    }
    if x.historyKnown {
      forall a | a in s.ledger.admissions && a.sender == id && a.scope == p.scope
        ensures a.time <= high
      {
        assert Marked(s, a);
      }
    }
  }

  // Whatever staging answers, it adds exactly the one cap, and changes nothing else.
  lemma StagingCaps(x: SenderState, p: Pending, q: Octets, c: Cap)
    ensures var (x', r) := Staged(x, p.scope, p);
      && x' == x.(caps := x'.caps)
      && (c in CapsFor(x', q) <==> c in CapsFor(x, q) || (q == p.scope && c == Cap(p.generation, p.effective)))
      && (r.Success? ==> r.value == StagingAck(p.generation, p.digest))
      && (r.Failure? ==> r.error == if x.historyKnown then HistoryCrosses else UnknownHistory)
  {
    hide Latest;
  }

  // So a sender that was asked to stage is stopped for good, even when it had to refuse: it never again admits into the
  // scope, at or past the boundary, under older evidence.
  lemma StagedForGood(s: State, s': State, id: Octets, p: Pending)
    requires StepStage(s, s', id, p)
    ensures Exact.SafeFromNowOn(s', id, BoundaryOf(p))
  {
    hide Latest, Next, Exact.SafeFromNowOn;
    StagingCaps(s.senders[id], p, p.scope, Cap(p.generation, p.effective));
    Exact.ExactlyWhenSafe(s', id, BoundaryOf(p));
  }

  // ------------------------------------------------------------------ the receiver's ledger

  // Issuing records the holder and the largest skew it was ever issued with; it is refused exactly while a transition
  // is pending or relay is required.
  lemma IssueExactly(r: ReceiverState, sender: Octets, skew: int)
    ensures Issued(r, sender, skew).Success? <==> r.pending == None && r.mode == NoRelayRequired
    ensures Issued(r, sender, skew).Success? ==>
      var r' := Issued(r, sender, skew).value;
      && r'.holders == r.holders + {sender} && r' == r.(holders := r'.holders, holderSkews := r'.holderSkews)
      && r'.holderSkews.Keys == r.holderSkews.Keys + {sender}
      && (forall k :: k in r.holderSkews && k != sender ==> r'.holderSkews[k] == r.holderSkews[k])
      && var before, after := if sender in r.holderSkews then r.holderSkews[sender] else 0, r'.holderSkews[sender];
         after >= skew && after >= before && (after == skew || after == before)
  {
  }

  // A transition can be prepared exactly when none is pending and it has members.
  lemma PrepareExactly(r: ReceiverState, members: set<Octets>, effective: int, generation: int, digest: Octets,
      scope: Octets)
    ensures var prepared := Prepared(r, members, effective, generation, digest, scope);
      && (prepared.Success? <==> r.pending == None && members != {})
      && (prepared.Success? ==>
            var p := prepared.value.pending;
            && p.Some? && prepared.value == r.(pending := p) && p.value.acks == {} && p.value.members == members
            && (forall id :: id in p.value.required <==> id in members || id in r.holders)
            && BoundaryOf(p.value) == Boundary(scope, generation, effective) && p.value.digest == digest)
  {
  }

  // An acknowledgement counts exactly when it is from a required sender and for exactly the pending transition.
  lemma AcknowledgeExactly(r: ReceiverState, sender: Octets, ack: StagingAck)
    requires r.pending.Some?
    ensures var p, result := r.pending.value, AcknowledgedBy(r, sender, ack);
      && (result.Success? <==>
            sender in p.required && ack.generation == p.generation && ack.digest == p.digest)
      && (result.Success? ==>
            var p' := result.value.pending;
            && p'.Some? && result.value == r.(pending := p') && p'.value == p.(acks := p'.value.acks)
            && forall id :: id in p'.value.acks <==> id in p.acks || id == sender)
  {
  }

  // In every reachable state with a transition pending, the commit succeeds exactly when every member and every holder
  // has acknowledged, nobody else has, the committed history is known, and nothing in it crosses the boundary.
  lemma CommitExactly(states: seq<State>, steps: seq<Step>, i: nat)
    requires Run(states, steps) && i < |states| && states[i].receiver.pending.Some?
    ensures var r, p := states[i].receiver, states[i].receiver.pending.value;
      CommitRequired(r).Success? <==>
        && (forall id :: id in p.acks <==> id in p.members || id in r.holders)
        && r.historyKnown
        && forall k :: k in r.committedThrough && k.1 == p.scope ==> r.committedThrough[k] < p.effective
    ensures var r := states[i].receiver;
      CommitRequired(r).Success? ==>
        CommitRequired(r).value.mode == RelayRequired && CommitRequired(r).value.pending == None
        && CommitRequired(r).value.(mode := r.mode, pending := r.pending) == r
  {
    RunInv(states, steps, i);
    var r, p := states[i].receiver, states[i].receiver.pending.value;
    assert PendingOk(states[i]);
    assert (forall id :: id in p.acks <==> id in p.members || id in r.holders) <==> p.acks == p.members + r.holders;
  }
}
