// Many senders and one receiver withdrawing no-relay permission: every interleaving, with lost and late deliveries.
//
// Evidence for no relay is sent only when it is issued, and acknowledgements only by senders whose staging succeeded;
// a digest stands for one scope, generation and effective time. Beyond that, evidence of any kind may be sent and
// delivered at any time, and staging requests may reach a sender late, repeatedly, or never.
module WithdrawalProtocol {
  import opened Wrappers
  import opened Arithmetic
  import opened Bytes
  import opened Withdrawal

  datatype Evidence = Evidence(sender: Octets, scope: Octets, policy: Policy)

  datatype Ack = Ack(sender: Octets, ack: StagingAck)

  // What a transition is about, and what its digest stands for.
  datatype Boundary = Boundary(scope: Octets, generation: int, effective: int)

  // An admission into a scope, with the evidence it was admitted under.
  datatype Admission = Admission(sender: Octets, scope: Octets, time: int, policy: Policy)

  datatype Transition = Transition(boundary: Boundary, required: set<Octets>)

  // Everything that ever happened, for the statements only.
  datatype Ledger = Ledger(
    admissions: seq<Admission>,
    staged: set<(Octets, Boundary)>,
    committed: seq<Transition>,
    digests: map<Octets, Boundary>)

  datatype State = State(
    senders: map<Octets, SenderState>,
    receiver: ReceiverState,
    evidence: set<Evidence>,
    requests: set<Pending>,
    acks: set<Ack>,
    ledger: Ledger)

  datatype Step =
    | IssueNoRelay(sender: Octets, skew: int, scope: Octets, policy: Policy)
    | SendRequired(sender: Octets, scope: Octets, policy: Policy)
    | DeliverEvidence(evidence: Evidence)
    | Admit(sender: Octets, request: Octets, scopes: seq<Octets>, time: int)
    | Prune(sender: Octets, kept: seq<Entry>)
    | ForgetHistory(sender: Octets)
    | Prepare(members: set<Octets>, effective: int, generation: int, digest: Octets, scope: Octets)
    | Stage(sender: Octets, pending: Pending)
    | DeliverAck(ack: Ack)
    | RecordCommitted(sender: Octets, scope: Octets, time: int)
    | Commit

  predicate NewSender(s: SenderState) {
    s.policies == map[] && s.wal == [] && s.admittedThrough == map[] && s.outcomes == map[] && s.caps == map[]
  }

  ghost predicate Init(s: State) {
    && (forall id :: id in s.senders ==> NewSender(s.senders[id]))
    && s.receiver.holders == {} && s.receiver.pending == None
    && s.evidence == {} && s.requests == {} && s.acks == {}
    && s.ledger == Ledger([], {}, [], map[])
  }

  // One admission for each scope of the event.
  function AdmissionsOf(s: SenderState, id: Octets, scopes: seq<Octets>, time: int): (r: seq<Admission>)
    requires forall q :: q in scopes ==> q in s.policies
    ensures |r| == |scopes|
    ensures forall k :: 0 <= k < |r| ==>
      r[k] == Admission(id, scopes[k], time, s.policies[scopes[k]])
  {
    seq(|scopes|, k requires 0 <= k < |scopes| => Admission(id, scopes[k], time, s.policies[scopes[k]]))
  }

  function BoundaryOf(p: Pending): Boundary {
    Boundary(p.scope, p.generation, p.effective)
  }

  function WithSender(s: State, id: Octets, x: SenderState): State {
    s.(senders := s.senders[id := x])
  }

  ghost predicate StepIssue(s: State, s': State, sender: Octets, skew: int, scope: Octets, policy: Policy) {
    && policy.mode == NoRelayRequired
    && match Issued(s.receiver, sender, skew)
       case Failure(_) => s' == s
       // recorded before the response, which may still be lost
       case Success(r) => s' == s.(receiver := r, evidence := s.evidence + {Evidence(sender, scope, policy)})
  }

  ghost predicate StepSendRequired(s: State, s': State, sender: Octets, scope: Octets, policy: Policy) {
    policy.mode != NoRelayRequired && s' == s.(evidence := s.evidence + {Evidence(sender, scope, policy)})
  }

  ghost predicate StepDeliver(s: State, s': State, e: Evidence) {
    && e in s.evidence && e.sender in s.senders
    && var x := s.senders[e.sender];
       s' == WithSender(s, e.sender, x.(policies := x.policies[e.scope := e.policy]))
  }

  ghost predicate StepAdmit(s: State, s': State, id: Octets, request: Octets, scopes: seq<Octets>, time: int) {
    && id in s.senders
    && var x := s.senders[id];
       if request in x.outcomes || Refusal(x, scopes, time).Failure? then s' == s
       else
         && (forall q :: q in scopes ==> q in x.policies)
         && s' == WithSender(s, id, Admitted(x, request, scopes, time)).(
              ledger := s.ledger.(admissions := s.ledger.admissions + AdmissionsOf(x, id, scopes, time)))
  }

  // The log loses entries; the high-water marks stay.
  ghost predicate StepPrune(s: State, s': State, id: Octets, kept: seq<Entry>) {
    && id in s.senders && (forall e :: e in kept ==> e in s.senders[id].wal)
    && s' == WithSender(s, id, s.senders[id].(wal := kept))
  }

  // A sender that can no longer vouch for its history says so.
  ghost predicate StepForget(s: State, s': State, id: Octets) {
    && id in s.senders
    && s' == WithSender(s, id, s.senders[id].(historyKnown := false, wal := [], admittedThrough := map[]))
  }

  ghost predicate StepPrepare(s: State, s': State, members: set<Octets>, effective: int, generation: int,
      digest: Octets, scope: Octets) {
    && (digest in s.ledger.digests ==> s.ledger.digests[digest] == Boundary(scope, generation, effective))
    && match Prepared(s.receiver, members, effective, generation, digest, scope)
       case Failure(_) => s' == s
       case Success(r) =>
         r.pending.Some?
         && s' == s.(receiver := r, requests := s.requests + {r.pending.value},
                     ledger := s.ledger.(digests := s.ledger.digests[digest := Boundary(scope, generation, effective)]))
  }

  ghost predicate StepStage(s: State, s': State, id: Octets, p: Pending) {
    && id in s.senders && p in s.requests
    && var (x, r) := Staged(s.senders[id], p.scope, p);
       match r
       case Failure(_) => s' == WithSender(s, id, x)
       case Success(ack) =>
         s' == WithSender(s, id, x).(
           acks := s.acks + {Ack(id, ack)},
           ledger := s.ledger.(staged := s.ledger.staged + {(id, BoundaryOf(p))}))
  }

  ghost predicate StepDeliverAck(s: State, s': State, a: Ack) {
    && a in s.acks && s.receiver.pending.Some?
    && match AcknowledgedBy(s.receiver, a.sender, a.ack)
       case Failure(_) => s' == s
       case Success(r) => s' == s.(receiver := r)
  }

  ghost predicate StepRecord(s: State, s': State, sender: Octets, scope: Octets, time: int) {
    var c := s.receiver.committedThrough;
    var k := (sender, scope);
    s' == s.(receiver := s.receiver.(committedThrough := c[k := Max(time, if k in c then c[k] else -1)]))
  }

  ghost predicate StepCommit(s: State, s': State) {
    && s.receiver.pending.Some?
    && var p := s.receiver.pending.value;
       match CommitRequired(s.receiver)
       case Failure(_) => s' == s
       case Success(r) =>
         s' == s.(receiver := r,
                  ledger := s.ledger.(committed := s.ledger.committed + [Transition(BoundaryOf(p), p.required)]))
  }

  ghost predicate Next(s: State, s': State, step: Step) {
    match step
    case IssueNoRelay(sender, skew, scope, policy) => StepIssue(s, s', sender, skew, scope, policy)
    case SendRequired(sender, scope, policy) => StepSendRequired(s, s', sender, scope, policy)
    case DeliverEvidence(e) => StepDeliver(s, s', e)
    case Admit(sender, request, scopes, time) => StepAdmit(s, s', sender, request, scopes, time)
    case Prune(sender, kept) => StepPrune(s, s', sender, kept)
    case ForgetHistory(sender) => StepForget(s, s', sender)
    case Prepare(members, effective, generation, digest, scope) =>
      StepPrepare(s, s', members, effective, generation, digest, scope)
    case Stage(sender, p) => StepStage(s, s', sender, p)
    case DeliverAck(a) => StepDeliverAck(s, s', a)
    case RecordCommitted(sender, scope, time) => StepRecord(s, s', sender, scope, time)
    case Commit => StepCommit(s, s')
  }

  ghost predicate Run(states: seq<State>, steps: seq<Step>) {
    && |states| == |steps| + 1
    && Init(states[0])
    && forall i :: 0 <= i < |steps| ==> Next(states[i], states[i + 1], steps[i])
  }

  // ------------------------------------------------------------------ the invariant

  // A sender that knows its history has not admitted past its high-water marks.
  ghost predicate Marked(s: State, a: Admission) {
    a in s.ledger.admissions ==>
      a.sender in s.senders
      && (s.senders[a.sender].historyKnown ==> a.time <= ThroughOf(s.senders[a.sender], a.scope))
  }

  // A staged boundary is capped, and nothing at or past it was admitted under an older generation.
  ghost predicate Respects(s: State, id: Octets, b: Boundary) {
    (id, b) in s.ledger.staged ==>
      && id in s.senders && Cap(b.generation, b.effective) in CapsFor(s.senders[id], b.scope)
      && forall a :: a in s.ledger.admissions && a.sender == id && a.scope == b.scope && a.time >= b.effective ==>
           a.policy.generation >= b.generation
  }

  ghost predicate SendersOk(s: State) {
    && (forall a {:trigger Marked(s, a)} :: Marked(s, a))
    && (forall id, b {:trigger Respects(s, id, b)} :: Respects(s, id, b))
  }

  // A digest names the boundary that was staged under it.
  ghost predicate AckedOk(s: State, a: Ack) {
    a in s.acks ==>
      a.ack.digest in s.ledger.digests && s.ledger.digests[a.ack.digest].generation == a.ack.generation
      && (a.sender, s.ledger.digests[a.ack.digest]) in s.ledger.staged
  }

  ghost predicate RequestOk(s: State, p: Pending) {
    p in s.requests ==> p.digest in s.ledger.digests && s.ledger.digests[p.digest] == BoundaryOf(p)
  }

  ghost predicate PendingOk(s: State) {
    s.receiver.pending.Some? ==>
      var p := s.receiver.pending.value;
      && p.digest in s.ledger.digests && s.ledger.digests[p.digest] == BoundaryOf(p)
      && p.required == p.members + s.receiver.holders
      && forall id :: id in p.acks ==> (id, BoundaryOf(p)) in s.ledger.staged
  }

  ghost predicate CommittedOk(s: State, i: int) {
    0 <= i < |s.ledger.committed| ==>
      && s.receiver.mode != NoRelayRequired
      && s.receiver.holders <= s.ledger.committed[i].required
      && forall id :: id in s.ledger.committed[i].required ==> (id, s.ledger.committed[i].boundary) in s.ledger.staged
  }

  ghost predicate ReceiverOk(s: State) {
    && (forall a {:trigger AckedOk(s, a)} :: AckedOk(s, a))
    && (forall p {:trigger RequestOk(s, p)} :: RequestOk(s, p))
    && PendingOk(s)
    && (forall i {:trigger CommittedOk(s, i)} :: CommittedOk(s, i))
  }

  // No-relay evidence is only ever with a holder.
  ghost predicate Present(s: State, e: Evidence) {
    || e in s.evidence
    || (e.sender in s.senders && e.scope in s.senders[e.sender].policies
        && s.senders[e.sender].policies[e.scope] == e.policy)
  }

  ghost predicate HeldBy(s: State, e: Evidence) {
    Present(s, e) && e.policy.mode == NoRelayRequired ==> e.sender in s.receiver.holders
  }

  ghost predicate EvidenceOk(s: State) {
    && (forall e {:trigger HeldBy(s, e)} :: HeldBy(s, e))
    && (forall a :: a in s.ledger.admissions && a.policy.mode == NoRelayRequired ==> a.sender in s.receiver.holders)
  }

  ghost predicate Inv(s: State) {
    SendersOk(s) && ReceiverOk(s) && EvidenceOk(s)
  }

  lemma InitInv(s: State)
    requires Init(s)
    ensures Inv(s)
  {
  }

  // ------------------------------------------------------------------ steps of a sender

  lemma {:induction false} LatestAtLeast(base: int, wal: seq<Entry>, scope: Octets)
    ensures Latest(base, wal, scope) >= base
    ensures forall e :: e in wal && scope in e.scopes ==> Latest(base, wal, scope) >= e.time
  {
    if wal != [] {
      var rest, last := wal[..|wal| - 1], wal[|wal| - 1];
      LatestAtLeast(base, rest, scope);
      assert wal == rest + [last];
    }
  }

  lemma PassedScope(x: SenderState, scopes: seq<Octets>, time: int, q: Octets)
    requires Refusal(x, scopes, time).Success? && q in scopes
    ensures q in x.policies && !Capped(CapsFor(x, q), x.policies[q].generation, time)
  {
    ScopesChecked(x, scopes, time);
    assert CheckScope(x, q, time).Success?;
  }

  lemma AdmitMarked(s: State, s': State, id: Octets, request: Octets, scopes: seq<Octets>, time: int, a: Admission)
    requires SendersOk(s) && StepAdmit(s, s', id, request, scopes, time) && s' != s
    ensures Marked(s', a)
  {
    hide Refusal;
    var x := s.senders[id];
    assert Marked(s, a);
    if a in s'.ledger.admissions && a.sender == id {
      RaiseIs(x.admittedThrough, scopes, time, a.scope);
    }
  }

  lemma AdmitRespects(s: State, s': State, id: Octets, request: Octets, scopes: seq<Octets>, time: int,
      k: Octets, b: Boundary)
    requires SendersOk(s) && StepAdmit(s, s', id, request, scopes, time) && s' != s
    ensures Respects(s', k, b)
  {
    hide Refusal;
    var x := s.senders[id];
    assert Respects(s, k, b);
    if (k, b) in s.ledger.staged {
      forall a | a in s'.ledger.admissions && a.sender == k && a.scope == b.scope && a.time >= b.effective
        ensures a.policy.generation >= b.generation
      {
        if a !in s.ledger.admissions {
          PassedScope(x, scopes, time, a.scope);
          var caps := CapsFor(x, a.scope);
          var i :| 0 <= i < |caps| && caps[i] == Cap(b.generation, b.effective);
        }
      }
    }
  }

  lemma AdmitInv(s: State, s': State, id: Octets, request: Octets, scopes: seq<Octets>, time: int)
    requires Inv(s) && StepAdmit(s, s', id, request, scopes, time)
    ensures Inv(s')
  {
    if s' != s {
      hide Refusal, CheckScope, CheckScopes, Raise, Marked, Respects, Capped;
      forall a
        ensures Marked(s', a)
      {
        AdmitMarked(s, s', id, request, scopes, time, a);
      }
      forall k, b
        ensures Respects(s', k, b)
      {
        AdmitRespects(s, s', id, request, scopes, time, k, b);
      }
      SameReceiver(s, s');
      forall e
        ensures HeldBy(s', e)
      {
        assert HeldBy(s, e);
      }
      forall a | a in s'.ledger.admissions && a.policy.mode == NoRelayRequired
        ensures a.sender in s'.receiver.holders
      {
        if a !in s.ledger.admissions {
          assert HeldBy(s, Evidence(id, a.scope, s.senders[id].policies[a.scope]));
        }
      }
    }
  }

  // The receiver's part of the invariant looks at no sender.
  lemma SameReceiver(s: State, s': State)
    requires ReceiverOk(s) && s'.receiver == s.receiver && s'.requests == s.requests && s'.acks == s.acks
    requires s'.ledger.committed == s.ledger.committed && s'.ledger.digests == s.ledger.digests
    requires s.ledger.staged <= s'.ledger.staged
    ensures ReceiverOk(s')
  {
    forall a
      ensures AckedOk(s', a)
    {
      assert AckedOk(s, a);
    }
    forall p
      ensures RequestOk(s', p)
    {
      assert RequestOk(s, p);
    }
    forall i
      ensures CommittedOk(s', i)
    {
      assert CommittedOk(s, i);
    }
  }

  // A step that changes one sender, but neither its caps nor what anyone admitted or staged.
  ghost predicate Lesser(s: State, s': State, id: Octets) {
    && id in s.senders && id in s'.senders
    && var x, x' := s.senders[id], s'.senders[id];
       && s'.senders == s.senders[id := x'] && s'.ledger == s.ledger
       && x'.caps == x.caps
       && (x'.historyKnown ==> x.historyKnown && x'.admittedThrough == x.admittedThrough)
  }

  lemma LesserSenders(s: State, s': State, id: Octets)
    requires SendersOk(s) && Lesser(s, s', id)
    ensures SendersOk(s')
  {
    forall a
      ensures Marked(s', a)
    {
      assert Marked(s, a);
    }
    forall k, b
      ensures Respects(s', k, b)
    {
      assert Respects(s, k, b);
    }
  }

  lemma SenderStepInv(s: State, s': State, step: Step)
    requires Inv(s) && Next(s, s', step) && (step.DeliverEvidence? || step.Prune? || step.ForgetHistory?)
    ensures Inv(s')
  {
    hide SendersOk;
    var id := if step.DeliverEvidence? then step.evidence.sender else step.sender;
    LesserSenders(s, s', id);
    SameReceiver(s, s');
    forall e
      ensures HeldBy(s', e)
    {
      assert HeldBy(s, e);
      if step.DeliverEvidence? {
        assert HeldBy(s, step.evidence);
      }
    }
  }

  lemma StageRespects(s: State, s': State, id: Octets, p: Pending, k: Octets, b: Boundary)
    requires SendersOk(s) && StepStage(s, s', id, p)
    ensures Respects(s', k, b)
  {
    var x := s.senders[id];
    assert Respects(s, k, b);
    if (k, b) in s'.ledger.staged && (k, b) !in s.ledger.staged {
      forall a | a in s'.ledger.admissions && a.sender == k && a.scope == b.scope
        ensures a.time < b.effective
      {
        assert Marked(s, a);
        LatestAtLeast(ThroughOf(x, p.scope), x.wal, p.scope);
      }
    }
  }

  lemma StageInv(s: State, s': State, id: Octets, p: Pending)
    requires Inv(s) && StepStage(s, s', id, p)
    ensures Inv(s')
  {
    hide Latest, Respects;
    forall a
      ensures Marked(s', a)
    {
      assert Marked(s, a);
    }
    forall k, b
      ensures Respects(s', k, b)
    {
      StageRespects(s, s', id, p, k, b);
    }
    assert RequestOk(s, p);
    forall a
      ensures AckedOk(s', a)
    {
      assert AckedOk(s, a);
    }
    forall q
      ensures RequestOk(s', q)
    {
      assert RequestOk(s, q);
    }
    forall i
      ensures CommittedOk(s', i)
    {
      assert CommittedOk(s, i);
    }
    forall e
      ensures HeldBy(s', e)
    {
      assert HeldBy(s, e);
    }
  }

  // ------------------------------------------------------------------ steps of the receiver

  lemma SameSenders(s: State, s': State)
    requires SendersOk(s) && s'.senders == s.senders
    requires s'.ledger.admissions == s.ledger.admissions && s'.ledger.staged == s.ledger.staged
    ensures SendersOk(s')
  {
    forall a
      ensures Marked(s', a)
    {
      assert Marked(s, a);
    }
    forall k, b
      ensures Respects(s', k, b)
    {
      assert Respects(s, k, b);
    }
  }

  lemma ReceiverStepInv(s: State, s': State, step: Step)
    requires Inv(s) && Next(s, s', step)
    requires step.IssueNoRelay? || step.SendRequired? || step.RecordCommitted? || step.Prepare?
      || step.DeliverAck? || step.Commit?
    ensures Inv(s')
  {
    hide SendersOk, CommittedCrosses;
    SameSenders(s, s');
    forall a
      ensures AckedOk(s', a)
    {
      assert AckedOk(s, a);
    }
    forall q
      ensures RequestOk(s', q)
    {
      assert RequestOk(s, q);
    }
    forall i
      ensures CommittedOk(s', i)
    {
      assert CommittedOk(s, i);
    }
    forall e
      ensures HeldBy(s', e)
    {
      assert HeldBy(s, e);
    }
    if step.DeliverAck? {
      assert AckedOk(s, step.ack);
    }
  }

  lemma NextInv(s: State, s': State, step: Step)
    requires Inv(s) && Next(s, s', step)
    ensures Inv(s')
  {
    hide Inv;
    match step
    case Admit(sender, request, scopes, time) => AdmitInv(s, s', sender, request, scopes, time);
    case Stage(sender, p) => StageInv(s, s', sender, p);
    case DeliverEvidence(_) => SenderStepInv(s, s', step);
    case Prune(_, _) => SenderStepInv(s, s', step);
    case ForgetHistory(_) => SenderStepInv(s, s', step);
    case _ => ReceiverStepInv(s, s', step);
  }

  lemma {:induction false} RunInv(states: seq<State>, steps: seq<Step>, i: nat)
    requires Run(states, steps) && i < |states|
    ensures Inv(states[i])
  {
    hide Inv, Next, Init;
    if i == 0 {
      InitInv(states[0]);
    } else {
      RunInv(states, steps, i - 1);
      NextInv(states[i - 1], states[i], steps[i - 1]);
    }
  }

  // ------------------------------------------------------------------ what only grows

  ghost predicate Extends(s: State, s': State) {
    && s.ledger.admissions <= s'.ledger.admissions && s.ledger.staged <= s'.ledger.staged
    && s.ledger.committed <= s'.ledger.committed
  }

  lemma NextExtends(s: State, s': State, step: Step)
    requires Next(s, s', step)
    ensures Extends(s, s')
  {
    hide Refusal, CommittedCrosses, Raise, Latest;
  }

  lemma {:induction false} RunExtends(states: seq<State>, steps: seq<Step>, i: nat, j: nat)
    requires Run(states, steps) && i <= j < |states|
    ensures Extends(states[i], states[j])
    decreases j - i
  {
    hide Next, Init;
    if i < j {
      RunExtends(states, steps, i, j - 1);
      NextExtends(states[j - 1], states[j], steps[j - 1]);
    }
  }

  // ------------------------------------------------------------------ withdrawal safety

  // Once a transition is committed, then in every later state of the run: no sender that staged it has an admission
  // into the scope, at or past the boundary, under evidence of an older generation - neither from before nor from
  // after the commit. Every required sender staged it, and every admission there under no-relay evidence is one of a
  // required sender.
  lemma WithdrawalSafety(states: seq<State>, steps: seq<Step>, i: nat, j: nat, n: nat, a: Admission)
    requires Run(states, steps) && i <= j < |states| && n < |states[i].ledger.committed|
    requires a in states[j].ledger.admissions
    requires var t := states[i].ledger.committed[n];
      a.scope == t.boundary.scope && a.time >= t.boundary.effective
    ensures var t := states[i].ledger.committed[n];
      && ((a.sender, t.boundary) in states[j].ledger.staged ==> a.policy.generation >= t.boundary.generation)
      && (a.sender in t.required ==>
            (a.sender, t.boundary) in states[i].ledger.staged && a.policy.generation >= t.boundary.generation)
      && (a.policy.mode == NoRelayRequired ==> a.sender in t.required && a.policy.generation >= t.boundary.generation)
  {
    hide Run, Next;
    RunInv(states, steps, i);
    RunInv(states, steps, j);
    RunExtends(states, steps, i, j);
    if a.sender in states[i].ledger.committed[n].required {
      StagedByRequired(states[i], n, a.sender);
    }
    SafeInv(states[j], n, a);
  }

  lemma StagedByRequired(s: State, n: nat, id: Octets)
    requires Inv(s) && n < |s.ledger.committed| && id in s.ledger.committed[n].required
    ensures (id, s.ledger.committed[n].boundary) in s.ledger.staged
  {
    assert CommittedOk(s, n);
  }

  lemma SafeInv(s: State, n: nat, a: Admission)
    requires Inv(s) && n < |s.ledger.committed| && a in s.ledger.admissions
    requires a.scope == s.ledger.committed[n].boundary.scope && a.time >= s.ledger.committed[n].boundary.effective
    ensures var t := s.ledger.committed[n];
      && ((a.sender, t.boundary) in s.ledger.staged ==> a.policy.generation >= t.boundary.generation)
      && (a.sender in t.required ==> a.policy.generation >= t.boundary.generation)
      && (a.policy.mode == NoRelayRequired ==> a.sender in t.required && a.policy.generation >= t.boundary.generation)
  {
    assert CommittedOk(s, n);
    assert Respects(s, a.sender, s.ledger.committed[n].boundary);
  }

  // The commit itself: it succeeds only after every required sender, holders included, staged this very boundary,
  // and with no committed event of the scope at or past it.
  lemma CommitRequires(states: seq<State>, steps: seq<Step>, i: nat)
    requires Run(states, steps) && i < |steps| && steps[i] == Commit && states[i].receiver.pending.Some?
    requires CommitRequired(states[i].receiver).Success?
    ensures var s, p := states[i], states[i].receiver.pending.value;
      && (forall id :: id in p.members + s.receiver.holders ==> (id, BoundaryOf(p)) in s.ledger.staged)
      && (forall k :: k in s.receiver.committedThrough && k.1 == p.scope ==>
            s.receiver.committedThrough[k] < p.effective)
      && states[i + 1].ledger.committed
           == s.ledger.committed + [Transition(BoundaryOf(p), p.members + s.receiver.holders)]
  {
    RunInv(states, steps, i);
    assert Next(states[i], states[i + 1], steps[i]);
  }
}
