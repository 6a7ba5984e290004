// Exactly which senders a withdrawal covers.
//
// The program requires acknowledgements from members and no-relay holders only. What makes a sender safe is its cap,
// whoever asked for it; this module says so for every continuation of the protocol, in both directions.
module WithdrawalExact {
  import opened Wrappers
  import opened Arithmetic
  import opened Bytes
  import opened Withdrawal
  import opened WithdrawalProtocol

  // The sender holds a cap at least as strong as the boundary.
  predicate Covered(x: SenderState, b: Boundary) {
    exists cap :: cap in CapsFor(x, b.scope) && cap.generation >= b.generation && cap.boundary <= b.effective
  }

  // No evidence older than the boundary can admit at or past it: it is capped, or nothing can be admitted at all.
  predicate Stopped(x: SenderState, b: Boundary) {
    Covered(x, b) || !x.historyKnown
  }

  // An admission of the sender at or past the boundary, under older evidence.
  predicate Violates(a: Admission, id: Octets, b: Boundary) {
    a.sender == id && a.scope == b.scope && a.time >= b.effective && a.policy.generation < b.generation
  }

  // Any steps from any state.
  ghost predicate Path(states: seq<State>, steps: seq<Step>) {
    |states| == |steps| + 1 && forall i :: 0 <= i < |steps| ==> Next(states[i], states[i + 1], steps[i])
  }

  // None of the admissions that s' has beyond those of s violates the boundary.
  ghost predicate NoneSince(s: State, s': State, id: Octets, b: Boundary) {
    forall k :: |s.ledger.admissions| <= k < |s'.ledger.admissions| ==> !Violates(s'.ledger.admissions[k], id, b)
  }

  // Whatever happens from here on, the sender never violates the boundary again.
  ghost predicate SafeFromNowOn(s: State, id: Octets, b: Boundary) {
    forall states, steps :: Path(states, steps) && states[0] == s ==> NoneSince(s, states[|steps|], id, b)
  }

  // ------------------------------------------------------------------ stopped senders stay stopped

  lemma AdmitRespectsCap(s: State, s': State, id: Octets, request: Octets, scopes: seq<Octets>, time: int, b: Boundary)
    requires StepAdmit(s, s', id, request, scopes, time) && s' != s && Stopped(s.senders[id], b)
    ensures NoneSince(s, s', id, b)
  {
    hide CheckScope, CheckScopes, Raise;
    var x := s.senders[id];
    forall k | |s.ledger.admissions| <= k < |s'.ledger.admissions|
      ensures !Violates(s'.ledger.admissions[k], id, b)
    {
      var q := scopes[k - |s.ledger.admissions|];
      PassedScope(x, scopes, time, q);
      if q == b.scope && Covered(x, b) {
        var cap :| cap in CapsFor(x, q) && cap.generation >= b.generation && cap.boundary <= b.effective;
        var n :| 0 <= n < |CapsFor(x, q)| && CapsFor(x, q)[n] == cap;
      }
    }
  }

  // One step: caps are never removed, an unknown history stays unknown, and a stopped sender does not violate.
  lemma StoppedStep(s: State, s': State, step: Step, id: Octets, b: Boundary)
    requires Next(s, s', step) && id in s.senders && Stopped(s.senders[id], b)
    ensures id in s'.senders && Stopped(s'.senders[id], b)
    ensures s.ledger.admissions <= s'.ledger.admissions && NoneSince(s, s', id, b)
  {
    hide Refusal, CommittedCrosses, Raise, Latest, Capped, Issued, Prepared, AcknowledgedBy, CommitRequired;
    NextExtends(s, s', step);
    match step
    case Admit(sender, request, scopes, time) =>
      if s' != s && sender == id {
        AdmitRespectsCap(s, s', id, request, scopes, time, b);
      }
    case Stage(sender, p) =>
      if sender == id && Covered(s.senders[id], b) {
        CapsKept(s.senders[id], p.scope, Cap(p.generation, p.effective), b);
      }
    case _ =>
  }

  lemma CapsKept(x: SenderState, scope: Octets, cap: Cap, b: Boundary)
    requires Covered(x, b)
    ensures Covered(WithCap(x, scope, cap), b)
  {
    var c :| c in CapsFor(x, b.scope) && c.generation >= b.generation && c.boundary <= b.effective;
    assert c in CapsFor(WithCap(x, scope, cap), b.scope);
  }

  lemma {:induction false} StoppedPath(states: seq<State>, steps: seq<Step>, id: Octets, b: Boundary, n: nat)
    requires Path(states, steps) && n <= |steps| && id in states[0].senders && Stopped(states[0].senders[id], b)
    ensures id in states[n].senders && Stopped(states[n].senders[id], b)
    ensures states[0].ledger.admissions <= states[n].ledger.admissions && NoneSince(states[0], states[n], id, b)
  {
    hide Next, Stopped, Violates;
    if n > 0 {
      StoppedPath(states, steps, id, b, n - 1);
      StoppedStep(states[n - 1], states[n], steps[n - 1], id, b);
    }
  }

  // ------------------------------------------------------------------ all others can get through

  // Evidence older than the boundary, covering a time past it, that could still be delivered.
  ghost predicate OldEvidence(s: State, id: Octets, b: Boundary, policy: Policy, time: int) {
    && id in s.senders && Evidence(id, b.scope, policy) in s.evidence && s.senders[id].historyKnown
    && policy.activated && policy.authorized && policy.contract
    && (policy.mode == NoRelayRequired || (policy.mode == RelayRequired && policy.member))
    && policy.generation < b.generation && b.effective <= time && policy.from <= time < policy.until
  }

  // Delivering such evidence and then admitting under it goes through exactly when no cap stops it.
  lemma OldEvidenceAdmits(s: State, id: Octets, b: Boundary, policy: Policy, time: int, request: Octets)
      returns (s1: State, s2: State)
    requires OldEvidence(s, id, b, policy, time) && request !in s.senders[id].outcomes
    ensures Next(s, s1, DeliverEvidence(Evidence(id, b.scope, policy)))
    ensures Next(s1, s2, Admit(id, request, [b.scope], time))
    ensures var a := Admission(id, b.scope, time, policy);
      s2.ledger.committed == s.ledger.committed && s2.ledger.admissions == s.ledger.admissions
        + if Capped(CapsFor(s.senders[id], b.scope), policy.generation, time) then [] else [a]
  {
    var x := s.senders[id];
    var x1 := x.(policies := x.policies[b.scope := policy]);
    s1 := WithSender(s, id, x1);
    assert CheckScope(x1, b.scope, time).Success? <==> !Capped(CapsFor(x, b.scope), policy.generation, time);
    ScopesChecked(x1, [b.scope], time);
    assert b.scope in [b.scope];
    if Capped(CapsFor(x, b.scope), policy.generation, time) {
      s2 := s1;
    } else {
      s2 := WithSender(s1, id, Admitted(x1, request, [b.scope], time)).(
        ledger := s1.ledger.(admissions := s1.ledger.admissions + AdmissionsOf(x1, id, [b.scope], time)));
    }
  }

  // Some octets that are not a key yet.
  lemma {:induction false} LongerThanAll(keys: set<Octets>) returns (n: nat)
    ensures forall k :: k in keys ==> |k| < n
  {
    n := 0;
    if keys != {} {
      var k :| k in keys;
      var m := LongerThanAll(keys - {k});
      n := if m <= |k| then |k| + 1 else m;
    }
  }

  // A sender that is not stopped can still be sent older evidence, and then admits under it at the boundary.
  lemma NotStoppedViolates(s: State, id: Octets, b: Boundary) returns (states: seq<State>, steps: seq<Step>)
    requires id in s.senders && !Stopped(s.senders[id], b)
    ensures Path(states, steps) && states[0] == s && !NoneSince(s, states[|steps|], id, b)
  {
    hide Next;
    var x := s.senders[id];
    var policy := Policy(true, true, true, b.effective, b.effective + 1, RelayRequired, true, b.generation - 1);
    var n := LongerThanAll(x.outcomes.Keys);
    var request: Octets := seq(n, _ => 0);
    var s1 := s.(evidence := s.evidence + {Evidence(id, b.scope, policy)});
    assert Next(s, s1, SendRequired(id, b.scope, policy)) by {
      RequiredEvidenceSent(s, s1, id, b.scope, policy);
    }
    if Capped(CapsFor(x, b.scope), policy.generation, b.effective) {
      CappedIsCovered(x, b);
    }
    var s2, s3 := OldEvidenceAdmits(s1, id, b, policy, b.effective, request);
    states := [s, s1, s2, s3];
    steps := [SendRequired(id, b.scope, policy), DeliverEvidence(Evidence(id, b.scope, policy)),
              Admit(id, request, [b.scope], b.effective)];
    assert Violates(s3.ledger.admissions[|s.ledger.admissions|], id, b);
  }

  lemma RequiredEvidenceSent(s: State, s': State, id: Octets, scope: Octets, policy: Policy)
    requires policy.mode != NoRelayRequired && s' == s.(evidence := s.evidence + {Evidence(id, scope, policy)})
    ensures Next(s, s', SendRequired(id, scope, policy))
  {
  }

  lemma CappedIsCovered(x: SenderState, b: Boundary)
    requires Capped(CapsFor(x, b.scope), b.generation - 1, b.effective)
    ensures Covered(x, b)
  {
    var caps := CapsFor(x, b.scope);
    var i :| 0 <= i < |caps| && b.generation - 1 < caps[i].generation && b.effective >= caps[i].boundary;
    assert caps[i] in caps;
  }

  // From any state, over all continuations: a sender never again admits into the scope, at or past the boundary, under
  // older evidence if and only if it holds a cap at least as strong as the boundary or has lost its history.
  lemma ExactlyWhenSafe(s: State, id: Octets, b: Boundary)
    requires id in s.senders
    ensures SafeFromNowOn(s, id, b) <==> Stopped(s.senders[id], b)
  {
    hide Next, Stopped, NoneSince;
    if Stopped(s.senders[id], b) {
      forall states, steps | Path(states, steps) && states[0] == s
        ensures NoneSince(s, states[|steps|], id, b)
      {
        StoppedPath(states, steps, id, b, |steps|);
      }
    } else {
      var states, steps := NotStoppedViolates(s, id, b);
      assert Path(states, steps) && states[0] == s;
    }
  }

  // ------------------------------------------------------------------ the whole transition

  ghost predicate NoViolation(s: State, id: Octets, b: Boundary) {
    forall a :: a in s.ledger.admissions ==> !Violates(a, id, b)
  }

  // No sender has ever admitted past the boundary under older evidence, and none ever will.
  ghost predicate Withdrawn(s: State, b: Boundary) {
    forall states, steps, id :: Path(states, steps) && states[0] == s && id in s.senders ==>
      NoViolation(states[|steps|], id, b)
  }

  // Whoever staged the boundary is stopped, and has not violated it.
  lemma StagedIsStopped(s: State, id: Octets, b: Boundary)
    requires Inv(s) && (id, b) in s.ledger.staged
    ensures id in s.senders && Stopped(s.senders[id], b) && NoViolation(s, id, b)
  {
    assert Respects(s, id, b);
  }

  lemma NoViolationSplits(s: State, s': State, id: Octets, b: Boundary)
    requires s.ledger.admissions <= s'.ledger.admissions
    ensures NoViolation(s', id, b) <==> NoViolation(s, id, b) && NoneSince(s, s', id, b)
  {
    hide Violates;
    var old', new' := s.ledger.admissions, s'.ledger.admissions;
    forall a | a in old'
      ensures a in new'
    {
      var k :| 0 <= k < |old'| && old'[k] == a;
      assert new'[k] == a;
    }
    if NoViolation(s, id, b) && NoneSince(s, s', id, b) {
      forall a | a in new'
        ensures !Violates(a, id, b)
      {
        var k :| 0 <= k < |new'| && new'[k] == a;
        assert k < |old'| ==> old'[k] in old';
      }
    }
  }

  lemma {:induction false} PathExtends(states: seq<State>, steps: seq<Step>, n: nat)
    requires Path(states, steps) && n <= |steps|
    ensures states[0].ledger.admissions <= states[n].ledger.admissions
  {
    hide Next;
    if n > 0 {
      PathExtends(states, steps, n - 1);
      NextExtends(states[n - 1], states[n], steps[n - 1]);
    }
  }

  // In any reachable state a boundary is withdrawn for all senders if and only if every sender staged it, or is stopped
  // for another reason and has not admitted past it under older evidence so far.
  lemma WithdrawnExactly(states: seq<State>, steps: seq<Step>, i: nat, b: Boundary)
    requires Run(states, steps) && i < |states|
    ensures var s := states[i];
      Withdrawn(s, b) <==> forall id :: id in s.senders ==>
        (id, b) in s.ledger.staged || (Stopped(s.senders[id], b) && NoViolation(s, id, b))
  {
    hide Next, Stopped, NoneSince, NoViolation, Run, Inv;
    var s := states[i];
    RunInv(states, steps, i);
    forall id | id in s.senders
      ensures WithdrawnFor(s, id, b)
        <==> (id, b) in s.ledger.staged || (Stopped(s.senders[id], b) && NoViolation(s, id, b))
    {
      if (id, b) in s.ledger.staged {
        StagedIsStopped(s, id, b);
      }
      WithdrawnForExactly(s, id, b);
    }
    assert Withdrawn(s, b) <==> forall id :: id in s.senders ==> WithdrawnFor(s, id, b);
  }

  ghost predicate WithdrawnFor(s: State, id: Octets, b: Boundary) {
    forall states, steps :: Path(states, steps) && states[0] == s ==> NoViolation(states[|steps|], id, b)
  }

  lemma WithdrawnForExactly(s: State, id: Octets, b: Boundary)
    requires id in s.senders
    ensures WithdrawnFor(s, id, b) <==> Stopped(s.senders[id], b) && NoViolation(s, id, b)
  {
    hide Next, Stopped, NoneSince, NoViolation;
    forall states, steps | Path(states, steps) && states[0] == s
      ensures NoViolation(states[|steps|], id, b) <==> NoViolation(s, id, b) && NoneSince(s, states[|steps|], id, b)
    {
      PathExtends(states, steps, |steps|);
      NoViolationSplits(s, states[|steps|], id, b);
    }
    ExactlyWhenSafe(s, id, b);
    assert Path([s], []) && [s][0] == s;
  }

  // Every required sender is stopped in every state after the commit.
  lemma RequiredAreStopped(states: seq<State>, steps: seq<Step>, i: nat, n: nat, id: Octets)
    requires Run(states, steps) && i < |states| && n < |states[i].ledger.committed|
    requires id in states[i].ledger.committed[n].required
    ensures id in states[i].senders && SafeFromNowOn(states[i], id, states[i].ledger.committed[n].boundary)
    ensures NoViolation(states[i], id, states[i].ledger.committed[n].boundary)
  {
    hide Run, Inv, Next, SafeFromNowOn;
    RunInv(states, steps, i);
    StagedByRequired(states[i], n, id);
    StagedIsStopped(states[i], id, states[i].ledger.committed[n].boundary);
    ExactlyWhenSafe(states[i], id, states[i].ledger.committed[n].boundary);
  }

  // ------------------------------------------------------------------ a former member

  // A sender without any history stages a withdrawal.
  lemma NewSenderStages(s: State, id: Octets, p: Pending) returns (s': State)
    requires id in s.senders && NewSender(s.senders[id]) && s.senders[id].historyKnown && p in s.requests
    requires p.effective > -1
    ensures Next(s, s', Stage(id, p)) && s'.senders == s.senders[id := s'.senders[id]] && s'.evidence == s.evidence
    ensures s'.receiver == s.receiver && s'.acks == s.acks + {Ack(id, StagingAck(p.generation, p.digest))}
    ensures s'.ledger == s.ledger.(staged := s.ledger.staged + {(id, BoundaryOf(p))})
  {
    var (x, r) := Staged(s.senders[id], p.scope, p);
    s' := WithSender(s, id, x).(
      acks := s.acks + {Ack(id, StagingAck(p.generation, p.digest))},
      ledger := s.ledger.(staged := s.ledger.staged + {(id, BoundaryOf(p))}));
  }

  // Its acknowledgement is the only one that was missing.
  lemma LastAckCommits(s: State, id: Octets, p: Pending) returns (s1: State, s2: State)
    requires s.receiver.pending == Some(p) && p.required == p.members == {id} && p.acks == {} == s.receiver.holders
    requires s.receiver.historyKnown && s.receiver.committedThrough == map[]
    requires Ack(id, StagingAck(p.generation, p.digest)) in s.acks
    ensures Next(s, s1, DeliverAck(Ack(id, StagingAck(p.generation, p.digest)))) && Next(s1, s2, Commit)
    ensures s2.senders == s.senders && s2.evidence == s.evidence
    ensures s2.ledger == s.ledger.(committed := s.ledger.committed + [Transition(BoundaryOf(p), {id})])
  {
    var p1 := p.(acks := p.acks + {id});
    s1 := s.(receiver := s.receiver.(pending := Some(p1)));
    assert p1.members + s1.receiver.holders == {id} == p1.acks;
    s2 := s1.(receiver := s1.receiver.(mode := RelayRequired, pending := None),
              ledger := s1.ledger.(committed := s1.ledger.committed + [Transition(BoundaryOf(p), p.required)]));
  }

  // A transition with a single member, from a receiver without holders; another sender has been sent evidence.
  lemma SingleMemberCommits(member: Octets, former: Octets, b: Boundary, digest: Octets, policy: Policy, x: SenderState)
      returns (s0: State, s1: State, s2: State, s3: State, s4: State, s5: State, p: Pending)
    requires member != former && policy.mode == RelayRequired && NewSender(x) && x.historyKnown && b.effective > -1
    ensures Init(s0) && Next(s0, s1, SendRequired(former, b.scope, policy))
    ensures Next(s1, s2, Prepare({member}, b.effective, b.generation, digest, b.scope))
    ensures Next(s2, s3, Stage(member, p)) && Next(s4, s5, Commit)
    ensures Next(s3, s4, DeliverAck(Ack(member, StagingAck(b.generation, digest))))
    ensures s5.ledger.committed == [Transition(b, {member})] && s5.ledger.admissions == []
    ensures former in s5.senders && s5.senders[former] == x && Evidence(former, b.scope, policy) in s5.evidence
  {
    var r := ReceiverState(RelayRequired, {}, map[], None, true, map[]);
    s0 := State(map[member := x, former := x], r, {}, {}, {}, Ledger([], {}, [], map[]));
    s1 := s0.(evidence := {Evidence(former, b.scope, policy)});
    p := Pending({member}, {member}, b.effective, b.generation, digest, {}, b.scope);
    assert {member} + {} == {member};
    s2 := s1.(receiver := r.(pending := Some(p)), requests := {p}, ledger := Ledger([], {}, [], map[digest := b]));
    assert Next(s1, s2, Prepare({member}, b.effective, b.generation, digest, b.scope));
    hide Next;
    s3 := NewSenderStages(s2, member, p);
    s4, s5 := LastAckCommits(s3, member, p);
  }

  // Whoever was not required and staged nothing has no cap. The program requires members and no-relay holders only:
  // in this run a former member keeps admitting under its first-generation evidence past the second's boundary.
  lemma FormerMemberEscapes() returns (states: seq<State>, steps: seq<Step>, a: Admission)
    ensures Run(states, steps) && |states| == 8
    ensures var s := states[7];
      && |s.ledger.committed| == 1 && a in s.ledger.admissions && a.sender !in s.ledger.committed[0].required
      && a.scope == s.ledger.committed[0].boundary.scope && a.time >= s.ledger.committed[0].boundary.effective
      && a.policy.generation < s.ledger.committed[0].boundary.generation && a.policy.mode == RelayRequired
  {
    hide Next, Init;
    var member, former, digest, request: Octets := [1], [2], [4], [5];
    var b := Boundary([3], 2, 50);
    var policy := Policy(true, true, true, 0, 100, RelayRequired, true, 1);
    var x := SenderState(map[], map[], true, map[], 0, [], map[]);
    var s0, s1, s2, s3, s4, s5, p := SingleMemberCommits(member, former, b, digest, policy, x);
    assert member[0] != former[0];
    var s6, s7 := OldEvidenceAdmits(s5, former, b, policy, 60, request);
    a := Admission(former, b.scope, 60, policy);
    states := [s0, s1, s2, s3, s4, s5, s6, s7];
    steps := [SendRequired(former, b.scope, policy), Prepare({member}, 50, 2, digest, b.scope), Stage(member, p),
              DeliverAck(Ack(member, StagingAck(2, digest))), Commit,
              DeliverEvidence(Evidence(former, b.scope, policy)), Admit(former, request, [b.scope], 60)];
  }
}
