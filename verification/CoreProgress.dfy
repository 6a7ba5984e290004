// What the state machine can still do: payouts and pruning can always catch up, unless a gap was waived.
module CoreProgress {
  import opened CoreModel

  // Consecutive states of a continuation, the first one being where it starts.
  ghost predicate Path(max: nat, states: seq<State>) {
    states != [] && forall i :: 0 <= i < |states| - 1 ==> Next(max, states[i], states[i + 1])
  }

  function Last(states: seq<State>): State
    requires states != []
  {
    states[|states| - 1]
  }

  // What a run keeps beside the invariant: the committed floor is that of the newest checkpoint once the receiver has
  // it.
  predicate FloorCommitted(s: State) {
    && s.log.checkpointSeq <= s.log.walTail
    && (0 < s.log.checkpointSeq <= s.log.receiverDurable ==> s.log.committedCheckpointFloor == s.log.checkpointFloor)
  }

  predicate Kept(max: nat, s: State) {
    StateInv(max, s) && FloorCommitted(s)
  }

  lemma NextKept(max: nat, s: State, s': State)
    requires Kept(max, s) && Next(max, s, s')
    ensures Kept(max, s')
  {
    NextInv(max, s, s');
    hide StateInv;
    NextFloor(max, s, s');
  }

  lemma NextFloor(max: nat, s: State, s': State)
    requires FloorCommitted(s) && s.log.receiverDurable <= s.log.walTail && Next(max, s, s')
    ensures FloorCommitted(s')
  {
  }

  // In every reachable state the committed floor is that of the newest checkpoint, once the receiver has it.
  lemma {:induction false} AlwaysKept(max: nat, states: seq<State>, i: nat)
    requires max >= 1 && Run(max, states) && i < |states|
    ensures Kept(max, states[i])
  {
    hide Next, Kept;
    if i == 0 {
      InitialKept(max);
    } else {
      AlwaysKept(max, states, i - 1);
      if states[i] != states[i - 1] {
        NextKept(max, states[i - 1], states[i]);
      }
    }
  }

  lemma InitialKept(max: nat)
    requires max >= 1
    ensures Kept(max, INITIAL)
  {
  }

  lemma {:induction false} PathKept(max: nat, states: seq<State>)
    requires Path(max, states) && Kept(max, states[0])
    ensures Kept(max, Last(states))
  {
    hide Next, Kept;
    if |states| > 1 {
      var before := states[..|states| - 1];
      PathKept(max, before);
      NextKept(max, Last(before), Last(states));
    }
  }

  lemma PathSnoc(max: nat, states: seq<State>, s: State)
    requires Path(max, states) && Next(max, Last(states), s)
    ensures Path(max, states + [s]) && (states + [s])[0] == states[0] && Last(states + [s]) == s
  {
    hide Next;
  }

  // One more step if there is something to do.
  lemma Step(max: nat, states: seq<State>, s: State) returns (r: seq<State>)
    requires Path(max, states) && (s == Last(states) || Next(max, Last(states), s))
    ensures Path(max, r) && r[0] == states[0] && Last(r) == s
  {
    hide Next;
    if s == Last(states) {
      r := states;
    } else {
      PathSnoc(max, states, s);
      r := states + [s];
    }
  }

  // Nothing is wrong: no fault was noticed or is pending, and no gap was waived.
  predicate Healthy(s: State) {
    !s.process.blocked && s.process.faultPending == 0 && s.gap.status != 3
  }

  // There is a checkpoint in the current epoch, or room for one.
  predicate HasCheckpoint(max: nat, s: State) {
    s.log.checkpointSeq > 0 || s.log.walTail < max
  }

  function WithWriter(s: State): State {
    s.(process := s.process.(writerCount := 1))
  }

  // A new checkpoint, if there is room for it.
  function WithCheckpoint(max: nat, s: State): State {
    if s.log.walTail >= max then s
    else
      var n, now := s.log.walTail + 1, s.log.lastEventTime + 1;
      s.(log := s.log.(walTail := n, lastEventTime := now, checkpointFloor := now, checkpointSeq := n))
  }

  lemma Checkpointed(max: nat, s: State) returns (r: seq<State>)
    requires Kept(max, s) && Healthy(s) && HasCheckpoint(max, s)
    ensures Path(max, r) && r[0] == s && Last(r) == WithCheckpoint(max, WithWriter(s))
    ensures Last(r).log.checkpointSeq > 0
    ensures Last(r).log.checkpointFloor >= s.log.checkpointFloor >= s.payout.safeThrough
    ensures s.log.walTail < max ==> Last(r).log.checkpointFloor > s.log.checkpointFloor
  {
    var w := WithWriter(s);
    assert w == s || AcquireWriter(s, w);
    r := Step(max, [s], w);
    var c := WithCheckpoint(max, w);
    assert c == w || Checkpoint(max, w, c);
    r := Step(max, r, c);
  }

  // The receiver commits the whole log.
  lemma {:induction false} AllCommitted(max: nat, states: seq<State>) returns (r: seq<State>)
    requires Path(max, states)
    requires var s := Last(states); Kept(max, s) && Healthy(s) && s.log.checkpointSeq > 0
    ensures Path(max, r) && r[0] == states[0]
    ensures var l := Last(states).log;
      Last(r) == Last(states).(log := l.(receiverDurable := l.walTail, receiverObserved := Last(r).log.receiverObserved,
                                         committedCheckpointFloor := l.checkpointFloor))
    decreases Last(states).log.walTail - Last(states).log.receiverDurable
  {
    var s := Last(states);
    if s.log.receiverDurable == s.log.walTail {
      r := states;
    } else {
      var l, n := s.log, s.log.receiverDurable + 1;
      var floor := if n >= l.checkpointSeq then l.checkpointFloor else l.committedCheckpointFloor;
      var t := s.(log := l.(receiverDurable := n, receiverObserved := n, committedCheckpointFloor := floor));
      assert Commit(s, t);
      assert LogStep(max, s, t);
      NextKept(max, s, t);
      r := Step(max, states, t);
      r := AllCommitted(max, r);
    }
  }

  // The gap is reconciled, both proofs are current, no policy change is pending.
  function Proven(s: State): State {
    var e := s.epochs.activeEpoch;
    s.(gap := if s.gap.status == 1 then s.gap.(status := 2) else s.gap,
       proofs := s.proofs.(membershipProof := true, membershipProofEpoch := e, clockProof := true, clockProofEpoch := e,
                           policyReconciliationPending := false))
  }

  lemma AllProven(max: nat, states: seq<State>) returns (r: seq<State>)
    requires Path(max, states) && Kept(max, Last(states)) && Healthy(Last(states))
    ensures Path(max, r) && r[0] == states[0] && Last(r) == Proven(Last(states))
  {
    var s := Last(states);
    var e := s.epochs.activeEpoch;
    var a := s.(gap := if s.gap.status == 1 then s.gap.(status := 2) else s.gap);
    var b := a.(proofs := a.proofs.(membershipProof := true, membershipProofEpoch := e));
    var c := b.(proofs := b.proofs.(clockProof := true, clockProofEpoch := e));
    var d := c.(proofs := c.proofs.(policyReconciliationPending := false));
    assert a == s || ReconcileGap(s, a);
    r := Step(max, states, a);
    assert b == a || EstablishMembershipProof(a, b);
    r := Step(max, r, b);
    assert c == b || EstablishClockProof(b, c);
    r := Step(max, r, c);
    assert d == c || ResolvePolicyReconciliation(c, d);
    r := Step(max, r, d);
  }

  // The payout mark moves up to the committed floor.
  lemma {:induction false} AllPaid(max: nat, states: seq<State>, floor: nat) returns (r: seq<State>)
    requires Path(max, states)
    requires var s := Last(states); PayoutEvidence(s) && s.log.committedCheckpointFloor == floor
    requires Last(states).payout.safeThrough <= floor
    ensures Path(max, r) && r[0] == states[0]
    ensures Last(r) == Last(states).(payout := Last(r).payout)
    ensures Last(r).payout.safeThrough == floor && Last(r).payout.pruneThrough == Last(states).payout.pruneThrough
    decreases floor - Last(states).payout.safeThrough
  {
    var s := Last(states);
    if s.payout.safeThrough == floor {
      r := states;
    } else {
      var t := s.(payout := s.payout.(safeThrough := s.payout.safeThrough + 1, evidence := true));
      assert AdvancePayoutSafe(s, t);
      r := Step(max, states, t);
      r := AllPaid(max, r, floor);
    }
  }

  // The prune mark moves up to the payout mark.
  lemma {:induction false} AllPruned(max: nat, states: seq<State>) returns (r: seq<State>)
    requires Path(max, states) && Last(states).payout.pruneThrough <= Last(states).payout.safeThrough
    ensures Path(max, r) && r[0] == states[0]
    ensures Last(r) == Last(states).(payout := Last(states).payout.(pruneThrough := Last(states).payout.safeThrough))
    decreases Last(states).payout.safeThrough - Last(states).payout.pruneThrough
  {
    var s := Last(states);
    if s.payout.pruneThrough == s.payout.safeThrough {
      r := states;
    } else {
      var t := s.(payout := s.payout.(pruneThrough := s.payout.pruneThrough + 1));
      assert AdvanceSafePrune(s, t);
      r := Step(max, states, t);
      r := AllPruned(max, r);
    }
  }

  // From every reachable state in which nothing is wrong and the epoch has a checkpoint or room for one, the machine
  // can go on to a state in which everything up to the newest checkpoint is paid out and pruned, losing nothing on the
  // way.
  lemma PayoutCatchesUp(max: nat, states: seq<State>, i: nat) returns (r: seq<State>)
    requires max >= 1 && Run(max, states) && i < |states|
    requires Healthy(states[i]) && HasCheckpoint(max, states[i])
    ensures Path(max, r) && r[0] == states[i]
    ensures var s, t := states[i], Last(r);
      && t.payout.pruneThrough == t.payout.safeThrough == t.log.checkpointFloor >= s.log.checkpointFloor
      && t.log.receiverDurable == t.log.walTail >= s.log.walTail && t.log.checkpointSeq > 0
      && t.epochs == s.epochs
      && (s.log.walTail < max ==> t.payout.safeThrough > s.payout.safeThrough)
  {
    hide Kept, Path, PayoutEvidence, Next;
    AlwaysKept(max, states, i);
    r := Checkpointed(max, states[i]);
    PathKept(max, r);
    r := AllCommitted(max, r);
    StartKept(max, states[i], r);
    r := AllProven(max, r);
    StartKept(max, states[i], r);
    EvidenceThere(max, Last(r));
    r := AllPaid(max, r, Last(r).log.committedCheckpointFloor);
    StartKept(max, states[i], r);
    PruneBelow(max, Last(r));
    r := AllPruned(max, r);
  }

  lemma StartKept(max: nat, s: State, r: seq<State>)
    requires Path(max, r) && r[0] == s && Kept(max, s)
    ensures Kept(max, Last(r))
  {
    PathKept(max, r);
  }

  lemma EvidenceThere(max: nat, s: State)
    requires Kept(max, s) && s.log.checkpointSeq > 0 && s.log.receiverDurable == s.log.walTail && s == Proven(s)
    requires s.gap.status != 3
    ensures PayoutEvidence(s) && s.log.committedCheckpointFloor == s.log.checkpointFloor >= s.payout.safeThrough
  {
  }

  lemma PruneBelow(max: nat, s: State)
    requires Kept(max, s)
    ensures s.payout.pruneThrough <= s.payout.safeThrough
  {
  }

  // ------------------------------------------------------------------ exactly when payouts can go on

  lemma RunContinues(max: nat, states: seq<State>, i: nat, r: seq<State>)
    requires Run(max, states) && i < |states| && Path(max, r) && r[0] == states[i]
    ensures Run(max, states[..i] + r) && (states[..i] + r)[i] == states[i]
    ensures Last(states[..i] + r) == Last(r)
  {
    hide Next;
    var all := states[..i] + r;
    forall k | 0 <= k < |all| - 1
      ensures Next(max, all[k], all[k + 1]) || all[k + 1] == all[k]
    {
      if k < i {
        assert all[k] == states[k] && all[k + 1] == states[k + 1];
      } else {
        assert all[k] == r[k - i] && all[k + 1] == r[k - i + 1];
      }
    }
    assert i > 0 ==> all[0] == states[0];
  }

  // The continuation pays out more than is paid out here.
  ghost predicate PaysMore(max: nat, s: State, r: seq<State>) {
    Path(max, r) && r[0] == s && Last(r).payout.safeThrough > s.payout.safeThrough
  }

  // A running machine with room in its log can pay out more, sooner or later, if and only if no gap was waived.
  lemma CanPayExactly(max: nat, states: seq<State>, i: nat)
    requires max >= 1 && Run(max, states) && i < |states|
    requires !states[i].process.blocked && states[i].process.faultPending == 0 && states[i].log.walTail < max
    ensures (exists r :: PaysMore(max, states[i], r)) <==> states[i].gap.status != 3
  {
    hide Next, Run;
    if states[i].gap.status != 3 {
      var r := PayoutCatchesUp(max, states, i);
      assert PaysMore(max, states[i], r);
    } else {
      forall r
        ensures !PaysMore(max, states[i], r)
      {
        if Path(max, r) && r[0] == states[i] {
          RunContinues(max, states, i, r);
          var all := states[..i] + r;
          WaivedFreezesPayout(max, all, i, |all| - 1);
        }
      }
    }
  }
}
