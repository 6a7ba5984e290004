// The protocol's state machine, for every bound on its counters.
module CoreModel {

  datatype Log = Log(
    walTail: nat, anchorTail: nat, receiverDurable: nat, senderAck: nat, pruned: nat,
    checkpointFloor: nat, checkpointSeq: nat, committedCheckpointFloor: nat,
    temporalFloor: nat, lastEventTime: nat, receiverObserved: nat)

  datatype Process = Process(writerCount: nat, faultPending: nat, blocked: bool)

  datatype Epochs = Epochs(
    activeEpoch: nat, retiredEpochs: set<nat>,
    transitionMode: nat, oldTailAtTransition: nat, oldDrainedAtTransition: bool)

  datatype Proofs = Proofs(
    membershipProof: bool, membershipProofEpoch: nat, clockProof: bool, clockProofEpoch: nat,
    policyGeneration: nat, policyReconciliationPending: bool)

  datatype Gap = Gap(recorded: bool, tail: nat, epoch: nat, wildcard: bool, status: nat)

  datatype Payout = Payout(safeThrough: nat, pruneThrough: nat, evidence: bool)

  // The 33 variables, grouped by what they belong to.
  datatype State = State(log: Log, process: Process, epochs: Epochs, proofs: Proofs, gap: Gap, payout: Payout)

  function Max3(a: nat, b: nat, c: nat): nat {
    if a >= b then (if a >= c then a else c) else if b >= c then b else c
  }

  predicate CurrentProofs(s: State) {
    var p, current := s.proofs, s.epochs.activeEpoch;
    p.membershipProof && p.membershipProofEpoch == current && p.clockProof && p.clockProofEpoch == current
  }

  predicate GapBlocksScalar(s: State) {
    s.gap.status == 1 || s.gap.status == 3
  }

  predicate GapFreezesCurrentEpoch(s: State) {
    s.gap.recorded && s.gap.epoch == s.epochs.activeEpoch && s.gap.status == 1
  }

  const INITIAL := State(
    Log(0, 0, 0, 0, 0, 0, 0, 0, 0, 0, 0), Process(1, 0, false), Epochs(1, {}, 0, 0, false),
    Proofs(false, 0, false, 0, 1, false), Gap(false, 0, 0, false, 0), Payout(0, 0, false))

  // ------------------------------------------------------------------ actions

  // Sender and receiver both make progress.
  predicate Running(s: State) {
    !s.process.blocked && s.process.faultPending == 0 && !GapFreezesCurrentEpoch(s)
  }

  predicate Admit(max: nat, s: State, s': State) {
    && s.process.writerCount == 1 && Running(s) && s.log.walTail < max
    && s.log.lastEventTime + 1 > s.log.checkpointFloor && s.log.lastEventTime + 1 >= s.log.temporalFloor
    && s' == s.(log := s.log.(walTail := s.log.walTail + 1, lastEventTime := s.log.lastEventTime + 1))
  }

  predicate Checkpoint(max: nat, s: State, s': State) {
    && s.process.writerCount == 1 && Running(s) && s.log.walTail < max
    && var n, now := s.log.walTail + 1, s.log.lastEventTime + 1;
       s' == s.(log := s.log.(walTail := n, lastEventTime := now, checkpointFloor := now, checkpointSeq := n))
  }

  predicate PersistAnchor(s: State, s': State) {
    s.log.anchorTail < s.log.walTail && s' == s.(log := s.log.(anchorTail := s.log.walTail))
  }

  predicate Commit(s: State, s': State) {
    && Running(s) && s.log.receiverDurable < s.log.walTail
    && var l, n := s.log, s.log.receiverDurable + 1;
       var reached := l.checkpointSeq > 0 && n >= l.checkpointSeq;
       var floor := if reached then l.checkpointFloor else l.committedCheckpointFloor;
       s' == s.(log := l.(receiverDurable := n, receiverObserved := n, committedCheckpointFloor := floor))
  }

  predicate RememberAck(s: State, s': State) {
    Running(s) && s.log.senderAck < s.log.receiverDurable && s' == s.(log := s.log.(senderAck := s.log.receiverDurable))
  }

  predicate Prune(s: State, s': State) {
    s.log.pruned < s.log.senderAck && s' == s.(log := s.log.(pruned := s.log.senderAck))
  }

  predicate EstablishMembershipProof(s: State, s': State) {
    && !s.proofs.membershipProof
    && s' == s.(proofs := s.proofs.(membershipProof := true, membershipProofEpoch := s.epochs.activeEpoch))
  }

  predicate EstablishClockProof(s: State, s': State) {
    && !s.proofs.clockProof
    && s' == s.(proofs := s.proofs.(clockProof := true, clockProofEpoch := s.epochs.activeEpoch))
  }

  function Cleared(p: Proofs): Proofs {
    p.(membershipProof := false, membershipProofEpoch := 0, clockProof := false, clockProofEpoch := 0)
  }

  predicate FuturePolicyChange(max: nat, s: State, s': State) {
    && !s.proofs.policyReconciliationPending && s.proofs.policyGeneration < max
    && s' == s.(proofs := Cleared(s.proofs).(policyGeneration := s.proofs.policyGeneration + 1))
  }

  predicate BeginPolicyReconciliation(s: State, s': State) {
    && !s.proofs.policyReconciliationPending
    && s' == s.(proofs := Cleared(s.proofs).(policyReconciliationPending := true))
  }

  predicate ResolvePolicyReconciliation(s: State, s': State) {
    && s.proofs.policyReconciliationPending && !GapBlocksScalar(s) && CurrentProofs(s)
    && s' == s.(proofs := s.proofs.(policyReconciliationPending := false))
  }

  // The second epoch starts with empty logs and without proofs, no earlier than everything before it.
  function NewEpoch(s: State, mode: nat, drained: bool, gap: Gap): State {
    var l := s.log;
    s.(log := Log(0, 0, 0, 0, 0, l.checkpointFloor, 0, 0,
                  Max3(l.temporalFloor, l.lastEventTime, l.checkpointFloor), l.lastEventTime, 0),
       epochs := Epochs(2, s.epochs.retiredEpochs + {1}, mode, l.walTail, drained),
       proofs := Cleared(s.proofs), gap := gap)
  }

  predicate MayTransition(s: State) {
    s.process == Process(1, 0, false) && s.epochs.activeEpoch == 1 && s.log.senderAck == s.log.receiverDurable
  }

  predicate NormalEpochTransition(s: State, s': State) {
    && MayTransition(s) && !s.gap.recorded && s.log.receiverDurable == s.log.walTail
    && s' == NewEpoch(s, 1, true, Gap(false, 0, 0, false, 0))
  }

  predicate ExceptionalEpochTransition(s: State, s': State, wildcard: bool) {
    && MayTransition(s) && s.log.senderAck < s.log.walTail
    && s' == NewEpoch(s, 2, false, Gap(true, s.log.walTail, s.epochs.activeEpoch, wildcard, 1))
  }

  predicate ReconcileGap(s: State, s': State) {
    s.gap.recorded && s.gap.status == 1 && s' == s.(gap := s.gap.(status := 2))
  }

  predicate WaiveGap(s: State, s': State) {
    s.gap.recorded && s.gap.status == 1 && s' == s.(gap := s.gap.(status := 3))
  }

  predicate PayoutEvidence(s: State) {
    && s.log.checkpointSeq > 0 && s.log.receiverDurable >= s.log.checkpointSeq
    && CurrentProofs(s) && !GapBlocksScalar(s) && !s.proofs.policyReconciliationPending
  }

  predicate AdvancePayoutSafe(s: State, s': State) {
    && s.payout.safeThrough < s.log.committedCheckpointFloor && PayoutEvidence(s)
    && s' == s.(payout := s.payout.(safeThrough := s.payout.safeThrough + 1, evidence := PayoutEvidence(s)))
  }

  predicate AdvanceSafePrune(s: State, s': State) {
    && s.payout.pruneThrough < s.payout.safeThrough
    && s' == s.(payout := s.payout.(pruneThrough := s.payout.pruneThrough + 1))
  }

  predicate Crash(s: State, s': State) {
    s.process.writerCount == 1 && s' == s.(process := s.process.(writerCount := 0))
  }

  predicate AcquireWriter(s: State, s': State) {
    s.process.writerCount == 0 && !s.process.blocked && s' == s.(process := s.process.(writerCount := 1))
  }

  predicate ReceiverRollbackFault(s: State, s': State) {
    && s.process.faultPending == 0 && s.log.senderAck > 0
    && s' == s.(log := s.log.(receiverObserved := s.log.senderAck - 1), process := s.process.(faultPending := 1))
  }

  predicate DetectFault(s: State, s': State) {
    s.process.faultPending != 0 && s' == s.(process := s.process.(blocked := true, faultPending := 0))
  }

  ghost predicate LogStep(max: nat, s: State, s': State) {
    || Admit(max, s, s') || Checkpoint(max, s, s') || PersistAnchor(s, s') || Commit(s, s') || RememberAck(s, s')
    || Prune(s, s')
  }

  ghost predicate ProofStep(max: nat, s: State, s': State) {
    || EstablishMembershipProof(s, s') || EstablishClockProof(s, s') || FuturePolicyChange(max, s, s')
    || BeginPolicyReconciliation(s, s') || ResolvePolicyReconciliation(s, s')
  }

  ghost predicate EpochStep(s: State, s': State) {
    NormalEpochTransition(s, s') || exists wildcard :: ExceptionalEpochTransition(s, s', wildcard)
  }

  ghost predicate PayoutStep(s: State, s': State) {
    ReconcileGap(s, s') || WaiveGap(s, s') || AdvancePayoutSafe(s, s') || AdvanceSafePrune(s, s')
  }

  ghost predicate FaultStep(s: State, s': State) {
    Crash(s, s') || AcquireWriter(s, s') || ReceiverRollbackFault(s, s') || DetectFault(s, s')
  }

  ghost predicate Next(max: nat, s: State, s': State) {
    LogStep(max, s, s') || ProofStep(max, s, s') || EpochStep(s, s') || PayoutStep(s, s') || FaultStep(s, s')
  }

  // A step that changes nothing is always allowed.
  ghost predicate Run(max: nat, states: seq<State>) {
    && states != [] && states[0] == INITIAL
    && forall i :: 0 <= i < |states| - 1 ==> Next(max, states[i], states[i + 1]) || states[i + 1] == states[i]
  }

  // ------------------------------------------------------------------ the configured invariants

  predicate TypeOk(max: nat, s: State) {
    && s.log.walTail <= max && s.log.anchorTail <= max && s.log.receiverDurable <= max
    && s.log.senderAck <= max && s.log.pruned <= max
    && s.process.writerCount <= 2 && 1 <= s.epochs.activeEpoch <= 2 && s.epochs.retiredEpochs <= {1, 2}
    && s.log.checkpointSeq <= max
    && s.proofs.membershipProofEpoch <= 2 && s.proofs.clockProofEpoch <= 2
    && s.gap.tail <= max && s.gap.epoch <= 2 && s.gap.status <= 3
    && 1 <= s.proofs.policyGeneration <= max
    && s.epochs.transitionMode <= 2 && s.epochs.oldTailAtTransition <= max
    && s.log.receiverObserved <= max && s.process.faultPending <= 1
  }

  predicate AckSafe(s: State) { s.log.senderAck <= s.log.receiverDurable }

  predicate PruneSafe(s: State) { s.log.pruned <= s.log.senderAck }

  predicate ReceiverNotAhead(s: State) { s.log.receiverDurable <= s.log.walTail }

  predicate AnchorNotAhead(s: State) { s.log.anchorTail <= s.log.walTail }

  predicate SingleWriter(s: State) { s.process.writerCount <= 1 }

  predicate RetiredNeverCurrent(s: State) { s.epochs.activeEpoch !in s.epochs.retiredEpochs }

  predicate NormalTransitionDrained(s: State) { s.epochs.transitionMode == 1 ==> s.epochs.oldDrainedAtTransition }

  predicate ExceptionalTransitionCovered(s: State) {
    s.epochs.transitionMode == 2 ==>
      && s.gap.recorded && s.gap.epoch == 1 && s.gap.tail == s.epochs.oldTailAtTransition
      && s.epochs.oldTailAtTransition > 0 && s.gap.status != 0
  }

  predicate TemporalFloorSafe(s: State) {
    s.log.lastEventTime >= s.log.checkpointFloor && s.log.lastEventTime >= s.log.temporalFloor
  }

  predicate CommittedCheckpointSafe(s: State) { s.log.committedCheckpointFloor <= s.log.checkpointFloor }

  predicate SafePruneBound(s: State) { s.payout.pruneThrough <= s.payout.safeThrough }

  predicate PayoutEvidenceSafe(s: State) { s.payout.safeThrough == 0 || s.payout.evidence }

  predicate RollbackObserved(s: State) {
    s.log.receiverObserved < s.log.senderAck ==> s.process.faultPending != 0 || s.process.blocked
  }

  predicate EpochProofResetSafe(s: State) {
    && (s.proofs.membershipProof ==> s.proofs.membershipProofEpoch == s.epochs.activeEpoch)
    && (s.proofs.clockProof ==> s.proofs.clockProofEpoch == s.epochs.activeEpoch)
  }

  ghost predicate PayoutEnabled(s: State) {
    exists s' :: AdvancePayoutSafe(s, s')
  }

  ghost predicate WaivedGapBlocksScalar(s: State) { s.gap.status == 3 ==> !PayoutEnabled(s) }

  ghost predicate PolicyReconciliationBlocksScalar(s: State) {
    s.proofs.policyReconciliationPending ==> !PayoutEnabled(s)
  }

  // All seventeen.
  ghost predicate Safe(max: nat, s: State) {
    && TypeOk(max, s) && AckSafe(s) && PruneSafe(s) && ReceiverNotAhead(s) && AnchorNotAhead(s) && SingleWriter(s)
    && RetiredNeverCurrent(s) && NormalTransitionDrained(s) && ExceptionalTransitionCovered(s) && TemporalFloorSafe(s)
    && CommittedCheckpointSafe(s) && SafePruneBound(s) && PayoutEvidenceSafe(s) && RollbackObserved(s)
    && EpochProofResetSafe(s) && WaivedGapBlocksScalar(s) && PolicyReconciliationBlocksScalar(s)
  }

  // ------------------------------------------------------------------ why they hold

  // What makes the configured invariants inductive.
  predicate Supporting(s: State) {
    && (s.process.faultPending == 0 && !s.process.blocked ==> s.log.receiverObserved == s.log.receiverDurable)
    && (s.epochs.activeEpoch == 1 ==>
          s.epochs.transitionMode == 0 && !s.gap.recorded && s.gap.status == 0 && s.epochs.retiredEpochs == {})
    && (s.epochs.activeEpoch == 2 ==> s.epochs.retiredEpochs == {1} && s.epochs.transitionMode != 0)
    && (s.gap.status != 0 ==> s.gap.recorded)
    && (s.gap.recorded ==> s.epochs.activeEpoch == 2 && s.gap.epoch == 1)
    && s.payout.safeThrough <= s.log.checkpointFloor
  }

  predicate StateInv(max: nat, s: State) {
    && TypeOk(max, s) && AckSafe(s) && PruneSafe(s) && ReceiverNotAhead(s) && AnchorNotAhead(s) && SingleWriter(s)
    && RetiredNeverCurrent(s) && NormalTransitionDrained(s) && ExceptionalTransitionCovered(s) && TemporalFloorSafe(s)
    && CommittedCheckpointSafe(s) && SafePruneBound(s) && PayoutEvidenceSafe(s) && RollbackObserved(s)
    && EpochProofResetSafe(s) && Supporting(s)
  }

  lemma LogStepInv(max: nat, s: State, s': State)
    requires StateInv(max, s) && LogStep(max, s, s')
    ensures StateInv(max, s')
  {
  }

  lemma ProofStepInv(max: nat, s: State, s': State)
    requires StateInv(max, s) && ProofStep(max, s, s')
    ensures StateInv(max, s')
  {
  }

  lemma EpochStepInv(max: nat, s: State, s': State)
    requires StateInv(max, s) && EpochStep(s, s')
    ensures StateInv(max, s')
  {
  }

  lemma PayoutStepInv(max: nat, s: State, s': State)
    requires StateInv(max, s) && PayoutStep(s, s')
    ensures StateInv(max, s')
  {
  }

  lemma FaultStepInv(max: nat, s: State, s': State)
    requires StateInv(max, s) && FaultStep(s, s')
    ensures StateInv(max, s')
  {
  }

  lemma NextInv(max: nat, s: State, s': State)
    requires StateInv(max, s) && Next(max, s, s')
    ensures StateInv(max, s')
  {
    hide StateInv, LogStep, ProofStep, EpochStep, PayoutStep, FaultStep;
    if LogStep(max, s, s') {
      LogStepInv(max, s, s');
    } else if ProofStep(max, s, s') {
      ProofStepInv(max, s, s');
    } else if EpochStep(s, s') {
      EpochStepInv(max, s, s');
    } else if PayoutStep(s, s') {
      PayoutStepInv(max, s, s');
    } else {
      FaultStepInv(max, s, s');
    }
  }

  lemma {:induction false} RunInv(max: nat, states: seq<State>, i: nat)
    requires max >= 1 && Run(max, states) && i < |states|
    ensures StateInv(max, states[i])
  {
    hide Next, StateInv;
    if i == 0 {
      InitialInv(max);
    } else {
      RunInv(max, states, i - 1);
      if states[i] != states[i - 1] {
        NextInv(max, states[i - 1], states[i]);
      }
    }
  }

  lemma InitialInv(max: nat)
    requires max >= 1
    ensures StateInv(max, INITIAL)
  {
  }

  // ------------------------------------------------------------------ guarantees

  // All seventeen invariants hold in every reachable state, for every bound.
  lemma AlwaysSafe(max: nat, states: seq<State>, i: nat)
    requires max >= 1 && Run(max, states) && i < |states|
    ensures Safe(max, states[i])
  {
    hide Run;
    RunInv(max, states, i);
  }

  // Prune and payout marks never overtake the completeness boundary, and the freeze guard for the current epoch is
  // never in force: a recorded gap always belongs to the retired epoch.
  lemma MarksOrdered(max: nat, states: seq<State>, i: nat)
    requires max >= 1 && Run(max, states) && i < |states|
    ensures var s := states[i];
      s.payout.pruneThrough <= s.payout.safeThrough <= s.log.checkpointFloor <= s.log.lastEventTime
    ensures !GapFreezesCurrentEpoch(states[i])
  {
    hide Run;
    RunInv(max, states, i);
  }

  // What a step does to the gap and to the payout boundary.
  ghost predicate PayoutAndGap(s: State, s': State) {
    && s.payout.safeThrough <= s'.payout.safeThrough && s.payout.pruneThrough <= s'.payout.pruneThrough
    && (GapBlocksScalar(s) || s.proofs.policyReconciliationPending ==> s'.payout.safeThrough == s.payout.safeThrough)
    && (s.gap.recorded && s.epochs.activeEpoch == 2 && s.gap.status == 3 ==> s'.gap.status == 3)
    && (s.gap.recorded && s.epochs.activeEpoch == 2 && s.gap.status == 1 ==>
          s'.gap.status == 1 || ReconcileGap(s, s') || WaiveGap(s, s'))
  }

  lemma LogStepPayout(max: nat, s: State, s': State)
    requires LogStep(max, s, s') || FaultStep(s, s')
    ensures PayoutAndGap(s, s')
  {
  }

  lemma OtherStepPayout(max: nat, s: State, s': State)
    requires ProofStep(max, s, s') || EpochStep(s, s') || PayoutStep(s, s')
    ensures PayoutAndGap(s, s')
  {
  }

  lemma NextPayout(max: nat, s: State, s': State)
    requires Next(max, s, s')
    ensures PayoutAndGap(s, s')
  {
    hide PayoutAndGap, LogStep, ProofStep, EpochStep, PayoutStep, FaultStep;
    if LogStep(max, s, s') || FaultStep(s, s') {
      LogStepPayout(max, s, s');
    } else {
      OtherStepPayout(max, s, s');
    }
  }

  // After a gap is waived, the payout boundary never moves again.
  lemma {:induction false} WaivedFreezesPayout(max: nat, states: seq<State>, i: nat, j: nat)
    requires max >= 1 && Run(max, states) && i <= j < |states| && states[i].gap.status == 3
    ensures states[j].gap.status == 3 && states[j].payout.safeThrough == states[i].payout.safeThrough
    decreases j - i
  {
    hide Next, StateInv;
    if i < j {
      WaivedFreezesPayout(max, states, i, j - 1);
      RunInv(max, states, j - 1);
      if states[j] != states[j - 1] {
        NextPayout(max, states[j - 1], states[j]);
        GapIsOfSecondEpoch(max, states[j - 1]);
      }
    }
  }

  lemma GapIsOfSecondEpoch(max: nat, s: State)
    requires StateInv(max, s) && s.gap.status != 0
    ensures s.gap.recorded && s.epochs.activeEpoch == 2
  {
  }

  // While a gap is open, payouts stop as well, until a step reconciles it or waives it for good.
  lemma OpenGapStopsPayout(max: nat, states: seq<State>, i: nat)
    requires max >= 1 && Run(max, states) && i < |states| - 1 && states[i].gap.status == 1
    ensures var s, s' := states[i], states[i + 1];
      s'.payout.safeThrough == s.payout.safeThrough && (s'.gap.status == 1 || ReconcileGap(s, s') || WaiveGap(s, s'))
  {
    hide Next, StateInv;
    RunInv(max, states, i);
    GapIsOfSecondEpoch(max, states[i]);
    if states[i + 1] != states[i] {
      NextPayout(max, states[i], states[i + 1]);
    }
  }

  // Payout and prune boundaries never move back.
  lemma {:induction false} PayoutMonotone(max: nat, states: seq<State>, i: nat, j: nat)
    requires Run(max, states) && i <= j < |states|
    ensures states[i].payout.safeThrough <= states[j].payout.safeThrough
    ensures states[i].payout.pruneThrough <= states[j].payout.pruneThrough
    decreases j - i
  {
    hide Next;
    if i < j {
      PayoutMonotone(max, states, i, j - 1);
      if states[j] != states[j - 1] {
        NextPayout(max, states[j - 1], states[j]);
      }
    }
  }
}
