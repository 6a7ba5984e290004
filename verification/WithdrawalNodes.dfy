// A sender's and the receiver's policy state, updated in place.
module WithdrawalNodes {
  import opened Wrappers
  import opened Arithmetic
  import opened Bytes
  import opened Withdrawal

  class Sender {
    var policies: map<Octets, Policy>
    var caps: map<Octets, seq<Cap>>
    var historyKnown: bool
    var outcomes: map<Octets, int>
    var lastSequence: int
    var wal: seq<Entry>
    var admittedThrough: map<Octets, int>

    function State(): SenderState
      reads this
    {
      SenderState(policies, caps, historyKnown, outcomes, lastSequence, wal, admittedThrough)
    }

    constructor (policies: map<Octets, Policy>, historyKnown: bool)
      ensures State() == SenderState(policies, map[], historyKnown, map[], 0, [], map[])
    {
      this.policies, this.caps, this.historyKnown := policies, map[], historyKnown;
      this.outcomes, this.lastSequence, this.wal, this.admittedThrough := map[], 0, [], map[];
    }

    // A retry returns first; otherwise every scope must pass before anything changes.
    method Admit(request: Octets, scopes: seq<Octets>, time: int) returns (r: Result<int, PolicyError>)
      modifies this
      ensures request in old(State()).outcomes ==> State() == old(State()) && r == Success(old(outcomes)[request])
      ensures request !in old(State()).outcomes ==>
        match Refusal(old(State()), scopes, time)
        case Failure(e) => r == Failure(e) && State() == old(State())
        case Success(_) =>
          r == Success(old(lastSequence) + 1) && State() == Admitted(old(State()), request, scopes, time)
    {
      hide CheckScopes, Raise;
      if request in outcomes {
        return Success(outcomes[request]);
      }
      var evidence := CheckEvidence(scopes, time);
      if evidence.Failure? {
        return Failure(evidence.error);
      }
      if !historyKnown {
        return Failure(UnknownHistory);
      }
      var sequence := lastSequence + 1;
      wal := wal + [Entry(request, scopes, time)];
      lastSequence := sequence;
      RaiseMarks(scopes, time);
      outcomes := outcomes[request := sequence];
      r := Success(sequence);
    }

    // The evidence for each scope in turn; the first scope that fails decides.
    method CheckEvidence(scopes: seq<Octets>, time: int) returns (r: Result<(), PolicyError>)
      ensures r == CheckScopes(State(), scopes, time)
    {
      hide CheckScopes;
      for i := 0 to |scopes|
        invariant forall k :: 0 <= k < i ==> CheckScope(State(), scopes[k], time).Success?
      {
        ScopesPrefix(State(), scopes, time, i);
        var q := scopes[i];
        if q !in policies || !policies[q].activated || !policies[q].authorized || !policies[q].contract {
          return Failure(MissingEvidence);
        }
        var p := policies[q];
        var withdrawn := Withdrawn(q, p.generation, time);
        if withdrawn {
          return Failure(PermissionWithdrawn);
        }
        if !(p.from <= time < p.until) {
          return Failure(OutsideCoverage);
        }
        if p.mode == UnknownMode {
          return Failure(UnknownPolicy);
        }
        if p.mode == RelayRequired && !p.member {
          return Failure(NotMember);
        }
      }
      ScopesChecked(State(), scopes, time);
      r := Success(());
    }

    // Raises the high-water mark of every scope of an admitted event.
    method RaiseMarks(scopes: seq<Octets>, time: int)
      modifies this`admittedThrough
      ensures admittedThrough == Raise(old(admittedThrough), scopes, time)
    {
      for i := 0 to |scopes|
        invariant admittedThrough == Raise(old(admittedThrough), scopes[..i], time)
      {
        var q := scopes[i];
        assert scopes[..i + 1][..i] == scopes[..i];
        admittedThrough := admittedThrough[q := Max(time, if q in admittedThrough then admittedThrough[q] else -1)];
      }
      assert scopes[..|scopes|] == scopes;
    }

    method Withdrawn(scope: Octets, generation: int, time: int) returns (b: bool)
      ensures b == Capped(CapsFor(State(), scope), generation, time)
    {
      var found := if scope in caps then caps[scope] else [];
      for i := 0 to |found|
        invariant !Capped(found[..i], generation, time)
      {
        if generation < found[i].generation && time >= found[i].boundary {
          return true;
        }
      }
      assert found[..|found|] == found;
      b := false;
    }

    // The cap is recorded before the history is looked at, and stays when the history refuses.
    method StageWithdrawal(scope: Octets, p: Pending) returns (r: Result<StagingAck, PolicyError>)
      modifies this`caps
      ensures (State(), r) == Staged(old(State()), scope, p)
    {
      var found := if scope in caps then caps[scope] else [];
      var cap := Cap(p.generation, p.effective);
      caps := caps[scope := if cap in found then found else found + [cap]];
      if !historyKnown {
        return Failure(UnknownHistory);
      }
      var high := if scope in admittedThrough then admittedThrough[scope] else -1;
      for i := 0 to |wal|
        invariant high == Latest(ThroughOf(State(), scope), wal[..i], scope)
      {
        assert wal[..i + 1][..i] == wal[..i];
        if scope in wal[i].scopes {
          high := Max(high, wal[i].time);
        }
      }
      assert wal[..|wal|] == wal;
      if high >= p.effective {
        return Failure(HistoryCrosses);
      }
      r := Success(StagingAck(p.generation, p.digest));
    }
  }

  class Receiver {
    var mode: Mode
    var holders: set<Octets>
    var holderSkews: map<Octets, int>
    var pending: Option<Pending>
    var historyKnown: bool
    var committedThrough: map<(Octets, Octets), int>

    function State(): ReceiverState
      reads this
    {
      ReceiverState(mode, holders, holderSkews, pending, historyKnown, committedThrough)
    }

    constructor (mode: Mode, historyKnown: bool)
      ensures State() == ReceiverState(mode, {}, map[], None, historyKnown, map[])
    {
      this.mode, this.holders, this.holderSkews, this.pending := mode, {}, map[], None;
      this.historyKnown, this.committedThrough := historyKnown, map[];
    }

    method IssueNoRelay(sender: Octets, skew: int) returns (r: Result<(), PolicyError>)
      modifies this`holders, this`holderSkews
      ensures match Issued(old(State()), sender, skew)
        case Failure(e) => r == Failure(e) && State() == old(State())
        case Success(s) => r == Success(()) && State() == s
    {
      if pending.Some? || mode != NoRelayRequired {
        return Failure(IssuanceUnavailable);
      }
      holders := holders + {sender};
      holderSkews := holderSkews[sender := Max(skew, if sender in holderSkews then holderSkews[sender] else 0)];
      r := Success(());
    }

    method PrepareRequired(members: set<Octets>, effective: int, generation: int, digest: Octets, scope: Octets)
        returns (r: Result<(), PolicyError>)
      modifies this`pending
      ensures match Prepared(old(State()), members, effective, generation, digest, scope)
        case Failure(e) => r == Failure(e) && State() == old(State())
        case Success(s) => r == Success(()) && State() == s
    {
      if pending.Some? || members == {} {
        return Failure(TransitionConflict);
      }
      pending := Some(Pending(members + holders, members, effective, generation, digest, {}, scope));
      r := Success(());
    }

    method AcknowledgeRequired(sender: Octets, ack: StagingAck) returns (r: Result<(), PolicyError>)
      requires pending.Some?
      modifies this`pending
      ensures match AcknowledgedBy(old(State()), sender, ack)
        case Failure(e) => r == Failure(e) && State() == old(State())
        case Success(s) => r == Success(()) && State() == s
    {
      var p := pending.value;
      if sender !in p.required || ack != StagingAck(p.generation, p.digest) {
        return Failure(StagingMismatch);
      }
      pending := Some(p.(acks := p.acks + {sender}));
      r := Success(());
    }

    method Commit() returns (r: Result<(), PolicyError>)
      requires pending.Some?
      modifies this`pending, this`mode
      ensures match CommitRequired(old(State()))
        case Failure(e) => r == Failure(e) && State() == old(State())
        case Success(s) => r == Success(()) && State() == s
    {
      var p := pending.value;
      if p.required != p.members + holders || p.acks != p.required {
        return Failure(MissingAcknowledgement);
      }
      if !historyKnown {
        return Failure(UnknownHistory);
      }
      if exists k :: k in committedThrough && k.1 == p.scope && committedThrough[k] >= p.effective {
        return Failure(HistoryCrosses);
      }
      mode := RelayRequired;
      pending := None;
      r := Success(());
    }
  }
}
