// The program's record types, the octets an admission is identified by, and the ledger of accounting groups.
module Requests {
  import opened Wrappers
  import opened Bytes
  import opened Encoding
  import Wire

  const SHARE := "MiningShareRequestV1"
  const PROJECTION := "ProjectionRequestV1"
  const ACCOUNTING := "MiningcoreAccountingShareRequestV1"
  const RECIPIENT := "DirectRecipientRequestV1"
  const CANDIDATE := "BitcoinDirectCoinbaseCandidateRequestV1"
  const UPDATE := "CandidateStateUpdateRequestV1"
  const DEDUCTION := "DeductionV1"
  const SETTLEMENT := "SettlementInputV1"
  const AUDIT_EVENT := "AuditEventV1"
  const BUNDLE := "SettlementAuditBundleV1"
  const POLICY := "ActivatedPolicyEvidenceV1"

  const U8 := Unsigned(1)
  const U16 := Unsigned(2)
  const U32 := Unsigned(4)
  const U64 := Unsigned(8)

  const SCHEMAS: Schema := map[
    SHARE := [
      Field("block_height", U64), Field("miner", Utf8), Field("worker", Utf8), Field("user_agent", Utf8),
      Field("difficulty", Double), Field("achieved_share_difficulty", Double), Field("actual_difficulty", Double),
      Field("network_difficulty", Double), Field("source_ip", Utf8), Field("source", Utf8), Field("session_id", Utf8),
      Field("is_block_candidate", Flag), Field("candidate_hash_hex", Optional(Raw)),
      Field("candidate_kind", Optional(Utf8)), Field("transaction_confirmation_data", Optional(Utf8)),
      Field("block_reward", Optional(Ascii))],
    PROJECTION := [
      Field("scope", Raw), Field("share", RecordOf(SHARE)), Field("accounting_id", Uuid), Field("accounting_role", U8),
      Field("reward_basis_satoshis", Signed64), Field("pps_calculated_amount", Optional(Ascii)),
      Field("block_only", Flag), Field("block_record_emitted", Flag), Field("statistical_record_emitted", Flag),
      Field("preserve_created", Flag)],
    ACCOUNTING := [Field("primary", RecordOf(PROJECTION)), Field("paired", Optional(RecordOf(PROJECTION)))],
    RECIPIENT := [Field("address", Optional(Utf8)), Field("script_pub_key", Raw), Field("amount_satoshis", Signed64)],
    COMMITMENT := [Field(OUTPUT_INDEX, U32), Field("script_pub_key", Raw)],
    CANDIDATE := [
      Field("block_height", U64), Field("block_hash", Digest), Field("coinbase_txid", Digest),
      Field("serialized_block", Raw), Field("gross_reward_satoshis", Signed64), Field("miner_script_pub_key", Raw),
      Field("miner_reward_satoshis", Signed64), Field("recipients", ArrayOf(RECIPIENT)), Field("miner", Utf8),
      Field("worker", Utf8), Field("candidate_id", Uuid), Field("submission_state", U8),
      Field("consensus_commitments", ArrayOf(COMMITMENT))],
    UPDATE := [
      Field("candidate_id", Uuid), Field("state", U8), Field("submission_attempts", U32),
      Field("definitive_misses", U32), Field("last_attempt_unix_ms", Optional(Signed64))],
    DEDUCTION := [Field("destination", Raw), Field("amount", Ascii)],
    SETTLEMENT := [
      Field("block_hash", Digest), Field("block_height", U64), Field("gross_reward", Ascii),
      Field("deductions", ArrayOf(DEDUCTION)), Field("distributable_reward", Ascii),
      Field("finder_accounting_id", Optional(Uuid)), Field("finder_percentage", Ascii)],
    AUDIT_EVENT := [
      Field("event_time", Signed64), Field("sender", Uuid), Field("sequence", U64), Field("relay", Uuid),
      Field("epoch", Uuid), Field("lane", U8), Field("event_type", U16), Field("scope", Raw),
      Field("previous_chain_hash", Digest), Field("chain_hash", Digest), Field("payload", Raw)],
    BUNDLE := [
      Field("summary_hash", Digest), Field("inputs", RecordOf(SETTLEMENT)), Field("events", ArrayOf(AUDIT_EVENT))],
    POLICY := [
      Field("receiver", Uuid), Field("incarnation", Uuid), Field("sender", Uuid), Field("scope", Raw),
      Field("generation", U64), Field("valid_from", Signed64), Field("valid_until", Optional(Signed64)),
      Field("mode", U8), Field("mining_contract", Digest), Field("miningcore_contract", Optional(Digest)),
      Field("admin_id", Uuid), Field("admin_digest", Digest), Field("state_version", U64)]]

  // ------------------------------------------------------------------ admission

  // "CoreDRP1-ADMISSION" in ASCII.
  const ADMISSION_TAG: Octets := [67, 111, 114, 101, 68, 82, 80, 49, 45, 65, 68, 77, 73, 83, 83, 73, 79, 78]

  predicate Placed(lane: int, eventType: int, record: string) {
    || (eventType == 512 && lane == 0 && record == ACCOUNTING)
    || (eventType == 513 && lane == 1 && record == CANDIDATE)
    || (eventType == 514 && lane == 1 && record == UPDATE)
  }

  predicate IsAscii(q: Octets) {
    forall i :: 0 <= i < |q| ==> q[i] < 128
  }

  // The octets that identify an admitted request; None where the program raises.
  function Admission(sc: Schema, lane: int, eventType: int, scope: Octets, record: string, x: Val): Option<Octets> {
    if !Placed(lane, eventType, record) || !IsAscii(scope) then None
    else match Encode(sc, record, x)
      case None => None
      case Some(r) =>
        Append(Append(Append(Some(ADMISSION_TAG + [lane as byte]), Integer(2, eventType)),
                      Append(Integer(2, |scope|), Some(scope))), Prefixed(r))
  }

  // Equal identities mean the same lane, event type, scope, record type, and request up to the order of its arrays.
  lemma AdmissionUnambiguous(sc: Schema, lane: int, eventType: int, scope: Octets, record: string, x: Val,
      lane': int, eventType': int, scope': Octets, record': string, x': Val)
    requires Admission(sc, lane, eventType, scope, record, x).Some?
    requires Admission(sc, lane, eventType, scope, record, x) == Admission(sc, lane', eventType', scope', record', x')
    ensures lane == lane' && eventType == eventType' && scope == scope' && record == record' && Norm(x) == Norm(x')
  {
    hide Encode, Integer, Prefixed;
    var a, b := Encode(sc, record, x).value, Encode(sc, record', x').value;
    var t, t' := Integer(2, eventType).value, Integer(2, eventType').value;
    var n, n' := Integer(2, |scope|).value, Integer(2, |scope'|).value;
    var l: Octets, l': Octets := [lane as byte], [lane' as byte];
    var p, p' := Prefixed(a).value, Prefixed(b).value;
    Regroup(ADMISSION_TAG, l, t, n, scope, p);
    Regroup(ADMISSION_TAG, l', t', n', scope', p');
    SplitAt(ADMISSION_TAG, l + (t + (n + (scope + p))), ADMISSION_TAG, l' + (t' + (n' + (scope' + p'))));
    SplitAt(l, t + (n + (scope + p)), l', t' + (n' + (scope' + p')));
    assert l[0] == l'[0];
    IntegerSplits(2, eventType, eventType', n + (scope + p), n' + (scope' + p'));
    IntegerSplits(2, |scope|, |scope'|, scope + p, scope' + p');
    SplitAt(scope, p, scope', p');
    assert p + [] == p && p' + [] == p';
    PrefixedSplits(a, b, [], []);
    EncodingCanonical(sc, record, x, x');
  }

  lemma Regroup(a: Octets, b: Octets, c: Octets, d: Octets, e: Octets, f: Octets)
    ensures a + b + c + (d + e) + f == a + (b + (c + (d + (e + f))))
  {
  }

  // ------------------------------------------------------------------ accounting groups

  // What a group digest is the hash of; the payload enters by its own hash.
  function GroupPreimage(hash: Octets -> Octets, id: Octets, request: Val, time: int, payload: Octets): Option<Octets> {
    match (Encode(SCHEMAS, ACCOUNTING, request), Prefixed(payload))
    case (Some(r), Some(p)) =>
      Append(Append(Append(Integer(2, 1), Leaf(Uuid, Octs(id))), Append(Prefixed(r), SignedInteger(time))),
             Some(hash(Wire.PAYLOAD_TAG + p)))
    case _ => None
  }

  lemma GroupUnambiguous(hash: Octets -> Octets, id: Octets, request: Val, time: int, payload: Octets,
      id': Octets, request': Val, time': int, payload': Octets)
    requires GroupPreimage(hash, id, request, time, payload).Some?
    requires GroupPreimage(hash, id, request, time, payload) == GroupPreimage(hash, id', request', time', payload')
    ensures id == id' && Norm(request) == Norm(request') && time == time'
    ensures hash(Wire.PAYLOAD_TAG + Prefixed(payload).value) == hash(Wire.PAYLOAD_TAG + Prefixed(payload').value)
  {
    hide Encode, Integer, Prefixed, SignedInteger, NonZero;
    var a, b := Encode(SCHEMAS, ACCOUNTING, request).value, Encode(SCHEMAS, ACCOUNTING, request').value;
    var one, t, t' := Integer(2, 1).value, SignedInteger(time).value, SignedInteger(time').value;
    var p, p' := Prefixed(a).value, Prefixed(b).value;
    var h, h' := hash(Wire.PAYLOAD_TAG + Prefixed(payload).value), hash(Wire.PAYLOAD_TAG + Prefixed(payload').value);
    RegroupDigest(one, id, p, t, h);
    RegroupDigest(one, id', p', t', h');
    SplitAt(one, id + (p + (t + h)), one, id' + (p' + (t' + h')));
    SplitAt(id, p + (t + h), id', p' + (t' + h'));
    PrefixedSplits(a, b, t + h, t' + h');
    SignedSplits(time, time', h, h');
    EncodingCanonical(SCHEMAS, ACCOUNTING, request, request');
  }

  lemma RegroupDigest(a: Octets, b: Octets, c: Octets, d: Octets, e: Octets)
    ensures a + b + (c + d) + e == a + (b + (c + (d + e)))
  {
  }

  datatype Effect = CommitEffects | Replay | Rejected

  datatype Group = Group(key: Octets, identity: Octets, digest: Octets)

  type LedgerMap = map<Octets, (Octets, Octets)>

  function Accepted(ledger: LedgerMap, g: Group): (LedgerMap, Effect) {
    if !(|g.key| == 16 && NonZero(g.key)) || |g.digest| != 32 then (ledger, Rejected)
    else if g.key in ledger then (ledger, if ledger[g.key] == (g.identity, g.digest) then Replay else Rejected)
    else (ledger[g.key := (g.identity, g.digest)], CommitEffects)
  }

  class Ledger {
    var entries: LedgerMap

    constructor ()
      ensures entries == map[]
    {
      entries := map[];
    }

    // Effects are committed for the first acceptance of a key; afterwards only the identical group is a replay.
    method AcceptGroup(g: Group) returns (e: Effect)
      modifies this
      ensures (entries, e) == Accepted(old(entries), g)
    {
      if !(|g.key| == 16 && NonZero(g.key)) || |g.digest| != 32 {
        return Rejected;
      }
      if g.key in entries {
        return if entries[g.key] != (g.identity, g.digest) then Rejected else Replay;
      }
      entries := entries[g.key := (g.identity, g.digest)];
      e := CommitEffects;
    }
  }

  function LedgerAfter(gs: seq<Group>): LedgerMap {
    if gs == [] then map[] else Accepted(LedgerAfter(gs[..|gs| - 1]), gs[|gs| - 1]).0
  }

  // What call i of a history answered.
  function EffectOf(gs: seq<Group>, i: nat): Effect
    requires i < |gs|
  {
    Accepted(LedgerAfter(gs[..i]), gs[i]).1
  }

  lemma {:induction false} LedgerRemembers(gs: seq<Group>, i: nat, n: nat)
    requires i < n <= |gs| && EffectOf(gs, i) == CommitEffects
    ensures gs[i].key in LedgerAfter(gs[..n]) && LedgerAfter(gs[..n])[gs[i].key] == (gs[i].identity, gs[i].digest)
  {
    hide NonZero;
    assert gs[..n][..n - 1] == gs[..n - 1];
    if i < n - 1 {
      LedgerRemembers(gs, i, n - 1);
    }
  }

  // Whatever is submitted in whatever order: the effects of a key are committed at most once, and from then on the
  // key is answered as a replay exactly for the group that was committed.
  lemma EffectsOnce(gs: seq<Group>, i: nat, j: nat)
    requires i < j < |gs| && gs[i].key == gs[j].key && EffectOf(gs, i) == CommitEffects
    ensures EffectOf(gs, j) == if gs[j] == gs[i] then Replay else Rejected
  {
    hide NonZero;
    LedgerRemembers(gs, i, j);
  }

  // ------------------------------------------------------------------ exactly which submissions commit

  // A key of sixteen octets that are not all zero, and a digest of thirty-two.
  predicate WellFormed(g: Group) {
    |g.key| == 16 && (exists i :: 0 <= i < 16 && g.key[i] != 0) && |g.digest| == 32
  }

  // Submission j is the first well-formed one with the key.
  predicate FirstWith(gs: seq<Group>, j: nat, key: Octets) {
    && j < |gs| && WellFormed(gs[j]) && gs[j].key == key
    && forall k :: 0 <= k < j ==> !(WellFormed(gs[k]) && gs[k].key == key)
  }

  lemma FormedIs(g: Group)
    ensures WellFormed(g) <==> |g.key| == 16 && NonZero(g.key) && |g.digest| == 32
  {
  }

  // The ledger holds, for each key, the first well-formed submission.
  lemma {:induction false} LedgerExactly(gs: seq<Group>, key: Octets)
    ensures key in LedgerAfter(gs) ==>
      exists j: nat :: FirstWith(gs, j, key) && LedgerAfter(gs)[key] == (gs[j].identity, gs[j].digest)
    ensures key !in LedgerAfter(gs) ==> forall j :: 0 <= j < |gs| ==> !(WellFormed(gs[j]) && gs[j].key == key)
  {
    if gs != [] {
      hide NonZero, WellFormed;
      var gs0, g := gs[..|gs| - 1], gs[|gs| - 1];
      LedgerExactly(gs0, key);
      FormedIs(g);
      if key in LedgerAfter(gs0) {
        var j: nat :| FirstWith(gs0, j, key) && LedgerAfter(gs0)[key] == (gs0[j].identity, gs0[j].digest);
        assert FirstWith(gs, j, key);
      } else if key in LedgerAfter(gs) {
        assert FirstWith(gs, |gs| - 1, key);
      }
    }
  }

  lemma FirstUnique(gs: seq<Group>, i: nat, j: nat, key: Octets)
    requires FirstWith(gs, i, key) && FirstWith(gs, j, key)
    ensures i == j
  {
    hide WellFormed;
  }

  // In any history a submission commits its effects exactly when it is well formed and no earlier well-formed one has
  // its key; it is a replay exactly when it repeats, field for field, the first well-formed one with its key; all
  // others are rejected.
  lemma SubmissionExactly(gs: seq<Group>, i: nat)
    requires i < |gs|
    ensures EffectOf(gs, i) == CommitEffects <==> FirstWith(gs, i, gs[i].key)
    ensures EffectOf(gs, i) == Replay <==> exists j: nat :: j < i && FirstWith(gs, j, gs[i].key) && gs[j] == gs[i]
  {
    hide NonZero, WellFormed, LedgerAfter;
    var before, g := gs[..i], gs[i];
    FormedIs(g);
    LedgerExactly(before, g.key);
    forall j: nat | j < i
      ensures FirstWith(before, j, g.key) <==> FirstWith(gs, j, g.key)
    {
      assert forall k :: 0 <= k <= j ==> before[k] == gs[k];
    }
    if g.key in LedgerAfter(before) {
      var j: nat :| FirstWith(before, j, g.key) && LedgerAfter(before)[g.key] == (before[j].identity, before[j].digest);
      assert FirstWith(gs, j, g.key) && before[j] == gs[j];
      forall k: nat | k < i && FirstWith(gs, k, g.key)
        ensures k == j
      {
        FirstUnique(gs, k, j, g.key);
      }
    } else {
      assert forall k :: 0 <= k < i ==> before[k] == gs[k];
    }
  }
}
