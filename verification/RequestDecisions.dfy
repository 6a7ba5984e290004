// Exactly which requests have an identity, and how the octets of it read.
module RequestDecisions {
  import opened Wrappers
  import opened Arithmetic
  import opened Bytes
  import opened Encoding
  import opened EncodingTypes
  import opened Requests
  import Wire

  lemma FitsTwo(n: nat)
    ensures Fits(2, n) <==> n < 0x1_0000
  {
    FitsPower(2, n);
    assert Pow(256, 2) == 256 * Pow(256, 1) && Pow(256, 1) == 256 * Pow(256, 0);
  }

  // The record type that goes with an event type in a lane.
  predicate Belongs(lane: int, eventType: int, record: string) {
    if lane == 0 then eventType == 512 && record == "MiningcoreAccountingShareRequestV1"
    else lane == 1 && ((eventType == 513 && record == "BitcoinDirectCoinbaseCandidateRequestV1")
                       || (eventType == 514 && record == "CandidateStateUpdateRequestV1"))
  }

  // A request has an identity exactly when its event type, lane and record type belong together, its scope is short
  // ASCII, and it is a well-typed record whose encoding has a length that can be written.
  lemma AdmissionExactly(sc: Schema, lane: int, eventType: int, scope: Octets, record: string, x: Val)
    ensures Admission(sc, lane, eventType, scope, record, x).Some? <==>
      && Belongs(lane, eventType, record)
      && |scope| < 0x1_0000 && (forall i :: 0 <= i < |scope| ==> scope[i] < 128)
      && TypedRecord(sc, record, x) && RecordLength(sc, record, x) < LENGTH_LIMIT
  {
    hide Encode, TypedRecord, RecordLength, Fits, BigEndian, Prefixed;
    EncodeExactly(sc, record, x);
    FitsTwo(|scope|);
    if eventType >= 0 {
      FitsTwo(eventType);
    }
    if Encode(sc, record, x).Some? {
      PrefixedExactly(Encode(sc, record, x).value);
    }
  }

  // How the identity reads: the tag, one octet for the lane, two for the event type, the scope after its two-octet
  // length, and the encoded request after its four-octet length.
  lemma AdmissionReads(sc: Schema, lane: int, eventType: int, scope: Octets, record: string, x: Val)
    requires Admission(sc, lane, eventType, scope, record, x).Some?
    ensures var a, n := Admission(sc, lane, eventType, scope, record, x).value, 23 + |scope|;
      && |a| >= n + 4 && a[..18] == ADMISSION_TAG && a[18] as int == lane
      && FromBigEndian(a[19..21]) == eventType && FromBigEndian(a[21..23]) == |scope| && a[23..n] == scope
      && FromBigEndian(a[n..n + 4]) == |a| - n - 4 && Encode(sc, record, x) == Some(a[n + 4..])
  {
    hide Encode, Fits, BigEndian, FromBigEndian, Prefixed;
    var r := Encode(sc, record, x).value;
    var p, t, l := Prefixed(r).value, BigEndian(2, eventType), BigEndian(2, |scope|);
    PrefixedReads(r);
    BigEndianInverse(2, eventType);
    BigEndianInverse(2, |scope|);
    var a := Admission(sc, lane, eventType, scope, record, x).value;
    assert a == ADMISSION_TAG + [lane as byte] + t + (l + scope) + p;
    assert a[19..21] == t && a[21..23] == l;
    var n := 23 + |scope|;
    assert a[n..] == p;
    assert a[n..n + 4] == p[..4] && a[n + 4..] == p[4..];
  }

  // A group has a digest exactly for a nonzero accounting identity of 16 octets, a well-typed request, a time of 64
  // bits, and a payload whose length can be written.
  lemma GroupExactly(hash: Octets -> Octets, id: Octets, request: Val, time: int, payload: Octets)
    ensures GroupPreimage(hash, id, request, time, payload).Some? <==>
      && |id| == 16 && (exists i :: 0 <= i < 16 && id[i] > 0)
      && TypedRecord(SCHEMAS, ACCOUNTING, request) && RecordLength(SCHEMAS, ACCOUNTING, request) < LENGTH_LIMIT
      && -SIGNED_LIMIT <= time < SIGNED_LIMIT && |payload| < LENGTH_LIMIT
  {
    hide Encode, TypedRecord, RecordLength, Fits, BigEndian, Prefixed, Leaf, TypedLeaf;
    EncodeExactly(SCHEMAS, ACCOUNTING, request);
    FitsTwo(1);
    IdentityExactly(id);
    TimeExactly(time);
    PrefixedExactly(payload);
    if Encode(SCHEMAS, ACCOUNTING, request).Some? {
      PrefixedExactly(Encode(SCHEMAS, ACCOUNTING, request).value);
    }
  }

  lemma IdentityExactly(id: Octets)
    ensures Leaf(Uuid, Octs(id)).Some? <==> |id| == 16 && exists i :: 0 <= i < 16 && id[i] > 0
    ensures Leaf(Uuid, Octs(id)).Some? ==> Leaf(Uuid, Octs(id)) == Some(id)
  {
    LeafExactly(Uuid, Octs(id));
  }

  lemma TimeExactly(time: int)
    ensures SignedInteger(time).Some? <==> -SIGNED_LIMIT <= time < SIGNED_LIMIT
    ensures SignedInteger(time).Some? ==>
      |SignedInteger(time).value| == 8
      && FromBigEndian(SignedInteger(time).value) - (if time < 0 then 2 * SIGNED_LIMIT else 0) == time
  {
    hide Fits, BigEndian, FromBigEndian;
    if -SIGNED_LIMIT <= time < SIGNED_LIMIT {
      var n := if time < 0 then time + 2 * SIGNED_LIMIT else time;
      FitsEight(n);
      BigEndianInverse(8, n);
    }
  }

  // How the hashed octets of a group read: version one, the identity, the encoded request after its length, the time in
  // two's complement, and the hash of the payload, which is that in the event's own chain hash.
  lemma GroupReads(hash: Octets -> Octets, id: Octets, request: Val, time: int, payload: Octets)
    requires GroupPreimage(hash, id, request, time, payload).Some?
    ensures var a, r := GroupPreimage(hash, id, request, time, payload).value, Encode(SCHEMAS, ACCOUNTING, request);
      && r.Some?
      && var n := 22 + |r.value|;
         && |a| >= n + 8 && a[..2] == [0, 1] && a[2..18] == id
         && FromBigEndian(a[18..22]) == |r.value| && a[22..n] == r.value
         && FromBigEndian(a[n..n + 8]) - (if time < 0 then 2 * SIGNED_LIMIT else 0) == time
         && a[n + 8..] == hash(Wire.PayloadPreimage(payload))
  {
    hide Encode, Fits, BigEndian, FromBigEndian, Prefixed, Leaf, SignedInteger, GroupPreimage;
    var r := GroupShape(hash, id, request, time, payload);
    TimeExactly(time);
    PrefixedReads(r);
    var p, t := Prefixed(r).value, SignedInteger(time).value;
    var h, n := hash(Wire.PayloadPreimage(payload)), 22 + |r|;
    var a := [0, 1] + id + (p + t) + h;
    assert a[18..n] == p && a[n..n + 8] == t && a[n + 8..] == h;
    assert a[18..22] == p[..4] && a[22..n] == p[4..];
  }

  lemma GroupShape(hash: Octets -> Octets, id: Octets, request: Val, time: int, payload: Octets) returns (r: Octets)
    requires GroupPreimage(hash, id, request, time, payload).Some?
    ensures |id| == 16 && Encode(SCHEMAS, ACCOUNTING, request) == Some(r)
    ensures Prefixed(r).Some? && SignedInteger(time).Some?
    ensures GroupPreimage(hash, id, request, time, payload).value
      == [0, 1] + id + (Prefixed(r).value + SignedInteger(time).value) + hash(Wire.PayloadPreimage(payload))
  {
    hide Encode, Fits, BigEndian, Prefixed, Leaf, SignedInteger, Integer;
    r := Encode(SCHEMAS, ACCOUNTING, request).value;
    IdentityExactly(id);
    ShortInteger(1);
    PayloadIs(payload);
  }

  lemma ShortInteger(n: nat)
    requires n < 256
    ensures Integer(2, n) == Some([0, n as byte])
  {
    FitsTwo(n);
    BigEndianSnoc(2, n);
    BigEndianSnoc(1, n / 256);
    assert BigEndian(0, n / 256 / 256) == [];
    hide Fits, BigEndian;
    var r: Octets := [0, n as byte];
    assert BigEndian(2, n) == r;
  }

  lemma PayloadIs(payload: Octets)
    requires Prefixed(payload).Some?
    ensures Wire.PayloadPreimage(payload) == Wire.PAYLOAD_TAG + Prefixed(payload).value
  {
    hide BigEndian, Fits;
  }
}
