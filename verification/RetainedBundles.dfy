// Recomputing a settlement from a retained bundle whose digest was recorded when it was settled.
module RetainedBundles {
  import opened Wrappers
  import opened Bytes
  import opened Collections
  import opened Decimal
  import opened Allocation
  import opened Audit
  import E = Encoding
  import R = Requests

  // The digests recorded at settlement must match before anything is recomputed.
  function Retained(x: Settings, b: Bundle, digest: Octets, summary: Octets, expected: map<Octets, (Octets, string)>)
      : Option<Settled> {
    match BundleOctets(b)
    case None => None
    case Some(octets) => if x.hash(octets) != digest || b.summaryHash != summary then None else Audited(x, b, expected)
  }

  // A retained bundle passes exactly when it settles, to the expected table and to the recorded digest, and names the
  // recorded summary.
  lemma RetainedExactly(x: Settings, b: Bundle, digest: Octets, summary: Octets,
      expected: map<Octets, (Octets, string)>)
    ensures var r, s := Retained(x, b, digest, summary, expected), Settle(x, b);
      && (r.Some? <==>
            s.Some? && s.value.amounts == expected && s.value.digest == digest && b.summaryHash == summary)
      && (r.Some? ==> r == s)
  {
    hide RewardOk, Gathered, Chosen, FinderOk, Allocate, Table, BundleOctets;
  }

  // ------------------------------------------------------------------ a bundle's value determines the bundle

  lemma TextInjective(s: string, t: string)
    requires DecimalOf(s).Success? && DecimalOf(t).Success? && TextOctets(s) == TextOctets(t)
    ensures s == t
  {
    hide DecimalOf;
    DecimalAscii(s);
    DecimalAscii(t);
    assert |s| == |TextOctets(s)| == |TextOctets(t)| == |t|;
    forall i | 0 <= i < |s|
      ensures s[i] == t[i]
    {
      assert TextOctets(s)[i] == TextOctets(t)[i];
    }
  }

  // Equal objects have equal fields, up to the order of arrays.
  lemma FieldNorm(v: E.Val, w: E.Val, k: string)
    requires v.Object? && w.Object? && E.Norm(v) == E.Norm(w) && k in v.fields
    ensures k in w.fields && E.Norm(v.fields[k]) == E.Norm(w.fields[k])
  {
    E.NormShape(v, w);
  }

  // A field that is neither an array nor an object is equal as it stands.
  lemma FieldEqual(v: E.Val, w: E.Val, k: string)
    requires v.Object? && w.Object? && E.Norm(v) == E.Norm(w) && k in v.fields
    requires !v.fields[k].List? && !v.fields[k].Object?
    ensures k in w.fields && v.fields[k] == w.fields[k]
  {
    hide E.Norm;
    FieldNorm(v, w, k);
    E.NormShape(v.fields[k], w.fields[k]);
  }

  lemma EventPosition(e: AuditEvent, f: AuditEvent)
    requires E.Norm(EventVal(e)) == E.Norm(EventVal(f))
    ensures e.time == f.time && e.sender == f.sender && e.sequence == f.sequence && e.relay == f.relay
    ensures e.epoch == f.epoch
  {
    hide E.Norm;
    var v, w := EventVal(e), EventVal(f);
    FieldEqual(v, w, "event_time");
    FieldEqual(v, w, "sender");
    FieldEqual(v, w, "sequence");
    FieldEqual(v, w, "relay");
    FieldEqual(v, w, "epoch");
  }

  lemma EventContents(e: AuditEvent, f: AuditEvent)
    requires E.Norm(EventVal(e)) == E.Norm(EventVal(f))
    ensures e.lane == f.lane && e.eventType == f.eventType && e.scope == f.scope
    ensures e.previous == f.previous && e.chain == f.chain && e.payload == f.payload
  {
    hide E.Norm;
    var v, w := EventVal(e), EventVal(f);
    FieldEqual(v, w, "lane");
    FieldEqual(v, w, "event_type");
    FieldEqual(v, w, "scope");
    FieldEqual(v, w, "previous_chain_hash");
    FieldEqual(v, w, "chain_hash");
    FieldEqual(v, w, "payload");
  }

  lemma EventValInjective(e: AuditEvent, f: AuditEvent)
    requires E.Norm(EventVal(e)) == E.Norm(EventVal(f))
    ensures e == f
  {
    hide E.Norm, EventVal;
    EventPosition(e, f);
    EventContents(e, f);
  }

  lemma DeductionValInjective(d: Deduction, e: Deduction)
    requires DecimalOf(d.amount).Success? && DecimalOf(e.amount).Success?
    requires E.Norm(DeductionVal(d)) == E.Norm(DeductionVal(e))
    ensures d == e
  {
    hide E.Norm, DecimalOf, TextOctets;
    FieldEqual(DeductionVal(d), DeductionVal(e), "destination");
    FieldEqual(DeductionVal(d), DeductionVal(e), "amount");
    TextInjective(d.amount, e.amount);
  }

  // Arrays with the same encoding hold the same items, rearranged.
  lemma ListPermutes<T>(s: seq<T>, t: seq<T>, f: T -> E.Val)
    requires E.Norm(E.List(Map(s, f))) == E.Norm(E.List(Map(t, f)))
    requires forall i, j :: 0 <= i < |s| && 0 <= j < |t| && E.Norm(f(s[i])) == E.Norm(f(t[j])) ==> s[i] == t[j]
    ensures Permutation(s, t)
  {
    hide E.Norm;
    var a, b := E.List(Map(s, f)), E.List(Map(t, f));
    E.NormShape(a, b);
    Transfer(E.Norms(a.items), s, E.Norms(b.items), t);
  }

  lemma InputsValInjective(i: Inputs, j: Inputs)
    requires RewardOk(i) && RewardOk(j) && i.finderPercentage == j.finderPercentage
    requires E.Norm(InputsVal(i)) == E.Norm(InputsVal(j))
    ensures Permutation(i.deductions, j.deductions) && j == i.(deductions := j.deductions)
  {
    hide E.Norm, DecimalOf, TextOctets, DeductionVal, Deducted;
    var v, w := InputsVal(i), InputsVal(j);
    FieldEqual(v, w, "block_hash");
    FieldEqual(v, w, "block_height");
    FieldEqual(v, w, "gross_reward");
    FieldEqual(v, w, "distributable_reward");
    FieldEqual(v, w, "finder_accounting_id");
    TextInjective(i.gross, j.gross);
    TextInjective(i.distributable, j.distributable);
    FieldNorm(v, w, "deductions");
    DeductionsPermute(i.deductions, j.deductions);
  }

  lemma DeductionsPermute(ds: seq<Deduction>, es: seq<Deduction>)
    requires forall d :: d in ds || d in es ==> DecimalOf(d.amount).Success?
    requires E.Norm(E.List(Map(ds, DeductionVal))) == E.Norm(E.List(Map(es, DeductionVal)))
    ensures Permutation(ds, es)
  {
    hide E.Norm, DecimalOf, DeductionVal;
    forall i, j | 0 <= i < |ds| && 0 <= j < |es| && E.Norm(DeductionVal(ds[i])) == E.Norm(DeductionVal(es[j]))
      ensures ds[i] == es[j]
    {
      DeductionValInjective(ds[i], es[j]);
    }
    ListPermutes(ds, es, DeductionVal);
  }

  lemma EventsPermute(es: seq<AuditEvent>, fs: seq<AuditEvent>)
    requires E.Norm(E.List(Map(es, EventVal))) == E.Norm(E.List(Map(fs, EventVal)))
    ensures Permutation(es, fs)
  {
    hide E.Norm, EventVal;
    forall i, j | 0 <= i < |es| && 0 <= j < |fs| && E.Norm(EventVal(es[i])) == E.Norm(EventVal(fs[j]))
      ensures es[i] == fs[j]
    {
      EventValInjective(es[i], fs[j]);
    }
    ListPermutes(es, fs, EventVal);
  }

  // Settled bundles with one encoding are rearrangements of each other.
  lemma BundleDetermined(x: Settings, b: Bundle, c: Bundle)
    requires Settle(x, b).Some? && Settle(x, c).Some? && E.Norm(BundleVal(b)) == E.Norm(BundleVal(c))
    ensures Rearranged(b, c)
  {
    hide E.Norm, InputsVal, RewardOk, Gathered, Chosen, FinderOk, BundleOctets, Table, Permutation;
    var v, w := BundleVal(b), BundleVal(c);
    FieldEqual(v, w, "summary_hash");
    FieldNorm(v, w, "inputs");
    FieldNorm(v, w, "events");
    EventsPermute(b.events, c.events);
    InputsValInjective(b.inputs, c.inputs);
  }

  // Two bundles that pass under one recorded digest are the same bundle up to the order of events and deductions, and
  // give the same settlement, unless their two encodings collide.
  lemma RetainedIsUnique(x: Settings, b: Bundle, c: Bundle, digest: Octets, summary: Octets,
      expected: map<Octets, (Octets, string)>, expected': map<Octets, (Octets, string)>)
    requires Retained(x, b, digest, summary, expected).Some? && Retained(x, c, digest, summary, expected').Some?
    requires x.hash(BundleOctets(b).value) == x.hash(BundleOctets(c).value) ==> BundleOctets(b) == BundleOctets(c)
    ensures Rearranged(b, c)
    ensures SameSettlement(Retained(x, b, digest, summary, expected).value,
                           Retained(x, c, digest, summary, expected').value)
  {
    hide Settle, E.Encode, BundleVal, Rearranged, SameSettlement;
    E.EncodingCanonical(R.SCHEMAS, R.BUNDLE, BundleVal(b), BundleVal(c));
    BundleDetermined(x, b, c);
    SettleOrderFree(x, b, c);
  }
}
