// Canonical octets of typed requests, for any table of record types.
//
// Text is given by its UTF-8 octets and octet strings by their decoded octets. Arrays stand for collections: the
// encoding orders them, and `Norm` forgets their order.
module Encoding {
  import opened Wrappers
  import opened Bytes
  import opened ByteOrder
  import opened Collections

  datatype Kind =
    | Optional(of: Kind)
    | ArrayOf(record: string)
    | RecordOf(record: string)
    | Unsigned(width: nat)
    | Signed64
    | Flag
    | Double
    | Uuid
    | Digest
    | Raw
    | Utf8
    | Ascii

  datatype Field = Field(name: string, kind: Kind)

  type Schema = map<string, seq<Field>>

  datatype Val =
    | Nothing
    | Int(n: int)
    | Bool(b: bool)
    | Float(bits: nat)
    | Octs(octets: Octets)
    | Text(utf8: Octets)
    | List(items: seq<Val>)
    | Object(fields: map<string, Val>)

  // A value without the order of its arrays.
  datatype Normal =
    | NLeaf(v: Val)
    | NBag(bag: multiset<Normal>)
    | NObject(named: map<string, Normal>)

  function Norm(v: Val): Normal {
    match v
    case List(items) => NBag(multiset(seq(|items|, i requires 0 <= i < |items| => Norm(items[i]))))
    case Object(fields) => NObject(map k | k in fields :: Norm(fields[k]))
    case _ => NLeaf(v)
  }

  function Norms(items: seq<Val>): (r: seq<Normal>)
    ensures |r| == |items| && forall i :: 0 <= i < |items| ==> r[i] == Norm(items[i])
  {
    seq(|items|, i requires 0 <= i < |items| => Norm(items[i]))
  }

  // ------------------------------------------------------------------ the encoder

  const INFINITY_BITS: nat := 0x7ff0_0000_0000_0000

  function Integer(width: nat, n: int): Option<Octets> {
    if n >= 0 && Fits(width, n) then Some(BigEndian(width, n)) else None
  }

  const SIGNED_LIMIT: int := 0x8000_0000_0000_0000

  function SignedInteger(n: int): Option<Octets> {
    if -SIGNED_LIMIT <= n < SIGNED_LIMIT then Integer(8, if n < 0 then n + 2 * SIGNED_LIMIT else n) else None
  }

  // A four-octet length, then the octets.
  function Prefixed(b: Octets): Option<Octets> {
    match Integer(4, |b|)
    case None => None
    case Some(n) => Some(n + b)
  }

  function Append(a: Option<Octets>, b: Option<Octets>): Option<Octets> {
    match (a, b)
    case (Some(x), Some(y)) => Some(x + y)
    case _ => None
  }

  // Kinds that do not refer to other kinds.
  function Leaf(k: Kind, v: Val): Option<Octets> {
    match (k, v)
    case (Unsigned(width), Int(n)) => Integer(width, n)
    case (Signed64, Int(n)) => SignedInteger(n)
    case (Flag, Bool(b)) => Some([if b then 1 else 0])
    case (Double, Float(bits)) => if 0 < bits < INFINITY_BITS then Integer(8, bits) else None
    case (Uuid, Octs(b)) => if |b| == 16 && NonZero(b) then Some(b) else None
    case (Digest, Octs(b)) => if |b| == 32 then Some(b) else None
    case (Raw, Octs(b)) => Prefixed(b)
    case (Utf8, Text(b)) => Prefixed(b)
    case (Ascii, Text(b)) => if forall i :: 0 <= i < |b| ==> b[i] < 128 then Prefixed(b) else None
    case _ => None
  }

  function Value(sc: Schema, k: Kind, v: Val): Option<Octets>
    decreases v, 3, k
  {
    match k
    case Optional(of) => if v == Nothing then Some([0]) else Append(Some([1]), Value(sc, of, v))
    case ArrayOf(record) => if v.List? then Arranged(record, v.items, EncodeItems(sc, record, v)) else None
    case RecordOf(record) =>
      (match Encode(sc, record, v)
       case None => None
       case Some(b) => Prefixed(b))
    case _ => Leaf(k, v)
  }

  // A record: version one, then its fields in the order of the schema. Exactly the schema's fields must be there.
  function Encode(sc: Schema, record: string, v: Val): Option<Octets>
    decreases v, 2
  {
    if record !in sc || !v.Object? || v.fields.Keys != Names(sc[record]) then None
    else Append(Integer(2, 1), EncodeFields(sc, sc[record], v))
  }

  function Names(fields: seq<Field>): set<string> {
    set f | f in fields :: f.name
  }

  function EncodeFields(sc: Schema, fields: seq<Field>, v: Val): Option<Octets>
    requires v.Object? && Names(fields) <= v.fields.Keys
    decreases v, 1, |fields|
  {
    if fields == [] then Some([])
    else
      assert fields[0].name in Names(fields);
      Append(Value(sc, fields[0].kind, v.fields[fields[0].name]), EncodeFields(sc, fields[1..], v))
  }

  function EncodeItems(sc: Schema, record: string, v: Val): (r: seq<Option<Octets>>)
    requires v.List?
    ensures |r| == |v.items|
    ensures forall i :: 0 <= i < |r| ==> r[i] == Encode(sc, record, v.items[i])
    decreases v, 2
  {
    seq(|v.items|, i requires 0 <= i < |v.items| => Encode(sc, record, v.items[i]))
  }

  // ------------------------------------------------------------------ arrays

  const COMMITMENT := "CommitmentRequestV1"
  const OUTPUT_INDEX := "output_index"

  function IndexOf(v: Val): Option<int> {
    if v.Object? && OUTPUT_INDEX in v.fields && v.fields[OUTPUT_INDEX].Int? then Some(v.fields[OUTPUT_INDEX].n)
    else None
  }

  datatype Entry = Entry(index: int, octets: Octets)

  predicate EntryNotAfter(a: Entry, b: Entry) {
    a.index < b.index || (a.index == b.index && NotAbove(a.octets, b.octets))
  }

  predicate AllSome<T>(s: seq<Option<T>>) {
    forall i :: 0 <= i < |s| ==> s[i].Some?
  }

  function Values<T>(s: seq<Option<T>>): (r: seq<T>)
    requires AllSome(s)
    ensures |r| == |s| && forall i :: 0 <= i < |s| ==> r[i] == s[i].value
  {
    seq(|s|, i requires 0 <= i < |s| => s[i].value)
  }

  function Indices(items: seq<Val>): (r: seq<Option<int>>)
    ensures |r| == |items| && forall i :: 0 <= i < |r| ==> r[i] == IndexOf(items[i])
  {
    seq(|items|, i requires 0 <= i < |items| => IndexOf(items[i]))
  }

  function Zip(indices: seq<int>, records: seq<Octets>): (r: seq<Entry>)
    requires |indices| == |records|
    ensures |r| == |records| && forall i :: 0 <= i < |r| ==> r[i] == Entry(indices[i], records[i])
  {
    seq(|records|, i requires 0 <= i < |records| => Entry(indices[i], records[i]))
  }

  function EntryOctets(e: Entry): Octets {
    e.octets
  }

  // The records in canonical order: commitments by distinct output index, all others by their octets.
  function Ordered(record: string, items: seq<Val>, records: seq<Octets>): Option<seq<Octets>>
    requires |items| == |records|
  {
    if record != COMMITMENT then Some(Sort(records, NotAbove))
    else if !AllSome(Indices(items)) || !NoDuplicates(Values(Indices(items))) then None
    else Some(Map(Sort(Zip(Values(Indices(items)), records), EntryNotAfter), EntryOctets))
  }

  function Concat(records: seq<Octets>): Option<Octets> {
    if records == [] then Some([]) else Append(Prefixed(records[0]), Concat(records[1..]))
  }

  function Arranged(record: string, items: seq<Val>, records: seq<Option<Octets>>): Option<Octets>
    requires |items| == |records|
  {
    if !AllSome(records) then None
    else match Ordered(record, items, Values(records))
      case None => None
      case Some(sorted) => Append(Integer(4, |sorted|), Concat(sorted))
  }

  // ------------------------------------------------------------------ ordering loses nothing but the order

  lemma EntryOrder()
    ensures TotalOrder(EntryNotAfter)
    ensures forall s: seq<Entry> :: Distinguishes(s, EntryNotAfter)
  {
    NotAboveTotal();
    forall a: Entry, b: Entry
      ensures (EntryNotAfter(a, b) || EntryNotAfter(b, a)) && (EntryNotAfter(a, b) && EntryNotAfter(b, a) ==> a == b)
    {
      BytesTotal(a.octets, b.octets);
    }
    forall a: Entry, b: Entry, c: Entry | EntryNotAfter(a, b) && EntryNotAfter(b, c)
      ensures EntryNotAfter(a, c)
    {
      assert NotAbove(a.octets, b.octets) && NotAbove(b.octets, c.octets) ==> NotAbove(a.octets, c.octets);
    }
  }

  lemma OrderedPermutes(record: string, items: seq<Val>, records: seq<Octets>)
    requires |items| == |records| && Ordered(record, items, records).Some?
    ensures Permutation(Ordered(record, items, records).value, records)
    ensures |Ordered(record, items, records).value| == |records|
  {
    hide Sort, TotalOrder, SortedBy;
    var sorted := Ordered(record, items, records).value;
    if record != COMMITMENT {
      NotAboveTotal();
      SortSorts(records, NotAbove);
    } else {
      EntryOrder();
      var entries := Zip(Values(Indices(items)), records);
      SortSorts(entries, EntryNotAfter);
      MapPermutes(Sort(entries, EntryNotAfter), entries, EntryOctets);
      assert Map(entries, EntryOctets) == records;
    }
    PermutationElements(sorted, records);
  }

  // Rearranged items with the same records in the same places are put in the same order.
  lemma OrderedAlike(record: string, xs: seq<Val>, rx: seq<Octets>, ys: seq<Val>, ry: seq<Octets>)
    requires |xs| == |rx| && |ys| == |ry| && Permutation(Norms(xs), Norms(ys))
    requires forall i, j :: 0 <= i < |xs| && 0 <= j < |ys| && Norm(xs[i]) == Norm(ys[j]) ==> rx[i] == ry[j]
    ensures Ordered(record, xs, rx) == Ordered(record, ys, ry)
  {
    hide Sort, TotalOrder, SortedBy, Distinguishes, Norm, NoDuplicates;
    PermutationElements(Norms(xs), Norms(ys));
    if record != COMMITMENT {
      Transfer(Norms(xs), rx, Norms(ys), ry);
      NotAboveTotal();
      SortOrderFree(rx, ry, NotAbove);
    } else {
      forall i, j | 0 <= i < |xs| && 0 <= j < |ys| && Norm(xs[i]) == Norm(ys[j])
        ensures IndexOf(xs[i]) == IndexOf(ys[j])
      {
        NormIndex(xs[i], ys[j]);
      }
      Transfer(Norms(xs), Indices(xs), Norms(ys), Indices(ys));
      OrderedCommitments(xs, rx, ys, ry);
    }
  }

  lemma NormIndex(x: Val, y: Val)
    requires Norm(x) == Norm(y)
    ensures IndexOf(x) == IndexOf(y)
  {
    if x.Object? {
      assert Norm(x).named.Keys == x.fields.Keys && Norm(y).named.Keys == y.fields.Keys;
      if OUTPUT_INDEX in x.fields {
        assert Norm(x.fields[OUTPUT_INDEX]) == Norm(x).named[OUTPUT_INDEX] == Norm(y.fields[OUTPUT_INDEX]);
      }
    }
  }

  lemma OrderedCommitments(xs: seq<Val>, rx: seq<Octets>, ys: seq<Val>, ry: seq<Octets>)
    requires |xs| == |rx| && |ys| == |ry| && Permutation(Norms(xs), Norms(ys)) && Permutation(Indices(xs), Indices(ys))
    requires forall i, j :: 0 <= i < |xs| && 0 <= j < |ys| && Norm(xs[i]) == Norm(ys[j]) ==>
      rx[i] == ry[j] && IndexOf(xs[i]) == IndexOf(ys[j])
    ensures Ordered(COMMITMENT, xs, rx) == Ordered(COMMITMENT, ys, ry)
  {
    hide Sort, TotalOrder, SortedBy, Distinguishes, Norm, IndexOf;
    PermutationElements(Indices(xs), Indices(ys));
    assert AllSome(Indices(xs)) <==> AllSome(Indices(ys)) by {
      assert forall o :: o in Indices(xs) <==> o in Indices(ys);
      SomeMembers(Indices(xs));
      SomeMembers(Indices(ys));
    }
    if AllSome(Indices(xs)) {
      var ix, iy := Values(Indices(xs)), Values(Indices(ys));
      Transfer(Norms(xs), ix, Norms(ys), iy);
      PermutationElements(ix, iy);
      var ex, ey := Zip(ix, rx), Zip(iy, ry);
      Transfer(Norms(xs), ex, Norms(ys), ey);
      EntryOrder();
      SortOrderFree(ex, ey, EntryNotAfter);
    }
  }

  lemma SomeMembers<T>(s: seq<Option<T>>)
    ensures AllSome(s) <==> None !in s
  {
  }

  // ------------------------------------------------------------------ prefix-freeness

  lemma IntegerSplits(width: nat, n: int, m: int, s: Octets, t: Octets)
    requires Integer(width, n).Some? && Integer(width, m).Some?
    requires Integer(width, n).value + s == Integer(width, m).value + t
    ensures n == m && s == t
  {
    SplitAt(BigEndian(width, n), s, BigEndian(width, m), t);
    BigEndianInjective(width, n, m);
  }

  lemma PrefixedSplits(a: Octets, b: Octets, s: Octets, t: Octets)
    requires Prefixed(a).Some? && Prefixed(b).Some? && Prefixed(a).value + s == Prefixed(b).value + t
    ensures a == b && s == t
  {
    var n, m := Integer(4, |a|).value, Integer(4, |b|).value;
    assert n + a + s == n + (a + s) && m + b + t == m + (b + t);
    IntegerSplits(4, |a|, |b|, a + s, b + t);
    SplitAt(a, s, b, t);
  }

  lemma {:induction false} ConcatSplits(a: seq<Octets>, b: seq<Octets>, s: Octets, t: Octets)
    requires |a| == |b| && Concat(a).Some? && Concat(b).Some? && Concat(a).value + s == Concat(b).value + t
    ensures a == b && s == t
  {
    if a != [] {
      var p, q := Concat(a[1..]).value, Concat(b[1..]).value;
      assert Prefixed(a[0]).value + p + s == Prefixed(a[0]).value + (p + s);
      assert Prefixed(b[0]).value + q + t == Prefixed(b[0]).value + (q + t);
      PrefixedSplits(a[0], b[0], p + s, q + t);
      ConcatSplits(a[1..], b[1..], s, t);
      assert a == [a[0]] + a[1..] && b == [b[0]] + b[1..];
    } else {
      assert [] + s == s && [] + t == t;
    }
  }

  // An encoded array determines the collection of its records.
  lemma ArrangedSplits(record: string, xs: seq<Val>, rx: seq<Option<Octets>>, ys: seq<Val>, ry: seq<Option<Octets>>,
      s: Octets, t: Octets)
    requires |xs| == |rx| && |ys| == |ry| && Arranged(record, xs, rx).Some? && Arranged(record, ys, ry).Some?
    requires Arranged(record, xs, rx).value + s == Arranged(record, ys, ry).value + t
    ensures s == t && Arranged(record, xs, rx) == Arranged(record, ys, ry)
    ensures AllSome(rx) && AllSome(ry) && Permutation(Values(rx), Values(ry))
  {
    hide Ordered, Concat, Integer;
    var ox, oy := Ordered(record, xs, Values(rx)).value, Ordered(record, ys, Values(ry)).value;
    var n, m, a, b := Integer(4, |ox|).value, Integer(4, |oy|).value, Concat(ox).value, Concat(oy).value;
    assert n + a + s == n + (a + s) && m + b + t == m + (b + t);
    IntegerSplits(4, |ox|, |oy|, a + s, b + t);
    ConcatSplits(ox, oy, s, t);
    OrderedPermutes(record, xs, Values(rx));
    OrderedPermutes(record, ys, Values(ry));
  }

  lemma SignedSplits(n: int, m: int, s: Octets, t: Octets)
    requires SignedInteger(n).Some? && SignedInteger(m).Some?
    requires SignedInteger(n).value + s == SignedInteger(m).value + t
    ensures n == m && s == t
  {
    IntegerSplits(8, if n < 0 then n + 2 * SIGNED_LIMIT else n, if m < 0 then m + 2 * SIGNED_LIMIT else m, s, t);
  }

  lemma LeafSplits(k: Kind, v: Val, w: Val, s: Octets, t: Octets)
    requires Leaf(k, v).Some? && Leaf(k, w).Some? && Leaf(k, v).value + s == Leaf(k, w).value + t
    ensures v == w && s == t
  {
    hide Integer, SignedInteger, Prefixed, NonZero;
    match k
    case Unsigned(width) => IntegerSplits(width, v.n, w.n, s, t);
    case Signed64 => SignedSplits(v.n, w.n, s, t);
    case Double => IntegerSplits(8, v.bits, w.bits, s, t);
    case Raw => PrefixedSplits(v.octets, w.octets, s, t);
    case Utf8 => PrefixedSplits(v.utf8, w.utf8, s, t);
    case Ascii => PrefixedSplits(v.utf8, w.utf8, s, t);
    case Flag => SplitAt(Leaf(k, v).value, s, Leaf(k, w).value, t);
    case Uuid => SplitAt(v.octets, s, w.octets, t);
    case Digest => SplitAt(v.octets, s, w.octets, t);
    case _ =>
  }

  lemma AppendSplits(a: Octets, b: Octets, s: Octets)
    ensures a + b + s == a + (b + s)
  {
  }

  // An absent and a present value differ in their first octet.
  lemma OptionalSplits(absent: bool, a: Option<Octets>, absent': bool, b: Option<Octets>, s: Octets, t: Octets)
    requires (!absent ==> a.Some?) && (!absent' ==> b.Some?)
    requires (if absent then [0] else [1] + a.value) + s == (if absent' then [0] else [1] + b.value) + t
    ensures absent == absent'
    ensures if absent then s == t else a.value + s == b.value + t
  {
    var l: Octets := if absent then [0] else [1] + a.value;
    var r: Octets := if absent' then [0] else [1] + b.value;
    assert (l + s)[0] == l[0] && (r + t)[0] == r[0];
    assert (l + s)[1..] == l[1..] + s && (r + t)[1..] == r[1..] + t;
    assert absent ==> l[1..] + s == s && r[1..] + t == t;
    assert !absent ==> l[1..] == a.value && r[1..] == b.value;
  }

  // No encoding of a kind is a prefix of another, and equal encodings are of equal values up to the order of arrays.
  lemma {:induction false} PrefixFree(sc: Schema, k: Kind, v: Val, w: Val, s: Octets, t: Octets)
    requires Value(sc, k, v).Some? && Value(sc, k, w).Some?
    requires Value(sc, k, v).value + s == Value(sc, k, w).value + t
    ensures Norm(v) == Norm(w) && s == t && Value(sc, k, v) == Value(sc, k, w)
    decreases v, 3, k
  {
    hide Norm, Leaf, Arranged, Prefixed, EncodeItems;
    match k
    case Optional(of) =>
      OptionalSplits(v == Nothing, Value(sc, of, v), w == Nothing, Value(sc, of, w), s, t);
      if v != Nothing {
        PrefixFree(sc, of, v, w, s, t);
      }
    case ArrayOf(record) =>
      ArrangedSplits(record, v.items, EncodeItems(sc, record, v), w.items, EncodeItems(sc, record, w), s, t);
      ArraysAgree(sc, record, v, w);
    case RecordOf(record) =>
      PrefixedSplits(Encode(sc, record, v).value, Encode(sc, record, w).value, s, t);
      EncodePrefixFree(sc, record, v, w, [], []);
    case _ =>
      LeafSplits(k, v, w, s, t);
  }

  lemma {:induction false} EncodePrefixFree(sc: Schema, record: string, v: Val, w: Val, s: Octets, t: Octets)
    requires Encode(sc, record, v).Some? && Encode(sc, record, w).Some?
    requires Encode(sc, record, v).value + s == Encode(sc, record, w).value + t
    ensures Norm(v) == Norm(w) && s == t && Encode(sc, record, v) == Encode(sc, record, w)
    decreases v, 2
  {
    hide Norm, Integer, EncodeFields;
    var fields := sc[record];
    var one, a, b := Integer(2, 1).value, EncodeFields(sc, fields, v).value, EncodeFields(sc, fields, w).value;
    AppendSplits(one, a, s);
    AppendSplits(one, b, t);
    SplitAt(one, a + s, one, b + t);
    FieldsPrefixFree(sc, fields, v, w, s, t);
    ObjectsAgree(fields, v, w);
  }

  lemma ObjectsAgree(fields: seq<Field>, v: Val, w: Val)
    requires v.Object? && w.Object? && v.fields.Keys == Names(fields) == w.fields.Keys
    requires forall i :: 0 <= i < |fields| && fields[i].name in Names(fields) ==>
      Norm(v.fields[fields[i].name]) == Norm(w.fields[fields[i].name])
    ensures Norm(v) == Norm(w)
  {
    var m, n := Norm(v).named, Norm(w).named;
    forall k | k in m.Keys
      ensures m[k] == n[k]
    {
      var f :| f in fields && f.name == k;
      var i :| 0 <= i < |fields| && fields[i] == f;
      assert Norm(v.fields[fields[i].name]) == Norm(w.fields[fields[i].name]);
    }
    assert m.Keys == n.Keys;
    assert m == n;
  }

  lemma {:induction false} FieldsPrefixFree(sc: Schema, fields: seq<Field>, v: Val, w: Val, s: Octets, t: Octets)
    requires v.Object? && w.Object? && Names(fields) <= v.fields.Keys && Names(fields) <= w.fields.Keys
    requires EncodeFields(sc, fields, v).Some? && EncodeFields(sc, fields, w).Some?
    requires EncodeFields(sc, fields, v).value + s == EncodeFields(sc, fields, w).value + t
    ensures s == t && EncodeFields(sc, fields, v) == EncodeFields(sc, fields, w)
    ensures forall i :: 0 <= i < |fields| && fields[i].name in Names(fields) ==>
      Norm(v.fields[fields[i].name]) == Norm(w.fields[fields[i].name])
    decreases v, 1, |fields|
  {
    hide Norm, Value;
    if fields == [] {
      assert [] + s == s && [] + t == t;
    } else {
      var name, kind := fields[0].name, fields[0].kind;
      assert name in Names(fields);
      assert Names(fields[1..]) <= Names(fields);
      var a, b := Value(sc, kind, v.fields[name]).value, Value(sc, kind, w.fields[name]).value;
      var a', b' := EncodeFields(sc, fields[1..], v).value, EncodeFields(sc, fields[1..], w).value;
      AppendSplits(a, a', s);
      AppendSplits(b, b', t);
      PrefixFree(sc, kind, v.fields[name], w.fields[name], a' + s, b' + t);
      FieldsPrefixFree(sc, fields[1..], v, w, s, t);
      forall i | 0 <= i < |fields|
        ensures Norm(v.fields[fields[i].name]) == Norm(w.fields[fields[i].name])
      {
        if i > 0 {
          assert fields[1..][i - 1] == fields[i];
          assert fields[i].name in Names(fields[1..]);
        }
      }
    }
  }

  // Arrays whose encoded records are rearrangements of each other are equal up to order.
  lemma {:induction false} ArraysAgree(sc: Schema, record: string, v: Val, w: Val)
    requires v.List? && w.List? && AllSome(EncodeItems(sc, record, v)) && AllSome(EncodeItems(sc, record, w))
    requires Permutation(Values(EncodeItems(sc, record, v)), Values(EncodeItems(sc, record, w)))
    ensures Norm(v) == Norm(w)
    decreases v, 2
  {
    var a, b := Values(EncodeItems(sc, record, v)), Values(EncodeItems(sc, record, w));
    forall i, j | 0 <= i < |a| && 0 <= j < |b| && a[i] == b[j]
      ensures Norms(v.items)[i] == Norms(w.items)[j]
    {
      EncodePrefixFree(sc, record, v.items[i], w.items[j], [], []);
    }
    Transfer(a, Norms(v.items), b, Norms(w.items));
    NormOfList(v);
    NormOfList(w);
  }

  lemma NormOfList(v: Val)
    requires v.List?
    ensures Norm(v) == NBag(multiset(Norms(v.items)))
  {
    assert Norms(v.items) == seq(|v.items|, i requires 0 <= i < |v.items| => Norm(v.items[i]));
  }

  // ------------------------------------------------------------------ order does not matter

  // Values that differ only in the order of arrays have the same encoding, or are refused alike.
  lemma {:induction false} OrderFree(sc: Schema, k: Kind, v: Val, w: Val)
    requires Norm(v) == Norm(w)
    ensures Value(sc, k, v) == Value(sc, k, w)
    decreases v, 3, k
  {
    hide Leaf, Arranged, Prefixed, EncodeItems, Norm;
    NormShape(v, w);
    match k
    case Optional(of) => OrderFree(sc, of, v, w);
    case ArrayOf(record) =>
      if v.List? {
        ItemsOrderFree(sc, record, v, w);
      }
    case RecordOf(record) => EncodeOrderFree(sc, record, v, w);
    case _ => LeafOfShape(k, v, w);
  }

  lemma NormShape(v: Val, w: Val)
    requires Norm(v) == Norm(w)
    ensures v.List? == w.List? && v.Object? == w.Object? && (!v.List? && !v.Object? ==> v == w)
    ensures v.List? ==> |v.items| == |w.items| && Permutation(Norms(v.items), Norms(w.items))
    ensures v.Object? ==> v.fields.Keys == w.fields.Keys
    ensures v.Object? ==> forall k :: k in v.fields ==> Norm(v.fields[k]) == Norm(w.fields[k])
  {
    if v.List? {
      NormOfList(v);
      NormOfList(w);
      PermutationElements(Norms(v.items), Norms(w.items));
    }
    if v.Object? {
      assert Norm(v).named.Keys == v.fields.Keys && Norm(w).named.Keys == w.fields.Keys;
      assert forall k :: k in v.fields ==> Norm(v).named[k] == Norm(v.fields[k]);
    }
  }

  lemma LeafOfShape(k: Kind, v: Val, w: Val)
    requires v.List? == w.List? && v.Object? == w.Object? && (!v.List? && !v.Object? ==> v == w)
    ensures Leaf(k, v) == Leaf(k, w)
  {
  }

  lemma {:induction false} EncodeOrderFree(sc: Schema, record: string, v: Val, w: Val)
    requires Norm(v) == Norm(w)
    ensures Encode(sc, record, v) == Encode(sc, record, w)
    decreases v, 2
  {
    hide Norm, EncodeFields;
    NormShape(v, w);
    if record in sc && v.Object? && v.fields.Keys == Names(sc[record]) {
      FieldsOrderFree(sc, sc[record], v, w);
    }
  }

  lemma {:induction false} FieldsOrderFree(sc: Schema, fields: seq<Field>, v: Val, w: Val)
    requires v.Object? && w.Object? && Names(fields) <= v.fields.Keys == w.fields.Keys
    requires forall k :: k in v.fields ==> Norm(v.fields[k]) == Norm(w.fields[k])
    ensures EncodeFields(sc, fields, v) == EncodeFields(sc, fields, w)
    decreases v, 1, |fields|
  {
    hide Norm, Value;
    if fields != [] {
      assert fields[0].name in Names(fields);
      assert Names(fields[1..]) <= Names(fields);
      OrderFree(sc, fields[0].kind, v.fields[fields[0].name], w.fields[fields[0].name]);
      FieldsOrderFree(sc, fields[1..], v, w);
    }
  }

  lemma {:induction false} ItemsOrderFree(sc: Schema, record: string, v: Val, w: Val)
    requires v.List? && w.List? && Permutation(Norms(v.items), Norms(w.items))
    ensures Arranged(record, v.items, EncodeItems(sc, record, v))
         == Arranged(record, w.items, EncodeItems(sc, record, w))
    decreases v, 2
  {
    hide Norm, Ordered, Concat, Encode;
    var rx, ry := EncodeItems(sc, record, v), EncodeItems(sc, record, w);
    forall i, j | 0 <= i < |v.items| && 0 <= j < |w.items| && Norm(v.items[i]) == Norm(w.items[j])
      ensures rx[i] == ry[j]
    {
      EncodeOrderFree(sc, record, v.items[i], w.items[j]);
    }
    Transfer(Norms(v.items), rx, Norms(w.items), ry);
    PermutationElements(rx, ry);
    SomeMembers(rx);
    SomeMembers(ry);
    if AllSome(rx) {
      OrderedAlike(record, v.items, Values(rx), w.items, Values(ry));
      PermutationElements(Norms(v.items), Norms(w.items));
    }
  }

  // Encodings are equal exactly when the values are equal up to the order of arrays.
  lemma EncodingCanonical(sc: Schema, record: string, v: Val, w: Val)
    requires Encode(sc, record, v).Some?
    ensures Encode(sc, record, v) == Encode(sc, record, w) <==> Norm(v) == Norm(w)
  {
    if Norm(v) == Norm(w) {
      EncodeOrderFree(sc, record, v, w);
    } else if Encode(sc, record, v) == Encode(sc, record, w) {
      EncodePrefixFree(sc, record, v, w, [], []);
    }
  }
}
