// Exactly which values have an encoding, how long it is, and how it is laid out.
module EncodingTypes {
  import opened Wrappers
  import opened Arithmetic
  import opened Bytes
  import opened ByteOrder
  import opened Collections
  import opened Encoding

  // Lengths have four octets.
  const LENGTH_LIMIT: nat := 0x1_0000_0000

  // ------------------------------------------------------------------ well-typed values

  predicate TypedLeaf(k: Kind, v: Val) {
    match k
    case Unsigned(width) => v.Int? && 0 <= v.n < Pow(256, width)
    case Signed64 => v.Int? && -SIGNED_LIMIT <= v.n < SIGNED_LIMIT
    case Flag => v.Bool?
    case Double => v.Float? && 0 < v.bits < INFINITY_BITS
    case Uuid => v.Octs? && |v.octets| == 16 && exists i :: 0 <= i < 16 && v.octets[i] > 0
    case Digest => v.Octs? && |v.octets| == 32
    case Raw => v.Octs? && |v.octets| < LENGTH_LIMIT
    case Utf8 => v.Text? && |v.utf8| < LENGTH_LIMIT
    case Ascii => v.Text? && |v.utf8| < LENGTH_LIMIT && forall i :: 0 <= i < |v.utf8| ==> v.utf8[i] < 128
    case _ => false
  }

  function LeafLength(k: Kind, v: Val): nat {
    match k
    case Unsigned(width) => width
    case Signed64 => 8
    case Flag => 1
    case Double => 8
    case Uuid => 16
    case Digest => 32
    case _ => 4 + (if v.Octs? then |v.octets| else if v.Text? then |v.utf8| else 0)
  }

  ghost predicate Typed(sc: Schema, k: Kind, v: Val)
    decreases v, 3, k
  {
    match k
    case Optional(of) => v == Nothing || Typed(sc, of, v)
    case ArrayOf(record) =>
      && v.List? && |v.items| < LENGTH_LIMIT
      && (forall i :: 0 <= i < |v.items| ==>
            TypedRecord(sc, record, v.items[i]) && RecordLength(sc, record, v.items[i]) < LENGTH_LIMIT)
      && (record == COMMITMENT ==> IndicesOk(v.items))
    case RecordOf(record) => TypedRecord(sc, record, v) && RecordLength(sc, record, v) < LENGTH_LIMIT
    case _ => TypedLeaf(k, v)
  }

  // Exactly the fields of the record type, each of its kind.
  ghost predicate TypedRecord(sc: Schema, record: string, v: Val)
    decreases v, 2
  {
    && record in sc && v.Object?
    && (forall name :: name in v.fields <==> exists f :: f in sc[record] && f.name == name)
    && forall f :: f in sc[record] && f.name in v.fields ==> Typed(sc, f.kind, v.fields[f.name])
  }

  // Commitments have output indices, no two the same.
  predicate IndicesOk(items: seq<Val>) {
    && (forall i :: 0 <= i < |items| ==> IndexOf(items[i]).Some?)
    && forall i, j :: 0 <= i < j < |items| ==> IndexOf(items[i]) != IndexOf(items[j])
  }

  function Length(sc: Schema, k: Kind, v: Val): nat
    decreases v, 3, k
  {
    match k
    case Optional(of) => 1 + if v == Nothing then 0 else Length(sc, of, v)
    case ArrayOf(record) => 4 + if v.List? then ItemsLength(sc, record, v, |v.items|) else 0
    case RecordOf(record) => 4 + RecordLength(sc, record, v)
    case _ => LeafLength(k, v)
  }

  function RecordLength(sc: Schema, record: string, v: Val): nat
    decreases v, 2
  {
    2 + if record in sc && v.Object? then FieldsLength(sc, sc[record], v) else 0
  }

  function FieldsLength(sc: Schema, fields: seq<Field>, v: Val): nat
    requires v.Object?
    decreases v, 1, |fields|
  {
    if fields == [] then 0
    else
      var name := fields[0].name;
      (if name in v.fields then Length(sc, fields[0].kind, v.fields[name]) else 0) + FieldsLength(sc, fields[1..], v)
  }

  function ItemsLength(sc: Schema, record: string, v: Val, n: nat): nat
    requires v.List? && n <= |v.items|
    decreases v, 2, n
  {
    if n == 0 then 0 else ItemsLength(sc, record, v, n - 1) + 4 + RecordLength(sc, record, v.items[n - 1])
  }

  // ------------------------------------------------------------------ leaves

  lemma FitsLength(n: nat)
    ensures Fits(4, n) <==> n < LENGTH_LIMIT
  {
    FitsPower(4, n);
    assert Pow(256, 2) == 65536;
    assert Pow(256, 4) == 256 * (256 * Pow(256, 2));
  }

  lemma FitsEight(n: nat)
    ensures Fits(8, n) <==> n < 2 * SIGNED_LIMIT
  {
    FitsPower(8, n);
    assert Pow(256, 4) == 0x1_0000_0000;
    assert Pow(256, 8) == 256 * (256 * (256 * (256 * Pow(256, 4))));
  }

  lemma PrefixedExactly(b: Octets)
    ensures Prefixed(b).Some? <==> |b| < LENGTH_LIMIT
    ensures Prefixed(b).Some? ==> |Prefixed(b).value| == 4 + |b|
  {
    FitsLength(|b|);
  }

  lemma LeafExactly(k: Kind, v: Val)
    ensures Leaf(k, v).Some? <==> TypedLeaf(k, v)
    ensures Leaf(k, v).Some? ==> |Leaf(k, v).value| == LeafLength(k, v)
  {
    hide Fits, Pow, Prefixed, BigEndian;
    match k
    case Unsigned(width) =>
      if v.Int? && v.n >= 0 {
        FitsPower(width, v.n);
      }
    case Signed64 =>
      if v.Int? && -SIGNED_LIMIT <= v.n < SIGNED_LIMIT {
        FitsEight(if v.n < 0 then v.n + 2 * SIGNED_LIMIT else v.n);
      }
    case Double =>
      if v.Float? {
        FitsEight(v.bits);
      }
    case Raw =>
      if v.Octs? {
        PrefixedExactly(v.octets);
      }
    case Utf8 =>
      if v.Text? {
        PrefixedExactly(v.utf8);
      }
    case Ascii =>
      if v.Text? {
        PrefixedExactly(v.utf8);
      }
    case _ =>
  }

  // ------------------------------------------------------------------ arrays

  function SizeOf(records: seq<Octets>): nat {
    if records == [] then 0 else 4 + |records[0]| + SizeOf(records[1..])
  }

  lemma {:induction false} SizeWithout(records: seq<Octets>, i: nat)
    requires i < |records|
    ensures SizeOf(records) == 4 + |records[i]| + SizeOf(Without(records, i))
  {
    if i == 0 {
      assert Without(records, 0) == records[1..];
    } else {
      SizeWithout(records[1..], i - 1);
      assert Without(records, i)[1..] == Without(records[1..], i - 1);
    }
  }

  lemma {:induction false} SizePermutes(a: seq<Octets>, b: seq<Octets>)
    requires Permutation(a, b)
    ensures SizeOf(a) == SizeOf(b)
  {
    PermutationElements(a, b);
    if a != [] {
      var i := Partner(a, b);
      SizePermutes(a[1..], Without(b, i));
      SizeWithout(b, i);
    }
  }

  lemma {:induction false} ConcatExactly(records: seq<Octets>)
    ensures Concat(records).Some? <==> forall r :: r in records ==> |r| < LENGTH_LIMIT
    ensures Concat(records).Some? ==> |Concat(records).value| == SizeOf(records)
  {
    hide Prefixed;
    if records != [] {
      ConcatExactly(records[1..]);
      PrefixedExactly(records[0]);
      assert records == [records[0]] + records[1..];
    }
  }

  lemma OrderedExactly(record: string, items: seq<Val>, records: seq<Octets>)
    requires |items| == |records|
    ensures Ordered(record, items, records).Some? <==> (record == COMMITMENT ==> IndicesOk(items))
  {
    hide Sort, IndexOf, NoDuplicates;
    var indices := Indices(items);
    if AllSome(indices) {
      var values := Values(indices);
      NoDuplicatesPairwise(values);
      assert forall i :: 0 <= i < |items| ==> IndexOf(items[i]) == Some(values[i]);
    }
  }

  // An array of encoded records, whatever their order: when it has an encoding, and how long that is.
  lemma ArrangedExactly(record: string, items: seq<Val>, records: seq<Octets>)
    requires |items| == |records|
    ensures var all := seq(|records|, i requires 0 <= i < |records| => Some(records[i]));
      && |all| == |items|
      && (Arranged(record, items, all).Some? <==>
            && |items| < LENGTH_LIMIT && (forall r :: r in records ==> |r| < LENGTH_LIMIT)
            && (record == COMMITMENT ==> IndicesOk(items)))
      && (Arranged(record, items, all).Some? ==> |Arranged(record, items, all).value| == 4 + SizeOf(records))
  {
    hide Ordered, Concat, IndicesOk;
    var all := seq(|records|, i requires 0 <= i < |records| => Some(records[i]));
    assert AllSome(all) && Values(all) == records;
    OrderedExactly(record, items, records);
    FitsLength(|items|);
    if Ordered(record, items, records).Some? {
      var sorted := Ordered(record, items, records).value;
      OrderedPermutes(record, items, records);
      PermutationElements(sorted, records);
      SizePermutes(sorted, records);
      ConcatExactly(sorted);
    }
  }

  // ------------------------------------------------------------------ every value

  // A value has an encoding exactly when it is well typed, and the encoding has the length its type says.
  lemma {:induction false} ValueExactly(sc: Schema, k: Kind, v: Val)
    ensures Value(sc, k, v).Some? <==> Typed(sc, k, v)
    ensures Value(sc, k, v).Some? ==> |Value(sc, k, v).value| == Length(sc, k, v)
    decreases v, 3, k
  {
    hide Leaf, TypedLeaf, LeafLength, Arranged, Prefixed, EncodeItems, TypedRecord, RecordLength, ItemsLength;
    match k
    case Optional(of) =>
      if v != Nothing {
        ValueExactly(sc, of, v);
      } else {
        NothingTyped(sc, of, v);
      }
    case ArrayOf(record) =>
      if v.List? {
        ArrayExactly(sc, record, v);
      }
    case RecordOf(record) =>
      EncodeExactly(sc, record, v);
      if Encode(sc, record, v).Some? {
        PrefixedExactly(Encode(sc, record, v).value);
      }
    case _ => LeafExactly(k, v);
  }

  lemma NothingTyped(sc: Schema, k: Kind, v: Val)
    requires v == Nothing
    ensures Value(sc, Optional(k), v) == Some([0]) && Typed(sc, Optional(k), v) && Length(sc, Optional(k), v) == 1
  {
  }

  lemma {:induction false} EncodeExactly(sc: Schema, record: string, v: Val)
    ensures Encode(sc, record, v).Some? <==> TypedRecord(sc, record, v)
    ensures Encode(sc, record, v).Some? ==> |Encode(sc, record, v).value| == RecordLength(sc, record, v)
    decreases v, 2
  {
    hide Typed, Value, EncodeFields, FieldsLength;
    if record in sc && v.Object? {
      NamesExactly(sc[record], v);
      if v.fields.Keys == Names(sc[record]) {
        FieldsExactly(sc, sc[record], v);
        assert Fits(2, 1);
        assert forall f :: f in sc[record] ==> f.name in Names(sc[record]);
      }
    }
  }

  lemma NamesExactly(fields: seq<Field>, v: Val)
    requires v.Object?
    ensures v.fields.Keys == Names(fields) <==>
      forall name :: name in v.fields <==> exists f :: f in fields && f.name == name
  {
    if forall name :: name in v.fields <==> exists f :: f in fields && f.name == name {
      assert v.fields.Keys == Names(fields);
    }
  }

  lemma {:induction false} FieldsExactly(sc: Schema, fields: seq<Field>, v: Val)
    requires v.Object? && Names(fields) <= v.fields.Keys
    ensures EncodeFields(sc, fields, v).Some? <==>
      forall f :: f in fields && f.name in v.fields ==> Typed(sc, f.kind, v.fields[f.name])
    ensures EncodeFields(sc, fields, v).Some? ==> |EncodeFields(sc, fields, v).value| == FieldsLength(sc, fields, v)
    decreases v, 1, |fields|
  {
    hide Typed, Value, Length;
    if fields != [] {
      var name := fields[0].name;
      assert name in Names(fields);
      assert Names(fields[1..]) <= Names(fields);
      ValueExactly(sc, fields[0].kind, v.fields[name]);
      FieldsExactly(sc, fields[1..], v);
      assert fields == [fields[0]] + fields[1..];
    }
  }

  lemma {:induction false} ArrayExactly(sc: Schema, record: string, v: Val)
    requires v.List?
    ensures Value(sc, ArrayOf(record), v).Some? <==> Typed(sc, ArrayOf(record), v)
    ensures Value(sc, ArrayOf(record), v).Some? ==>
      |Value(sc, ArrayOf(record), v).value| == Length(sc, ArrayOf(record), v)
    decreases v, 2
  {
    hide Encode, TypedRecord, RecordLength, IndicesOk;
    var records := EncodeItems(sc, record, v);
    forall i | 0 <= i < |v.items|
      ensures Encode(sc, record, v.items[i]).Some? <==> TypedRecord(sc, record, v.items[i])
      ensures Encode(sc, record, v.items[i]).Some? ==>
        |Encode(sc, record, v.items[i]).value| == RecordLength(sc, record, v.items[i])
    {
      EncodeExactly(sc, record, v.items[i]);
    }
    if AllSome(records) {
      var rs := Values(records);
      assert records == seq(|rs|, i requires 0 <= i < |rs| => Some(rs[i]));
      ArrangedExactly(record, v.items, rs);
      ItemsSize(sc, record, v, rs, |v.items|);
      assert rs[..|rs|] == rs;
      AllBelow(sc, record, v, rs);
    }
  }

  lemma AllBelow(sc: Schema, record: string, v: Val, rs: seq<Octets>)
    requires v.List? && |rs| == |v.items|
    requires forall i :: 0 <= i < |rs| ==> |rs[i]| == RecordLength(sc, record, v.items[i])
    ensures (forall r :: r in rs ==> |r| < LENGTH_LIMIT)
      <==> forall i :: 0 <= i < |v.items| ==> RecordLength(sc, record, v.items[i]) < LENGTH_LIMIT
  {
    hide RecordLength;
    if forall r :: r in rs ==> |r| < LENGTH_LIMIT {
      forall i | 0 <= i < |v.items|
        ensures RecordLength(sc, record, v.items[i]) < LENGTH_LIMIT
      {
        assert rs[i] in rs;
      }
    }
  }

  lemma {:induction false} ItemsSize(sc: Schema, record: string, v: Val, rs: seq<Octets>, n: nat)
    requires v.List? && |rs| == |v.items| && n <= |rs|
    requires forall i :: 0 <= i < |rs| ==> |rs[i]| == RecordLength(sc, record, v.items[i])
    ensures SizeOf(rs[..n]) == ItemsLength(sc, record, v, n)
  {
    hide RecordLength;
    if n > 0 {
      ItemsSize(sc, record, v, rs, n - 1);
      SizeWithout(rs[..n], n - 1);
      assert Without(rs[..n], n - 1) == rs[..n - 1];
    }
  }

  // ------------------------------------------------------------------ layout

  // The records of an encoded array are in ascending order of their octets, commitments in ascending order of their
  // distinct output indices, after their count and each after its length.
  lemma ArrayLayout(sc: Schema, record: string, v: Val) returns (entries: seq<Entry>)
    requires v.List? && Value(sc, ArrayOf(record), v).Some?
    ensures |entries| == |v.items| && AllSome(EncodeItems(sc, record, v))
    ensures Value(sc, ArrayOf(record), v) == Append(Some(BigEndian(4, |entries|)), Concat(Map(entries, EntryOctets)))
    ensures record != COMMITMENT ==>
      && Permutation(Map(entries, EntryOctets), Values(EncodeItems(sc, record, v)))
      && forall i, j :: 0 <= i < j < |entries| ==>
           entries[i].octets == entries[j].octets || BytesLess(entries[i].octets, entries[j].octets)
    ensures record == COMMITMENT ==>
      && AllSome(Indices(v.items))
      && Permutation(entries, Zip(Values(Indices(v.items)), Values(EncodeItems(sc, record, v))))
      && forall i, j :: 0 <= i < j < |entries| ==> entries[i].index < entries[j].index
  {
    hide Encode, Sort, Concat, BytesLess, IndexOf;
    var records := Values(EncodeItems(sc, record, v));
    if record != COMMITMENT {
      NotAboveTotal();
      SortSorts(records, NotAbove);
      var sorted := Sort(records, NotAbove);
      PermutationElements(sorted, records);
      entries := seq(|sorted|, i requires 0 <= i < |sorted| => Entry(0, sorted[i]));
      assert Map(entries, EntryOctets) == sorted;
    } else {
      entries := CommitmentLayout(v.items, records);
    }
  }

  lemma CommitmentLayout(items: seq<Val>, records: seq<Octets>) returns (entries: seq<Entry>)
    requires |items| == |records| && Ordered(COMMITMENT, items, records).Some?
    ensures AllSome(Indices(items)) && |entries| == |items|
    ensures Permutation(entries, Zip(Values(Indices(items)), records))
    ensures Ordered(COMMITMENT, items, records) == Some(Map(entries, EntryOctets))
    ensures forall i, j :: 0 <= i < j < |entries| ==> entries[i].index < entries[j].index
  {
    hide Sort, IndexOf, NotAbove;
    var indices := Values(Indices(items));
    var zipped := Zip(indices, records);
    EntryOrder();
    SortSorts(zipped, EntryNotAfter);
    entries := Sort(zipped, EntryNotAfter);
    PermutationElements(entries, zipped);
    IndicesDistinct(entries, zipped, indices);
  }

  function EntryIndex(e: Entry): int {
    e.index
  }

  lemma IndicesDistinct(entries: seq<Entry>, zipped: seq<Entry>, indices: seq<int>)
    requires Permutation(entries, zipped) && NoDuplicates(indices) && |indices| == |zipped|
    requires forall i :: 0 <= i < |zipped| ==> zipped[i].index == indices[i]
    requires SortedBy(entries, EntryNotAfter)
    ensures forall i, j :: 0 <= i < j < |entries| ==> entries[i].index < entries[j].index
  {
    hide NoDuplicates, NotAbove, SortedBy;
    assert Map(zipped, EntryIndex) == indices;
    DistinctPermutes(entries, zipped, EntryIndex);
    var sorted := Map(entries, EntryIndex);
    NoDuplicatesPairwise(sorted);
    forall i, j | 0 <= i < j < |entries|
      ensures entries[i].index < entries[j].index
    {
      assert sorted[i] != sorted[j];
      assert EntryNotAfter(entries[i], entries[j]) by {
        SortedAt(entries, i, j);
      }
    }
  }

  lemma SortedAt(entries: seq<Entry>, i: nat, j: nat)
    requires SortedBy(entries, EntryNotAfter) && i < j < |entries|
    ensures EntryNotAfter(entries[i], entries[j])
  {
  }

  // How the encodings of single values read: integers most significant octet first, negative ones in two's complement,
  // an absent value as a zero octet, a present one after a one, texts and octet strings after their length.
  lemma ValueReads(sc: Schema, k: Kind, v: Val)
    requires Value(sc, k, v).Some?
    ensures var a := Value(sc, k, v).value;
      match k
      case Optional(of) =>
        if v == Nothing then a == [0] else |a| > 0 && a[0] == 1 && Value(sc, of, v) == Some(a[1..])
      case Unsigned(width) => |a| == width && FromBigEndian(a) == v.n
      case Signed64 =>
        |a| == 8 && FromBigEndian(a) - (if v.n < 0 then 0x1_0000_0000_0000_0000 else 0) == v.n
      case Flag => |a| == 1 && (a[0] == 1 <==> v.b) && (a[0] == 0 <==> !v.b)
      case Double => |a| == 8 && FromBigEndian(a) == v.bits
      case Uuid => a == v.octets
      case Digest => a == v.octets
      case Raw => |a| >= 4 && FromBigEndian(a[..4]) == |a| - 4 && a[4..] == v.octets
      case Utf8 => |a| >= 4 && FromBigEndian(a[..4]) == |a| - 4 && a[4..] == v.utf8
      case Ascii => |a| >= 4 && FromBigEndian(a[..4]) == |a| - 4 && a[4..] == v.utf8
      case RecordOf(record) => |a| >= 4 && FromBigEndian(a[..4]) == |a| - 4 && Encode(sc, record, v) == Some(a[4..])
      case ArrayOf(_) => |a| >= 4 && v.List? && FromBigEndian(a[..4]) == |v.items|
  {
    hide BigEndian, FromBigEndian, Fits, Encode, Ordered, Concat;
    var a := Value(sc, k, v).value;
    match k
    case Unsigned(width) => BigEndianInverse(width, v.n);
    case Signed64 => BigEndianInverse(8, if v.n < 0 then v.n + 2 * SIGNED_LIMIT else v.n);
    case Double => BigEndianInverse(8, v.bits);
    case Raw => PrefixedReads(v.octets);
    case Utf8 => PrefixedReads(v.utf8);
    case Ascii => PrefixedReads(v.utf8);
    case RecordOf(record) => PrefixedReads(Encode(sc, record, v).value);
    case ArrayOf(record) =>
      var sorted := Ordered(record, v.items, Values(EncodeItems(sc, record, v))).value;
      OrderedPermutes(record, v.items, Values(EncodeItems(sc, record, v)));
      BigEndianInverse(4, |sorted|);
      assert a[..4] == BigEndian(4, |sorted|);
    case _ =>
  }

  lemma PrefixedReads(b: Octets)
    requires Prefixed(b).Some?
    ensures var a := Prefixed(b).value; |a| >= 4 && FromBigEndian(a[..4]) == |a| - 4 == |b| && a[4..] == b
  {
    BigEndianInverse(4, |b|);
    assert Prefixed(b).value[..4] == BigEndian(4, |b|);
  }
}
