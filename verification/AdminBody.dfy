// Bodies of administrative actions: a list of numbered, length-prefixed fields, printed and validated.
//
// Whether octets are UTF-8 is a parameter.
module AdminBody {
  import opened Wrappers
  import opened Arithmetic
  import opened Bytes
  import opened Encoding

  datatype AdminField = AdminField(id: int, value: Val)

  datatype AdminError =
    | UnknownAction | FieldOrder | Truncated | BadVersion | BadWidth | ZeroUuid | BadText | Trailing

  const ID_TYPES: seq<Kind> := [Uuid, Unsigned(8), Uuid, Unsigned(1), Uuid]

  function AdminTypes(action: int): Option<seq<Kind>> {
    if action == 4 then
      Some(ID_TYPES + [Unsigned(8), Digest, Uuid, Signed64, Signed64, Utf8])
    else if action == 5 then
      Some(ID_TYPES + [Digest, Signed64, Signed64, Utf8])
    else if action == 6 then
      Some(ID_TYPES + [Unsigned(8), Digest, Unsigned(8), Unsigned(8), Unsigned(8), Uuid, Unsigned(1), Utf8])
    else None
  }

  // The kinds that occur in bodies.
  predicate Plain(k: Kind) {
    k in {Uuid, Unsigned(8), Unsigned(1), Digest, Signed64, Utf8}
  }

  // A field's octets without the length; text is not prefixed twice.
  function Content(k: Kind, v: Val): Option<Octets> {
    if k == Utf8 then (if v.Text? && Prefixed(v.utf8).Some? then Some(v.utf8) else None) else Leaf(k, v)
  }

  // ------------------------------------------------------------------ the printer

  function PrintFields(types: seq<Kind>, first: int, fields: seq<AdminField>): Option<Octets>
    requires |types| == |fields|
  {
    if types == [] then Some([])
    else match Content(types[0], fields[0].value)
      case None => None
      case Some(b) => Append(Append(Integer(2, first), Prefixed(b)), PrintFields(types[1..], first + 1, fields[1..]))
  }

  predicate InOrder(fields: seq<AdminField>, first: int) {
    forall i :: 0 <= i < |fields| ==> fields[i].id == first + i
  }

  function AdminOctets(action: int, fields: seq<AdminField>): Option<Octets> {
    match AdminTypes(action)
    case None => None
    case Some(types) =>
      if |fields| != |types| || !InOrder(fields, 1) then None
      else Append(Append(Integer(2, 1), Integer(2, |fields|)), PrintFields(types, 1, fields))
  }

  // Text fields hold text.
  ghost predicate TextOk(utf8: Octets -> bool, fields: seq<AdminField>) {
    forall i :: 0 <= i < |fields| && fields[i].value.Text? ==> utf8(fields[i].value.utf8)
  }

  // ------------------------------------------------------------------ the validator

  function Width(k: Kind): Option<nat> {
    match k
    case Uuid => Some(16)
    case Unsigned(w) => Some(w)
    case Signed64 => Some(8)
    case Digest => Some(32)
    case _ => None
  }

  // Field i of a body: its number, a length, and that many octets of the right width.
  function CheckField(utf8: Octets -> bool, k: Kind, id: int, b: Octets): Result<nat, AdminError> {
    if |b| < 2 then Failure(Truncated)
    else if Some(b[..2]) != Integer(2, id) then Failure(FieldOrder)
    else if |b| < 6 then Failure(Truncated)
    else
      var n := FromBigEndian(b[2..6]);
      if |b| < 6 + n then Failure(Truncated)
      else if Width(k).Some? && n != Width(k).value then Failure(BadWidth)
      else if k == Uuid && !NonZero(b[6..6 + n]) then Failure(ZeroUuid)
      else if k == Utf8 && !utf8(b[6..6 + n]) then Failure(BadText)
      else Success(6 + n)
  }

  function CheckFields(utf8: Octets -> bool, types: seq<Kind>, first: int, b: Octets): Result<(), AdminError> {
    if types == [] then (if b == [] then Success(()) else Failure(Trailing))
    else match CheckField(utf8, types[0], first, b)
      case Failure(e) => Failure(e)
      case Success(n) => if n <= |b| then CheckFields(utf8, types[1..], first + 1, b[n..]) else Failure(Truncated)
  }

  function CheckBody(utf8: Octets -> bool, action: int, b: Octets): Result<(), AdminError> {
    match AdminTypes(action)
    case None => Failure(UnknownAction)
    case Some(types) =>
      if |b| < 2 then Failure(Truncated)
      else if Some(b[..2]) != Integer(2, 1) then Failure(BadVersion)
      else if |b| < 4 then Failure(Truncated)
      else if Some(b[2..4]) != Integer(2, |types|) then Failure(BadVersion)
      else CheckFields(utf8, types, 1, b[4..])
  }

  // The validator's single pass with a cursor.
  method ValidateAdminBody(utf8: Octets -> bool, action: int, b: Octets) returns (r: Result<(), AdminError>)
    ensures r == CheckBody(utf8, action, b)
  {
    hide CheckField, CheckFields, Integer;
    var known := AdminTypes(action);
    if known.None? {
      return Failure(UnknownAction);
    }
    var types := known.value;
    if |b| < 2 {
      return Failure(Truncated);
    }
    if Some(b[..2]) != Integer(2, 1) {
      return Failure(BadVersion);
    }
    if |b| < 4 {
      return Failure(Truncated);
    }
    if Some(b[2..4]) != Integer(2, |types|) {
      return Failure(BadVersion);
    }
    var offset := 4;
    assert types[0..] == types;
    for i := 0 to |types|
      invariant 4 <= offset <= |b|
      invariant CheckFields(utf8, types, 1, b[4..]) == CheckFields(utf8, types[i..], 1 + i, b[offset..])
    {
      var checked := CheckField(utf8, types[i], i + 1, b[offset..]);
      CheckFieldsStep(utf8, types[i..], 1 + i, b[offset..]);
      assert types[i..][1..] == types[i + 1..];
      if checked.Failure? {
        return Failure(checked.error);
      }
      assert b[offset..][checked.value..] == b[offset + checked.value..];
      offset := offset + checked.value;
    }
    assert types[|types|..] == [];
    CheckFieldsEnd(utf8, 1 + |types|, b[offset..]);
    r := if offset != |b| then Failure(Trailing) else Success(());
  }

  lemma CheckFieldsStep(utf8: Octets -> bool, types: seq<Kind>, first: int, b: Octets)
    requires types != []
    ensures match CheckField(utf8, types[0], first, b)
      case Failure(e) => CheckFields(utf8, types, first, b) == Failure(e)
      case Success(n) =>
        n <= |b| && CheckFields(utf8, types, first, b) == CheckFields(utf8, types[1..], first + 1, b[n..])
  {
  }

  lemma CheckFieldsEnd(utf8: Octets -> bool, first: int, b: Octets)
    ensures CheckFields(utf8, [], first, b) == if b == [] then Success(()) else Failure(Trailing)
  {
  }

  // ------------------------------------------------------------------ printed bodies are valid

  lemma ContentWidth(k: Kind, v: Val)
    requires Plain(k) && Content(k, v).Some?
    ensures var b := Content(k, v).value;
      && Prefixed(b).Some?
      && (Width(k).Some? ==> |b| == Width(k).value)
      && (k == Uuid ==> NonZero(b)) && (k == Utf8 ==> v == Text(b))
  {
    hide NonZero;
    assert Fits(4, 32) && Fits(4, 16) && Fits(4, 8) && Fits(4, 1);
  }

  lemma PrefixedParts(b: Octets, rest: Octets, s: Octets)
    requires Prefixed(b).Some? && |s| == 2
    ensures var whole := s + Prefixed(b).value + rest;
      && |whole| == 6 + |b| + |rest| && whole[..2] == s && FromBigEndian(whole[2..6]) == |b|
      && whole[6..6 + |b|] == b && whole[6 + |b|..] == rest
  {
    BigEndianInverse(4, |b|);
    var whole := s + Prefixed(b).value + rest;
    assert whole == s + BigEndian(4, |b|) + b + rest;
    assert whole[2..6] == BigEndian(4, |b|);
  }

  lemma {:induction false} PrintedFieldsValid(utf8: Octets -> bool, types: seq<Kind>, first: int,
      fields: seq<AdminField>)
    requires |types| == |fields| && (forall k :: k in types ==> Plain(k)) && TextOk(utf8, fields)
    requires PrintFields(types, first, fields).Some?
    ensures CheckFields(utf8, types, first, PrintFields(types, first, fields).value) == Success(())
  {
    if types != [] {
      hide Leaf, NonZero, Prefixed, Integer, PrintFields, CheckFields;
      var k, v := types[0], fields[0].value;
      PrintStep(types, first, fields);
      var b, rest := Content(k, v).value, PrintFields(types[1..], first + 1, fields[1..]).value;
      ContentWidth(k, v);
      IntegerWidth(2, first);
      PrefixedParts(b, rest, Integer(2, first).value);
      var whole := PrintFields(types, first, fields).value;
      assert TextOk(utf8, fields[1..]) by {
        assert forall i :: 0 <= i < |fields[1..]| ==> fields[1..][i] == fields[i + 1];
      }
      PrintedFieldsValid(utf8, types[1..], first + 1, fields[1..]);
      assert CheckField(utf8, k, first, whole) == Success(6 + |b|);
      CheckFieldsStep(utf8, types, first, whole);
    } else {
      assert PrintFields(types, first, fields) == Some([]);
    }
  }

  lemma IntegerWidth(width: nat, n: int)
    requires Integer(width, n).Some?
    ensures |Integer(width, n).value| == width
  {
  }

  lemma PrintStep(types: seq<Kind>, first: int, fields: seq<AdminField>)
    requires |types| == |fields| && types != [] && PrintFields(types, first, fields).Some?
    ensures Content(types[0], fields[0].value).Some? && Integer(2, first).Some?
    ensures PrintFields(types[1..], first + 1, fields[1..]).Some?
    ensures var b := Content(types[0], fields[0].value).value;
      Prefixed(b).Some? && PrintFields(types, first, fields).value
        == Integer(2, first).value + Prefixed(b).value + PrintFields(types[1..], first + 1, fields[1..]).value
  {
    hide Content, Integer, Prefixed;
  }

  // ------------------------------------------------------------------ valid bodies are printed

  // The value a field's octets stand for.
  function ValueOf(k: Kind, b: Octets): Val {
    match k
    case Unsigned(_) => Int(FromBigEndian(b))
    case Signed64 => var n := FromBigEndian(b); Int(if n >= SIGNED_LIMIT then n - 2 * SIGNED_LIMIT else n)
    case Utf8 => Text(b)
    case _ => Octs(b)
  }

  lemma {:induction false} BelowPower8(n: nat)
    ensures Fits(8, n) ==> n < 2 * SIGNED_LIMIT
    ensures n < SIGNED_LIMIT ==> Fits(8, n)
  {
    FitsPower(8, n);
    PowersOf256();
  }

  lemma PowersOf256()
    ensures Pow(256, 8) == 2 * SIGNED_LIMIT
  {
    assert Pow(256, 4) == 0x1_0000_0000;
    assert Pow(256, 8) == 256 * (256 * (256 * (256 * Pow(256, 4))));
  }

  lemma ContentOfValue(utf8: Octets -> bool, k: Kind, b: Octets)
    requires Plain(k) && (Width(k).Some? ==> |b| == Width(k).value) && (k == Uuid ==> NonZero(b))
    requires k == Utf8 ==> Prefixed(b).Some?
    ensures Content(k, ValueOf(k, b)) == Some(b)
  {
    hide NonZero, Fits, FromBigEndian;
    FromBigEndianInverse(b);
    if k == Signed64 {
      BelowPower8(FromBigEndian(b));
    }
  }

  lemma FieldParts(b: Octets, n: nat)
    requires |b| >= 6 + n && FromBigEndian(b[2..6]) == n
    ensures Prefixed(b[6..6 + n]).Some? && b == b[..2] + Prefixed(b[6..6 + n]).value + b[6 + n..]
  {
    FromBigEndianInverse(b[2..6]);
    assert Integer(4, n) == Some(b[2..6]);
    assert b == b[..2] + b[2..6] + b[6..6 + n] + b[6 + n..];
  }

  // The fields of a valid body, read back.
  lemma {:induction false} ValidFieldsPrinted(utf8: Octets -> bool, types: seq<Kind>, first: int, b: Octets)
      returns (fields: seq<AdminField>)
    requires (forall k :: k in types ==> Plain(k)) && CheckFields(utf8, types, first, b).Success?
    ensures |fields| == |types| && InOrder(fields, first) && TextOk(utf8, fields)
    ensures PrintFields(types, first, fields) == Some(b)
  {
    if types == [] {
      fields := [];
    } else {
      hide Leaf, NonZero, CheckFields, ValueOf, Content, Prefixed;
      var k := types[0];
      CheckFieldsStep(utf8, types, first, b);
      var n := FromBigEndian(b[2..6]);
      var rest := ValidFieldsPrinted(utf8, types[1..], first + 1, b[6 + n..]);
      FieldParts(b, n);
      ContentOfValue(utf8, k, b[6..6 + n]);
      ValueIsText(k, b[6..6 + n]);
      fields := [AdminField(first, ValueOf(k, b[6..6 + n]))] + rest;
      assert fields[1..] == rest;
    }
  }

  lemma ValueIsText(k: Kind, b: Octets)
    ensures ValueOf(k, b).Text? ==> k == Utf8 && ValueOf(k, b).utf8 == b
  {
  }

  // ------------------------------------------------------------------ the field list is unique

  lemma ContentInjective(k: Kind, v: Val, w: Val)
    requires Plain(k) && Content(k, v).Some? && Content(k, v) == Content(k, w)
    ensures v == w
  {
    if k != Utf8 {
      LeafSplits(k, v, w, [], []);
    }
  }

  lemma {:induction false} PrintedFieldsUnique(types: seq<Kind>, first: int, f: seq<AdminField>, g: seq<AdminField>)
    requires |f| == |types| == |g| && InOrder(f, first) && InOrder(g, first) && forall k :: k in types ==> Plain(k)
    requires PrintFields(types, first, f).Some? && PrintFields(types, first, f) == PrintFields(types, first, g)
    ensures f == g
  {
    if types != [] {
      hide Content, PrintFields, Prefixed, Integer;
      PrintStep(types, first, f);
      PrintStep(types, first, g);
      var b, c := Content(types[0], f[0].value).value, Content(types[0], g[0].value).value;
      var n := Integer(2, first).value;
      var p := PrintFields(types[1..], first + 1, f[1..]).value;
      var q := PrintFields(types[1..], first + 1, g[1..]).value;
      AppendSplits(n, Prefixed(b).value, p);
      AppendSplits(n, Prefixed(c).value, q);
      SplitAt(n, Prefixed(b).value + p, n, Prefixed(c).value + q);
      PrefixedSplits(b, c, p, q);
      ContentInjective(types[0], f[0].value, g[0].value);
      PrintedFieldsUnique(types[1..], first + 1, f[1..], g[1..]);
      assert f == [f[0]] + f[1..] && g == [g[0]] + g[1..];
    }
  }

  // ------------------------------------------------------------------ printer and validator match

  lemma TypesPlain(action: int)
    ensures AdminTypes(action).Some? ==> forall k :: k in AdminTypes(action).value ==> Plain(k)
  {
  }

  // The validator accepts exactly what the printer prints.
  lemma ValidIffPrinted(utf8: Octets -> bool, action: int, b: Octets)
    ensures CheckBody(utf8, action, b).Success?
      <==> exists fields :: AdminOctets(action, fields) == Some(b) && TextOk(utf8, fields)
  {
    hide CheckFields, PrintFields, Plain, Integer, TextOk;
    TypesPlain(action);
    if CheckBody(utf8, action, b).Success? {
      var types := AdminTypes(action).value;
      var fields := ValidFieldsPrinted(utf8, types, 1, b[4..]);
      assert b == b[..2] + b[2..4] + b[4..];
      assert AdminOctets(action, fields) == Some(b);
    }
    if fields :| AdminOctets(action, fields) == Some(b) && TextOk(utf8, fields) {
      var types := AdminTypes(action).value;
      var body := PrintFields(types, 1, fields).value;
      PrintedFieldsValid(utf8, types, 1, fields);
      IntegerWidth(2, 1);
      IntegerWidth(2, |types|);
      assert b == Integer(2, 1).value + Integer(2, |types|).value + body;
      assert b[..2] == Integer(2, 1).value && b[2..4] == Integer(2, |types|).value && b[4..] == body;
    }
  }

  // And a body has only one field list.
  lemma FieldsUnique(action: int, f: seq<AdminField>, g: seq<AdminField>)
    requires AdminOctets(action, f).Some? && AdminOctets(action, f) == AdminOctets(action, g)
    ensures f == g
  {
    hide PrintFields, Plain, Integer;
    TypesPlain(action);
    var types := AdminTypes(action).value;
    var h := Integer(2, 1).value + Integer(2, |types|).value;
    SplitAt(h, PrintFields(types, 1, f).value, h, PrintFields(types, 1, g).value);
    PrintedFieldsUnique(types, 1, f, g);
  }
}
