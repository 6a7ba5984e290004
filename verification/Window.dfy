// Selecting the shares a reward is divided among: newest first, until their scores reach a factor.
module Window {
  import opened Wrappers
  import opened Arithmetic
  import opened Bytes
  import opened ByteOrder
  import opened Collections
  import opened Binary64
  import opened Binary64Rounding
  import opened Binary64Theorems
  import opened Decimal

  // Position of a share in the order of all shares.
  datatype Key = Key(time: int, sender: Octets, sequence: int, relay: Octets)

  // Difficulties are binary64 patterns.
  datatype Share = Share(key: Key, account: Octets, difficulty: nat, network: nat)

  // A share's part in the window, and which fraction of its score that is.
  datatype Selected = Selected(account: Octets, contribution: real, fraction: real)

  datatype WindowError = BadFactor | BadParameter | DuplicateTuple | DuplicateAccount | BadScore

  // ------------------------------------------------------------------ the order of shares

  predicate KeyLess(a: Key, b: Key) {
    || a.time < b.time
    || (a.time == b.time && (
       || BytesLess(a.sender, b.sender)
       || (a.sender == b.sender && (
          || a.sequence < b.sequence
          || (a.sequence == b.sequence && BytesLess(a.relay, b.relay))))))
  }

  predicate NotAfter(a: Share, b: Share) {
    KeyLess(b.key, a.key) || a.key == b.key
  }

  lemma KeyTotal(a: Key, b: Key)
    ensures KeyLess(a, b) || KeyLess(b, a) || a == b
    ensures !(KeyLess(a, b) && KeyLess(b, a)) && !KeyLess(a, a)
  {
    BytesTotal(a.sender, b.sender);
    BytesTotal(a.relay, b.relay);
    BytesTotal(a.relay, a.relay);
    BytesTotal(a.sender, a.sender);
  }

  lemma KeyTransitive(a: Key, b: Key, c: Key)
    requires KeyLess(a, b) && KeyLess(b, c)
    ensures KeyLess(a, c)
  {
    if BytesLess(a.sender, b.sender) && BytesLess(b.sender, c.sender) {
      BytesTransitive(a.sender, b.sender, c.sender);
    }
    if BytesLess(a.relay, b.relay) && BytesLess(b.relay, c.relay) {
      BytesTransitive(a.relay, b.relay, c.relay);
    }
  }

  lemma NotAfterTotal()
    ensures TotalOrder(NotAfter)
  {
    forall a: Share, b: Share
      ensures NotAfter(a, b) || NotAfter(b, a)
    {
      KeyTotal(a.key, b.key);
    }
    forall a: Share, b: Share, c: Share | NotAfter(a, b) && NotAfter(b, c)
      ensures NotAfter(a, c)
    {
      if a.key != b.key && b.key != c.key {
        KeyTransitive(c.key, b.key, a.key);
      }
    }
  }

  // ------------------------------------------------------------------ scores

  function ToReal(x: Rational): real {
    x.num as real / x.den as real
  }

  function Positive(f: Format, bits: nat): (r: Result<Rational, WindowError>)
    requires Proper(f)
    ensures r.Success? ==> r.value.num > 0
  {
    DecodeIsUnits(f, bits);
    match Decode(f, bits)
    case Failure(_) => Failure(BadScore)
    case Success(x) => Success(x)
  }

  function Quotient(d: Rational, n: Rational): Rational
    requires n.num > 0
  {
    MulPositive(d.den, n.num);
    Fraction(d.num * n.den, d.den * n.num)
  }

  // A positive quotient, rounded into the format.
  function Rounded(f: Format, q: Rational): (r: Result<Rational, WindowError>)
    requires Proper(f)
    ensures r.Success? ==> r.value.num > 0
  {
    match Round(f, q)
    case Failure(_) => Failure(BadScore)
    case Success(bits) =>
      RoundedIsPattern(f, q);
      Positive(f, bits)
  }

  lemma RoundedIsPattern(f: Format, q: Rational)
    requires Proper(f) && Round(f, q).Success?
    ensures Round(f, q).value >= 0
  {
    hide Round;
    CorrectRounding(f, q);
  }

  // A score exists exactly when both difficulties are positive binary64 numbers and their quotient neither underflows
  // nor overflows; it is then the binary64 number nearest to the quotient, ties to even.
  lemma ScoreIsNearest(s: Share)
    ensures Score(s).Success? <==>
      && Decode(BINARY64, s.difficulty).Success? && Decode(BINARY64, s.network).Success?
      && var d, n := Decode(BINARY64, s.difficulty).value, Decode(BINARY64, s.network).value;
         n.num > 0 && Less(UnderflowBound(BINARY64), Quotient(d, n)) && Less(Quotient(d, n), OverflowBound(BINARY64))
    ensures Score(s).Success? ==>
      var d, n := Decode(BINARY64, s.difficulty).value, Decode(BINARY64, s.network).value;
      && n.num > 0
      && exists bits: int ::
           CorrectlyRounded(BINARY64, Quotient(d, n), bits) && Score(s).value == ToReal(Decode(BINARY64, bits).value)
  {
    hide Decode, Round, Less, UnderflowBound, OverflowBound, CorrectlyRounded, Quotient;
    DecodeIsUnits(BINARY64, s.difficulty);
    DecodeIsUnits(BINARY64, s.network);
    if Decode(BINARY64, s.difficulty).Success? && Decode(BINARY64, s.network).Success? {
      var q := Quotient(Decode(BINARY64, s.difficulty).value, Decode(BINARY64, s.network).value);
      RoundedAccepts(BINARY64, q);
      if Score(s).Success? {
        assert CorrectlyRounded(BINARY64, q, Round(BINARY64, q).value);
      }
    }
  }

  lemma RoundedAccepts(f: Format, q: Rational)
    requires Proper(f)
    ensures Rounded(f, q).Success? <==> Less(UnderflowBound(f), q) && Less(q, OverflowBound(f))
    ensures Rounded(f, q).Success? ==>
      && Round(f, q).Success? && CorrectlyRounded(f, q, Round(f, q).value)
      && Rounded(f, q).value == Decode(f, Round(f, q).value).value
  {
    hide Round, Decode, Less, UnderflowBound, OverflowBound;
    AcceptanceRange(f, q);
    if Round(f, q).Success? {
      CorrectRounding(f, q);
    }
  }

  // Whatever fraction stands for the quotient of the two difficulties: the score exists exactly when that fraction is
  // in the range of binary64, and is then the value of a pattern correctly rounded from it.
  lemma ScoreOfQuotient(s: Share, q: Rational)
    requires Decode(BINARY64, s.difficulty).Success? && Decode(BINARY64, s.network).Success?
    requires var d, n := Decode(BINARY64, s.difficulty).value, Decode(BINARY64, s.network).value;
      q.num * d.den * n.num == q.den * d.num * n.den
    ensures Score(s).Success? <==> Less(UnderflowBound(BINARY64), q) && Less(q, OverflowBound(BINARY64))
    ensures Score(s).Success? ==>
      exists bits: int :: CorrectlyRounded(BINARY64, q, bits) && ScoreIsValue(s, Decode(BINARY64, bits).value)
  {
    hide Decode, Round, Less, UnderflowBound, OverflowBound, CorrectlyRounded, Quotient;
    var d, n := Decode(BINARY64, s.difficulty).value, Decode(BINARY64, s.network).value;
    DecodeIsUnits(BINARY64, s.network);
    QuotientEqual(d, n, q);
    RoundOfEqual(BINARY64, Quotient(d, n), q);
    RoundedAccepts(BINARY64, q);
    RoundedAccepts(BINARY64, Quotient(d, n));
    if Score(s).Success? {
      var v := Rounded(BINARY64, Quotient(d, n)).value;
      RealTimesDen(v);
      assert CorrectlyRounded(BINARY64, q, Round(BINARY64, q).value) && ScoreIsValue(s, v);
    }
  }

  // The score is the number v.num / v.den.
  predicate ScoreIsValue(s: Share, v: Rational) {
    Score(s).Success? && Score(s).value * v.den as real == v.num as real
  }

  lemma QuotientEqual(d: Rational, n: Rational, q: Rational)
    requires n.num > 0 && q.num * d.den * n.num == q.den * d.num * n.den
    ensures Equal(Quotient(d, n), q)
  {
    assert d.num * n.den * q.den == q.den * d.num * n.den;
    assert q.num * (d.den * n.num) == q.num * d.den * n.num;
  }

  lemma RealTimesDen(v: Rational)
    ensures ToReal(v) * v.den as real == v.num as real
  {
  }

  // Difficulty over network difficulty, rounded to binary64.
  function Score(s: Share): (r: Result<real, WindowError>)
    ensures r.Success? ==> r.value > 0.0
  {
    match (Positive(BINARY64, s.difficulty), Positive(BINARY64, s.network))
    case (Success(d), Success(n)) =>
      (match Rounded(BINARY64, Quotient(d, n))
      case Failure(e) => Failure(e)
      case Success(q) => Success(ToReal(q)))
    case _ => Failure(BadScore)
  }

  function Min(a: real, b: real): real {
    if a <= b then a else b
  }

  // ------------------------------------------------------------------ the window, in one pass

  function Take(score: real, room: real, account: Octets): Selected
    requires score > 0.0
  {
    Selected(account, Min(score, room), Min(score, room) / score)
  }

  // From shares in descending order, with `total` already selected.
  function Scan(rows: seq<Share>, f: real, total: real): Result<seq<Selected>, WindowError> {
    if rows == [] || total >= f then Success([])
    else match Score(rows[0])
      case Failure(e) => Failure(e)
      case Success(score) =>
        Before([Take(score, f - total, rows[0].account)], Scan(rows[1..], f, total + Min(score, f - total)))
  }

  function Before(selected: seq<Selected>, rest: Result<seq<Selected>, WindowError>)
      : Result<seq<Selected>, WindowError> {
    match rest
    case Failure(e) => Failure(e)
    case Success(more) => Success(selected + more)
  }

  predicate DistinctKeys(rows: seq<Share>) {
    |set r | r in rows :: r.key| == |rows|
  }

  predicate DistinctAccounts(rows: seq<Share>) {
    |set r | r in rows :: r.account| == |rows|
  }

  // What the window is, whatever the page size.
  function Selection(rows: seq<Share>, factor: string): Result<seq<Selected>, WindowError> {
    match DecimalOf(factor)
    case Failure(_) => Failure(BadFactor)
    case Success(f) =>
      if f <= 0.0 then Failure(BadParameter)
      else if !DistinctKeys(rows) then Failure(DuplicateTuple)
      else if !DistinctAccounts(rows) then Failure(DuplicateAccount)
      else Scan(Sort(rows, NotAfter), f, 0.0)
  }

  // ------------------------------------------------------------------ the window, page by page

  // Rows strictly below the cursor.
  function Below(rows: seq<Share>, cursor: Option<Key>): seq<Share> {
    if rows == [] then []
    else if cursor.None? || KeyLess(rows[0].key, cursor.value) then [rows[0]] + Below(rows[1..], cursor)
    else Below(rows[1..], cursor)
  }

  ghost predicate Descending(rows: seq<Share>) {
    forall i, j :: 0 <= i < j < |rows| ==> KeyLess(rows[j].key, rows[i].key)
  }

  lemma {:induction false} BelowAll(rows: seq<Share>, cursor: Option<Key>)
    requires cursor.None? || forall i :: 0 <= i < |rows| ==> KeyLess(rows[i].key, cursor.value)
    ensures Below(rows, cursor) == rows
  {
    if rows != [] {
      BelowAll(rows[1..], cursor);
    }
  }

  // Filtering by the last key seen continues exactly after it.
  lemma {:induction false} BelowIsRest(rows: seq<Share>, k: nat)
    requires Descending(rows) && 0 < k <= |rows|
    ensures Below(rows, Some(rows[k - 1].key)) == rows[k..]
  {
    KeyTotal(rows[0].key, rows[k - 1].key);
    if k == 1 {
      BelowAll(rows[1..], Some(rows[0].key));
    } else {
      BelowIsRest(rows[1..], k - 1);
    }
  }

  lemma SortedDescending(rows: seq<Share>)
    requires DistinctKeys(rows)
    ensures Descending(Sort(rows, NotAfter)) && Distinguishes(rows, NotAfter)
  {
    NotAfterTotal();
    SortSorts(rows, NotAfter);
    var s := Sort(rows, NotAfter);
    PermutationElements(s, rows);
    assert (set r | r in s :: r.key) == (set r | r in rows :: r.key);
    KeysPairwise(s);
    KeysPairwise(rows);
    forall i, j | 0 <= i < j < |s|
      ensures KeyLess(s[j].key, s[i].key)
    {
      assert NotAfter(s[i], s[j]);
    }
    forall a, b | a in rows && b in rows && NotAfter(a, b) && NotAfter(b, a)
      ensures a == b
    {
      KeyTotal(a.key, b.key);
    }
  }

  lemma KeysPairwise(rows: seq<Share>)
    requires DistinctKeys(rows)
    ensures forall i, j :: 0 <= i < j < |rows| ==> rows[i].key != rows[j].key
    ensures forall a, b :: a in rows && b in rows && a.key == b.key ==> a == b
  {
    var keys := seq(|rows|, i requires 0 <= i < |rows| => rows[i].key);
    assert Elements(keys) == set r | r in rows :: r.key by {
      forall k
        ensures k in Elements(keys) <==> k in set r | r in rows :: r.key
      {
        if k in keys {
          var i :| 0 <= i < |keys| && keys[i] == k;
          assert rows[i] in rows;
        }
        if k in set r | r in rows :: r.key {
          var i :| 0 <= i < |rows| && rows[i].key == k;
          assert keys[i] == k;
        }
      }
    }
    NoDuplicatesPairwise(keys);
    assert forall i :: 0 <= i < |rows| ==> keys[i] == rows[i].key;
  }

  lemma BeforeSplits(a: seq<Selected>, b: seq<Selected>, rest: Result<seq<Selected>, WindowError>)
    ensures Before(a, Before(b, rest)) == Before(a + b, rest)
  {
    if rest.Success? {
      assert a + (b + rest.value) == a + b + rest.value;
    }
  }

  // One more row of the scan.
  lemma ScanStep(rows: seq<Share>, k: nat, f: real, total: real)
    requires k < |rows| && total < f
    ensures Score(rows[k]).Failure? ==> Scan(rows[k..], f, total) == Failure(Score(rows[k]).error)
    ensures Score(rows[k]).Success? ==>
      var c := Min(Score(rows[k]).value, f - total);
      Scan(rows[k..], f, total)
        == Before([Take(Score(rows[k]).value, f - total, rows[k].account)], Scan(rows[k + 1..], f, total + c))
  {
    assert rows[k..][1..] == rows[k + 1..];
  }

  // Goes through one page, from row k of the sorted rows on; stops early once the factor is reached.
  method TakePage(page: seq<Share>, f: real, before: seq<Selected>, have: real, ghost sorted: seq<Share>, ghost k: nat)
      returns (r: Result<(seq<Selected>, real), WindowError>, ghost next: nat)
    requires page != [] && have < f && k + |page| <= |sorted| && page == sorted[k..k + |page|]
    ensures next <= |sorted|
    ensures match r
      case Failure(e) => Before(before, Scan(sorted[k..], f, have)) == Failure(e)
      case Success((selected, total)) =>
        && k < next && total <= f && (total < f ==> next == k + |page|)
        && Before(before, Scan(sorted[k..], f, have)) == Before(selected, Scan(sorted[next..], f, total))
  {
    hide Score, Scan, Take, Before;
    var selected, total := before, have;
    next := k;
    for i := 0 to |page|
      invariant next == k + i && total < f
      invariant Before(before, Scan(sorted[k..], f, have)) == Before(selected, Scan(sorted[next..], f, total))
    {
      assert page[i] == sorted[next];
      ScanStep(sorted, next, f, total);
      var score := Score(page[i]);
      if score.Failure? {
        BeforeFailure(selected, score.error);
        return Failure(score.error), next;
      }
      var contribution := Min(score.value, f - total);
      var part := Take(score.value, f - total, page[i].account);
      BeforeSplits(selected, [part], Scan(sorted[next + 1..], f, total + contribution));
      selected := selected + [part];
      total := total + contribution;
      next := next + 1;
      if total == f {
        return Success((selected, total)), next;
      }
    }
    r := Success((selected, total));
  }

  // The selection by pages: for every page size the one-pass result, or the one-pass failure.
  method SelectWindow(rows: seq<Share>, factor: string, pageSize: int) returns (r: Result<seq<Selected>, WindowError>)
    ensures pageSize > 0 ==> r == Selection(rows, factor)
    ensures pageSize <= 0 ==> r == Failure(if DecimalOf(factor).Success? then BadParameter else BadFactor)
  {
    hide Score, Scan, Take, Below, Sort, Before, DecimalOf;
    var parsed := DecimalOf(factor);
    if parsed.Failure? {
      return Failure(BadFactor);
    }
    var f := parsed.value;
    if f <= 0.0 || pageSize <= 0 {
      return Failure(BadParameter);
    }
    if !DistinctKeys(rows) {
      return Failure(DuplicateTuple);
    }
    if !DistinctAccounts(rows) {
      return Failure(DuplicateAccount);
    }
    var sorted := Sort(rows, NotAfter);
    SortedDescending(rows);
    r := SelectSorted(sorted, f, pageSize);
  }

  // Page after page of the sorted rows, each starting below the last key of the one before.
  method SelectSorted(sorted: seq<Share>, f: real, pageSize: int) returns (r: Result<seq<Selected>, WindowError>)
    requires Descending(sorted) && pageSize > 0 && f > 0.0
    ensures r == Scan(sorted, f, 0.0)
  {
    hide Score, Scan, Take, Below, Before, Descending;
    var selected, total, cursor := [], 0.0, None;
    ghost var k := 0;
    BeforeNothing(Scan(sorted, f, 0.0));
    assert sorted[0..] == sorted;
    while total < f
      invariant 0 <= k <= |sorted| && total <= f
      invariant total < f ==> cursor == if k == 0 then None else Some(sorted[k - 1].key)
      invariant Scan(sorted, f, 0.0) == Before(selected, Scan(sorted[k..], f, total))
      decreases |sorted| - k
    {
      if k > 0 {
        BelowIsRest(sorted, k);
      } else {
        BelowAll(sorted, None);
      }
      var rest := Below(sorted, cursor);
      var page := if pageSize <= |rest| then rest[..pageSize] else rest;
      if page == [] {
        break;
      }
      var taken, next := TakePage(page, f, selected, total, sorted, k);
      if taken.Failure? {
        return Failure(taken.error);
      }
      selected, total, k := taken.value.0, taken.value.1, next;
      cursor := Some(page[|page| - 1].key);
    }
    ScanEnds(sorted[k..], f, total, selected);
    r := Success(selected);
  }

  lemma BeforeNothing(rest: Result<seq<Selected>, WindowError>)
    ensures Before([], rest) == rest
  {
    if rest.Success? {
      assert [] + rest.value == rest.value;
    }
  }

  lemma BeforeFailure(selected: seq<Selected>, e: WindowError)
    ensures Before(selected, Failure(e)) == Failure(e)
  {
  }

  lemma ScanEnds(rows: seq<Share>, f: real, total: real, selected: seq<Selected>)
    requires rows == [] || total >= f
    ensures Before(selected, Scan(rows, f, total)) == Success(selected)
  {
    assert selected + [] == selected;
  }

  // ------------------------------------------------------------------ what a window contains

  function Total(selected: seq<Selected>): real {
    if selected == [] then 0.0 else selected[0].contribution + Total(selected[1..])
  }

  predicate AllScored(rows: seq<Share>) {
    forall i :: 0 <= i < |rows| ==> Score(rows[i]).Success?
  }

  function TotalScore(rows: seq<Share>): real
    requires AllScored(rows)
  {
    if rows == [] then 0.0 else Score(rows[0]).value + TotalScore(rows[1..])
  }

  // Row i of the selection is row i of the shares, with its whole score unless it is the last one.
  predicate Selects(rows: seq<Share>, selected: seq<Selected>, i: nat)
    requires i < |selected| <= |rows|
  {
    && Score(rows[i]).Success?
    && var score := Score(rows[i]).value;
       && selected[i].account == rows[i].account
       && 0.0 < selected[i].contribution <= score
       && selected[i].fraction == selected[i].contribution / score
       && (i < |selected| - 1 ==> selected[i].contribution == score && selected[i].fraction == 1.0)
  }

  lemma SelfQuotient(x: real)
    requires x != 0.0
    ensures x / x == 1.0
  {
  }

  lemma SelectsFirst(rows: seq<Share>, f: real, total: real, more: seq<Selected>)
    requires rows != [] && |more| < |rows| && total < f && Score(rows[0]).Success?
    requires more != [] ==> total + Min(Score(rows[0]).value, f - total) < f
    ensures Selects(rows, [Take(Score(rows[0]).value, f - total, rows[0].account)] + more, 0)
  {
    hide Score;
    var score := Score(rows[0]).value;
    var part := Take(score, f - total, rows[0].account);
    assert ([part] + more)[0] == part;
    SelfQuotient(score);
  }

  lemma SelectsNext(rows: seq<Share>, part: Selected, more: seq<Selected>, i: nat)
    requires rows != [] && i < |more| < |rows| && Selects(rows[1..], more, i)
    ensures Selects(rows, [part] + more, i + 1)
  {
    hide Score;
    assert ([part] + more)[i + 1] == more[i] && rows[i + 1] == rows[1..][i];
  }

  // A scan takes the newest shares whole, except that the last may be cut to fit: their contributions reach the
  // factor exactly, or all shares are taken; without the last one they stay below it.
  lemma {:induction false} ScanContents(rows: seq<Share>, f: real, total: real)
    requires total <= f && Scan(rows, f, total).Success?
    ensures var s := Scan(rows, f, total).value;
      && |s| <= |rows|
      && (forall i :: 0 <= i < |s| ==> Selects(rows, s, i))
      && (total + Total(s) == f || (total + Total(s) < f && |s| == |rows|))
      && (s != [] ==> total + Total(s[..|s| - 1]) < f)
  {
    hide Score, Selects;
    if rows != [] && total < f {
      var score := Score(rows[0]).value;
      var part, total' := Take(score, f - total, rows[0].account), total + Min(score, f - total);
      ScanContents(rows[1..], f, total');
      var more := Scan(rows[1..], f, total').value;
      var s := [part] + more;
      assert s[1..] == more;
      if more != [] {
        assert s[..|s| - 1] == [part] + more[..|more| - 1];
        assert s[..|s| - 1][1..] == more[..|more| - 1];
      } else {
        assert s[..|s| - 1] == [];
      }
      SelectsFirst(rows, f, total, more);
      forall i | 0 <= i < |s|
        ensures Selects(rows, s, i)
      {
        if i > 0 {
          assert Selects(rows[1..], more, i - 1);
          SelectsNext(rows, part, more, i - 1);
        }
      }
    }
  }

  // The scan fails exactly when it reaches a row without a score.
  lemma {:induction false} ScanFails(rows: seq<Share>, f: real, total: real)
    requires total <= f
    ensures Scan(rows, f, total).Failure? <==> exists i :: FailsAt(rows, f, total, i)
  {
    hide Score;
    if rows == [] || total >= f {
      forall i
        ensures !FailsAt(rows, f, total, i)
      {
        if 0 <= i < |rows| && AllScored(rows[..i]) {
          TotalScoreNonnegative(rows[..i]);
        }
      }
    } else if Score(rows[0]).Failure? {
      assert rows[..0] == [];
      assert FailsAt(rows, f, total, 0);
    } else {
      var score := Score(rows[0]).value;
      var total' := total + Min(score, f - total);
      ScanFails(rows[1..], f, total');
      forall i
        ensures FailsAt(rows, f, total, i + 1) <==> FailsAt(rows[1..], f, total', i)
      {
        FailsShift(rows, f, total, i);
      }
      if i :| FailsAt(rows, f, total, i) {
        assert i != 0;
        assert FailsAt(rows, f, total, (i - 1) + 1);
        assert FailsAt(rows[1..], f, total', i - 1);
      }
      if i :| FailsAt(rows[1..], f, total', i) {
        assert FailsAt(rows, f, total, i + 1);
      }
    }
  }

  // Row i has no score, every row before it has one, and those scores do not reach the factor.
  predicate FailsAt(rows: seq<Share>, f: real, total: real, i: int) {
    0 <= i < |rows| && Score(rows[i]).Failure? && AllScored(rows[..i]) && total + TotalScore(rows[..i]) < f
  }

  lemma {:induction false} TotalScoreNonnegative(rows: seq<Share>)
    requires AllScored(rows)
    ensures TotalScore(rows) >= 0.0
  {
    hide Score;
    if rows != [] {
      TotalScoreNonnegative(rows[1..]);
    }
  }

  lemma FailsShift(rows: seq<Share>, f: real, total: real, i: int)
    requires rows != [] && total < f && Score(rows[0]).Success?
    ensures FailsAt(rows, f, total, i + 1)
      <==> FailsAt(rows[1..], f, total + Min(Score(rows[0]).value, f - total), i)
  {
    hide Score;
    if 0 <= i < |rows| - 1 {
      assert rows[1..][..i] == rows[..i + 1][1..];
      if AllScored(rows[1..][..i]) {
        TotalScoreNonnegative(rows[1..][..i]);
        assert AllScored(rows[..i + 1]);
      }
      if AllScored(rows[..i + 1]) {
        assert AllScored(rows[1..][..i]);
      }
    } else if i == -1 {
      assert rows[0] == rows[i + 1];
    }
  }

  // When every share has a score, the contributions sum to the factor or to all scores, whichever is less.
  lemma {:induction false} ScanSum(rows: seq<Share>, f: real, total: real)
    requires total <= f && AllScored(rows)
    ensures Scan(rows, f, total).Success?
    ensures total + Total(Scan(rows, f, total).value) == Min(f, total + TotalScore(rows))
  {
    hide Score;
    TotalScoreNonnegative(rows);
    if rows != [] && total < f {
      var total' := total + Min(Score(rows[0]).value, f - total);
      ScanSum(rows[1..], f, total');
      TotalScoreNonnegative(rows[1..]);
      var part := Take(Score(rows[0]).value, f - total, rows[0].account);
      var more := Scan(rows[1..], f, total').value;
      assert ([part] + more)[1..] == more;
    }
  }

  // ------------------------------------------------------------------ guarantees of the selection

  // What a selection is for a factor f, of all shares in descending order.
  lemma WindowContents(rows: seq<Share>, factor: string)
    requires Selection(rows, factor).Success?
    ensures var s, sorted, f := Selection(rows, factor).value, Sort(rows, NotAfter), DecimalOf(factor).value;
      && Permutation(sorted, rows) && Descending(sorted) && |s| <= |sorted|
      && (forall i :: 0 <= i < |s| ==> Selects(sorted, s, i))
      && (Total(s) == f || (Total(s) < f && |s| == |rows|))
      && (s != [] ==> Total(s[..|s| - 1]) < f)
  {
    hide Scan, Score, Sort, DecimalOf, DistinctAccounts, Selects;
    NotAfterTotal();
    SortSorts(rows, NotAfter);
    SortedDescending(rows);
    PermutationElements(Sort(rows, NotAfter), rows);
    ScanContents(Sort(rows, NotAfter), DecimalOf(factor).value, 0.0);
  }

  // Contributions sum to the factor or to the sum of all scores, whichever is less.
  lemma WindowSum(rows: seq<Share>, factor: string)
    requires Selection(rows, factor).Success? && AllScored(rows)
    ensures AllScored(Sort(rows, NotAfter))
    ensures Total(Selection(rows, factor).value) == Min(DecimalOf(factor).value, TotalScore(Sort(rows, NotAfter)))
  {
    hide Scan, Score, Sort, DecimalOf, DistinctAccounts;
    NotAfterTotal();
    var sorted := Sort(rows, NotAfter);
    SortSorts(rows, NotAfter);
    PermutationElements(sorted, rows);
    forall i | 0 <= i < |sorted|
      ensures Score(sorted[i]).Success?
    {
      assert sorted[i] in rows;
    }
    ScanSum(sorted, DecimalOf(factor).value, 0.0);
  }

  // The order of the input never matters, not even for which failure is reported.
  lemma WindowOrderFree(rows: seq<Share>, rows': seq<Share>, factor: string)
    requires Permutation(rows, rows')
    ensures Selection(rows, factor) == Selection(rows', factor)
  {
    hide Scan, Score, Sort, DecimalOf;
    PermutationElements(rows, rows');
    assert (set r | r in rows :: r.key) == (set r | r in rows' :: r.key);
    assert (set r | r in rows :: r.account) == (set r | r in rows' :: r.account);
    if DistinctKeys(rows) {
      SortedDescending(rows);
      NotAfterTotal();
      SortOrderFree(rows, rows', NotAfter);
    }
  }

  // ------------------------------------------------------------------ what the order of shares is

  predicate KeySized(k: Key) {
    k.time >= 0 && Fits(8, k.time) && |k.sender| == 16 && k.sequence >= 0 && Fits(8, k.sequence) && |k.relay| == 16
  }

  // Time, sender, sequence and relay id, one after the other.
  function KeyOctets(k: Key): Octets
    requires KeySized(k)
  {
    BigEndian(8, k.time) + (k.sender + (BigEndian(8, k.sequence) + k.relay))
  }

  // Keys are ordered as their octets are.
  lemma KeyOrder(a: Key, b: Key)
    requires KeySized(a) && KeySized(b)
    ensures KeyLess(a, b) <==> BytesLess(KeyOctets(a), KeyOctets(b))
  {
    hide BigEndian, Fits, BytesLess;
    var s, t := BigEndian(8, a.sequence) + a.relay, BigEndian(8, b.sequence) + b.relay;
    CompareParts(BigEndian(8, a.time), a.sender + s, BigEndian(8, b.time), b.sender + t);
    CompareIntegers(8, a.time, b.time);
    CompareParts(a.sender, s, b.sender, t);
    CompareParts(BigEndian(8, a.sequence), a.relay, BigEndian(8, b.sequence), b.relay);
    CompareIntegers(8, a.sequence, b.sequence);
    SameInteger(a.time, b.time);
    SameInteger(a.sequence, b.sequence);
  }

  lemma SameInteger(n: nat, m: nat)
    requires Fits(8, n) && Fits(8, m)
    ensures BigEndian(8, n) == BigEndian(8, m) <==> n == m
  {
    if BigEndian(8, n) == BigEndian(8, m) {
      BigEndianInjective(8, n, m);
    }
  }

  // ------------------------------------------------------------------ exactly when a selection succeeds

  function KeyOf(s: Share): Key {
    s.key
  }

  function AccountOf(s: Share): Octets {
    s.account
  }

  ghost predicate PairwiseKeys(rows: seq<Share>) {
    forall i, j :: 0 <= i < j < |rows| ==> rows[i].key != rows[j].key
  }

  ghost predicate PairwiseAccounts(rows: seq<Share>) {
    forall i, j :: 0 <= i < j < |rows| ==> rows[i].account != rows[j].account
  }

  lemma DistinctKeysPairwise(rows: seq<Share>)
    ensures DistinctKeys(rows) <==> PairwiseKeys(rows)
  {
    hide Elements;
    var keys := Map(rows, KeyOf);
    MapElements(rows, KeyOf);
    assert (set r | r in rows :: r.key) == Elements(keys);
    NoDuplicatesPairwise(keys);
    assert (forall i, j :: 0 <= i < j < |keys| ==> keys[i] != keys[j]) <==> PairwiseKeys(rows) by {
      assert forall i :: 0 <= i < |rows| ==> keys[i] == rows[i].key;
    }
  }

  lemma DistinctAccountsPairwise(rows: seq<Share>)
    ensures DistinctAccounts(rows) <==> PairwiseAccounts(rows)
  {
    hide Elements;
    var accounts := Map(rows, AccountOf);
    MapElements(rows, AccountOf);
    assert (set r | r in rows :: r.account) == Elements(accounts);
    NoDuplicatesPairwise(accounts);
    assert (forall i, j :: 0 <= i < j < |accounts| ==> accounts[i] != accounts[j]) <==> PairwiseAccounts(rows) by {
      assert forall i :: 0 <= i < |rows| ==> accounts[i] == rows[i].account;
    }
  }

  // Some row without a score is reached before the scores of the newer rows make up the factor.
  ghost predicate Scoreless(rows: seq<Share>, f: real) {
    exists i :: FailsAt(Sort(rows, NotAfter), f, 0.0, i)
  }

  // A selection succeeds exactly for a canonical positive factor and rows with distinct keys and distinct accounting
  // identities, when no row without a score is reached; each failure has its reason, in this order.
  lemma SelectionExactly(rows: seq<Share>, factor: string)
    ensures var r := Selection(rows, factor);
      && (!DecimalOf(factor).Success? ==> r == Failure(BadFactor))
      && (DecimalOf(factor).Success? ==>
            var f := DecimalOf(factor).value;
            && (f <= 0.0 ==> r == Failure(BadParameter))
            && (f > 0.0 && !PairwiseKeys(rows) ==> r == Failure(DuplicateTuple))
            && (f > 0.0 && PairwiseKeys(rows) && !PairwiseAccounts(rows) ==> r == Failure(DuplicateAccount))
            && (f > 0.0 && PairwiseKeys(rows) && PairwiseAccounts(rows) ==> (r.Failure? <==> Scoreless(rows, f))))
  {
    hide DecimalOf, Scan, Sort, DistinctKeys, DistinctAccounts, PairwiseKeys, PairwiseAccounts, FailsAt;
    DistinctKeysPairwise(rows);
    DistinctAccountsPairwise(rows);
    if DecimalOf(factor).Success? && DecimalOf(factor).value > 0.0 {
      ScanFails(Sort(rows, NotAfter), DecimalOf(factor).value, 0.0);
    }
  }
}
