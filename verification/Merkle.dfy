// The Merkle root of a block's transaction ids, with the last id of an odd level paired with itself.
//
// The pair hash is a parameter; nothing is assumed of it but what the lemmas require of the pairs actually hashed.
module Merkle {
  import opened Bytes
  import opened Collections

  type PairHash = (Octets, Octets) -> Octets

  function Padded(level: seq<Octets>): (r: seq<Octets>)
    requires level != []
    ensures |r| % 2 == 0 && |level| <= |r| <= |level| + 1
    ensures r == if |level| % 2 == 0 then level else level + [level[|level| - 1]]
  {
    if |level| % 2 == 0 then level else level + [level[|level| - 1]]
  }

  // The level above a level.
  function Above(h: PairHash, level: seq<Octets>): (r: seq<Octets>)
    requires level != []
    ensures |r| == (|level| + 1) / 2 == |Padded(level)| / 2
    ensures forall i :: 0 <= i < |r| ==> r[i] == h(Padded(level)[2 * i], Padded(level)[2 * i + 1])
  {
    seq((|level| + 1) / 2, i requires 0 <= i < (|level| + 1) / 2 => h(Padded(level)[2 * i], Padded(level)[2 * i + 1]))
  }

  function Root(h: PairHash, level: seq<Octets>): Octets
    requires level != []
    decreases |level|
  {
    if |level| == 1 then level[0] else Root(h, Above(h, level))
  }

  const ZERO: Octets := seq(32, i => 0)

  method HashLevel(h: PairHash, below: seq<Octets>) returns (above: seq<Octets>)
    requires below != []
    ensures above == Above(h, below)
  {
    var level := below;
    if |level| % 2 == 1 {
      level := level + [level[|level| - 1]];
    }
    above := [];
    for i := 0 to |level| / 2
      invariant |above| == i && level == Padded(below)
      invariant forall k :: 0 <= k < i ==> above[k] == h(level[2 * k], level[2 * k + 1])
    {
      above := above + [h(level[2 * i], level[2 * i + 1])];
    }
  }

  // Computes the root level by level.
  method MerkleRoot(h: PairHash, leaves: seq<Octets>) returns (root: Octets)
    ensures root == if leaves == [] then ZERO else Root(h, leaves)
  {
    if leaves == [] {
      return ZERO;
    }
    var level := leaves;
    while |level| > 1
      invariant level != [] && Root(h, level) == Root(h, leaves)
      decreases |level|
    {
      level := HashLevel(h, level);
    }
    root := level[0];
  }

  // ------------------------------------------------------------------ what is hashed

  function LevelPairs(level: seq<Octets>): set<(Octets, Octets)>
    requires level != []
  {
    set i | 0 <= i < (|level| + 1) / 2 :: (Padded(level)[2 * i], Padded(level)[2 * i + 1])
  }

  // Every pair hashed on the way to the root.
  function Pairs(h: PairHash, level: seq<Octets>): set<(Octets, Octets)>
    requires level != []
    decreases |level|
  {
    if |level| == 1 then {} else LevelPairs(level) + Pairs(h, Above(h, level))
  }

  ghost predicate NoCollision(h: PairHash, p: (Octets, Octets), q: (Octets, Octets)) {
    h(p.0, p.1) == h(q.0, q.1) ==> p == q
  }

  ghost predicate CollisionFree(h: PairHash, pairs: set<(Octets, Octets)>) {
    forall p, q {:trigger NoCollision(h, p, q)} :: p in pairs && q in pairs ==> NoCollision(h, p, q)
  }

  // No id is the hash of one of the pairs.
  ghost predicate Apart(h: PairHash, leaves: seq<Octets>, pairs: set<(Octets, Octets)>) {
    forall p: (Octets, Octets) :: p in pairs ==> h(p.0, p.1) !in leaves
  }

  lemma InLevelPairs(level: seq<Octets>, i: nat)
    requires level != [] && i < (|level| + 1) / 2
    ensures (Padded(level)[2 * i], Padded(level)[2 * i + 1]) in LevelPairs(level)
  {
  }

  // ------------------------------------------------------------------ a level determines the one below

  lemma Distinct(level: seq<Octets>, i: nat, j: nat)
    requires NoDuplicates(level) && i < j < |level|
    ensures level[i] != level[j]
  {
    NoDuplicatesPairwise(level);
  }

  lemma {:induction false} AboveInjective(h: PairHash, x: seq<Octets>, y: seq<Octets>)
    requires x != [] && y != [] && NoDuplicates(x) && NoDuplicates(y) && |x| > 1 && |y| > 1
    requires CollisionFree(h, LevelPairs(x) + LevelPairs(y)) && Above(h, x) == Above(h, y)
    ensures x == y
  {
    hide NoDuplicates;
    var p, q, n := Padded(x), Padded(y), |Above(h, x)|;
    forall i | 0 <= i < n
      ensures p[2 * i] == q[2 * i] && p[2 * i + 1] == q[2 * i + 1]
    {
      InLevelPairs(x, i);
      InLevelPairs(y, i);
      assert Above(h, x)[i] == Above(h, y)[i];
      assert NoCollision(h, (p[2 * i], p[2 * i + 1]), (q[2 * i], q[2 * i + 1]));
    }
    EqualByPairs(p, q, n);
    SamePadding(x, y);
  }

  lemma EqualByPairs(p: seq<Octets>, q: seq<Octets>, n: nat)
    requires |p| == 2 * n == |q|
    requires forall i :: 0 <= i < n ==> p[2 * i] == q[2 * i] && p[2 * i + 1] == q[2 * i + 1]
    ensures p == q
  {
    forall k | 0 <= k < |p|
      ensures p[k] == q[k]
    {
      assert p[2 * (k / 2)] == q[2 * (k / 2)] && p[2 * (k / 2) + 1] == q[2 * (k / 2) + 1];
    }
  }

  // Padding cannot hide a difference between lists without duplicates.
  lemma SamePadding(x: seq<Octets>, y: seq<Octets>)
    requires |x| > 1 && |y| > 1 && NoDuplicates(x) && NoDuplicates(y) && Padded(x) == Padded(y)
    ensures x == y
  {
    hide NoDuplicates;
    var p, q := Padded(x), Padded(y);
    var last := |p| - 1;
    assert p[last] == q[last] && p[last - 1] == q[last - 1];
    if |x| < |y| {
      Distinct(y, last - 1, last);
    } else if |y| < |x| {
      Distinct(x, last - 1, last);
    }
    assert x == p[..|x|] && y == q[..|y|];
  }

  // A level without duplicates is followed by one without duplicates.
  lemma {:induction false} AboveDistinct(h: PairHash, x: seq<Octets>)
    requires x != [] && NoDuplicates(x) && CollisionFree(h, LevelPairs(x))
    ensures NoDuplicates(Above(h, x))
  {
    var p, a := Padded(x), Above(h, x);
    forall i, j | 0 <= i < j < |a|
      ensures a[i] != a[j]
    {
      InLevelPairs(x, i);
      InLevelPairs(x, j);
      assert NoCollision(h, (p[2 * i], p[2 * i + 1]), (p[2 * j], p[2 * j + 1]));
      Distinct(x, 2 * i, 2 * j);
    }
    NoDuplicatesPairwise(a);
  }

  // ------------------------------------------------------------------ the root determines the list

  // y is one of the levels of the tree over x.
  predicate LevelOf(h: PairHash, x: seq<Octets>, y: seq<Octets>)
    requires x != []
    decreases |x|
  {
    x == y || (|x| > 1 && LevelOf(h, Above(h, x), y))
  }

  lemma CollisionFreeSubset(h: PairHash, s: set<(Octets, Octets)>, t: set<(Octets, Octets)>)
    requires CollisionFree(h, t) && s <= t
    ensures CollisionFree(h, s)
  {
  }

  // If the level above y is in the tree strictly over x, then y is in the tree over x.
  lemma {:induction false} LevelBelow(h: PairHash, x: seq<Octets>, y: seq<Octets>, pairs: set<(Octets, Octets)>)
    requires |x| > 1 && |y| > 1 && NoDuplicates(x) && NoDuplicates(y)
    requires CollisionFree(h, pairs) && Pairs(h, x) <= pairs && LevelPairs(y) <= pairs
    requires LevelOf(h, Above(h, x), Above(h, y))
    ensures LevelOf(h, x, y)
    decreases |x|
  {
    hide CollisionFree, NoDuplicates;
    CollisionFreeSubset(h, LevelPairs(x) + LevelPairs(y), pairs);
    CollisionFreeSubset(h, LevelPairs(x), pairs);
    if Above(h, x) == Above(h, y) {
      AboveInjective(h, x, y);
    } else {
      AboveDistinct(h, x);
      LevelBelow(h, Above(h, x), y, pairs);
    }
  }

  lemma {:induction false} RootIsLevel(h: PairHash, x: seq<Octets>)
    requires x != []
    ensures LevelOf(h, x, [Root(h, x)])
    decreases |x|
  {
    if |x| > 1 {
      RootIsLevel(h, Above(h, x));
    }
  }

  // Of two trees with one root, one is the top of the other.
  lemma {:induction false} OneInTheOther(h: PairHash, x: seq<Octets>, y: seq<Octets>, pairs: set<(Octets, Octets)>)
    requires x != [] && y != [] && NoDuplicates(x) && NoDuplicates(y) && Root(h, x) == Root(h, y)
    requires CollisionFree(h, pairs) && Pairs(h, x) <= pairs && Pairs(h, y) <= pairs
    ensures LevelOf(h, x, y) || LevelOf(h, y, x)
    decreases |x| + |y|
  {
    hide CollisionFree, NoDuplicates;
    if |x| == 1 {
      RootIsLevel(h, y);
      assert x == [x[0]];
    } else if |y| == 1 {
      RootIsLevel(h, x);
      assert y == [y[0]];
    } else {
      CollisionFreeSubset(h, LevelPairs(x), pairs);
      CollisionFreeSubset(h, LevelPairs(y), pairs);
      AboveDistinct(h, x);
      AboveDistinct(h, y);
      OneInTheOther(h, Above(h, x), Above(h, y), pairs);
      if LevelOf(h, Above(h, x), Above(h, y)) {
        LevelBelow(h, x, y, pairs);
      } else {
        LevelBelow(h, y, x, pairs);
      }
    }
  }

  // A level other than the list itself consists of hashes.
  lemma {:induction false} LevelsAreHashes(h: PairHash, x: seq<Octets>, y: seq<Octets>)
    requires x != [] && y != [] && LevelOf(h, x, y) && x != y
    ensures exists p: (Octets, Octets) :: p in Pairs(h, x) && h(p.0, p.1) == y[0]
    decreases |x|
  {
    var a := Above(h, x);
    if a == y {
      InLevelPairs(x, 0);
      assert h(Padded(x)[0], Padded(x)[1]) == y[0];
      var p := (Padded(x)[0], Padded(x)[1]);
      assert p in Pairs(h, x) && h(p.0, p.1) == y[0];
    } else {
      LevelsAreHashes(h, a, y);
    }
  }

  // Two lists of distinct ids with the same root are the same list, whatever their lengths, unless two hashed pairs
  // collide or an id is itself such a hash.
  lemma RootDeterminesList(h: PairHash, x: seq<Octets>, y: seq<Octets>)
    requires x != [] && y != [] && NoDuplicates(x) && NoDuplicates(y) && Root(h, x) == Root(h, y)
    requires CollisionFree(h, Pairs(h, x) + Pairs(h, y))
    requires Apart(h, x, Pairs(h, y)) && Apart(h, y, Pairs(h, x))
    ensures x == y
  {
    OneInTheOther(h, x, y, Pairs(h, x) + Pairs(h, y));
    if x != y {
      if LevelOf(h, x, y) {
        LevelsAreHashes(h, x, y);
      } else {
        LevelsAreHashes(h, y, x);
      }
      assert false;
    }
  }

  // Without the check for duplicates the root would not be enough: repeating the last of an odd number of ids
  // leaves it unchanged.
  lemma RepeatedLast(h: PairHash, x: seq<Octets>)
    requires |x| > 1 && |x| % 2 == 1
    ensures Root(h, x + [x[|x| - 1]]) == Root(h, x)
    ensures !NoDuplicates(x + [x[|x| - 1]])
  {
    var y := x + [x[|x| - 1]];
    assert Padded(y) == Padded(x);
    assert Above(h, y) == Above(h, x);
    NoDuplicatesPairwise(y);
    assert y[|x| - 1] == y[|x|];
  }

  // ------------------------------------------------------------------ the root from the top

  function Exp2(k: nat): (r: nat)
    ensures r > 0
  {
    if k == 0 then 1 else 2 * Exp2(k - 1)
  }

  // Root of the tree of height k over a list: the left subtree is over the first half of the tree's leaves; where there
  // is no right subtree, the left one stands in for it.
  function TopDown(h: PairHash, k: nat, s: seq<Octets>): Octets
    requires 1 <= |s| <= Exp2(k)
  {
    if k == 0 then s[0]
    else
      var half := Exp2(k - 1);
      if |s| <= half then h(TopDown(h, k - 1, s), TopDown(h, k - 1, s))
      else h(TopDown(h, k - 1, s[..half]), TopDown(h, k - 1, s[half..]))
  }

  lemma AboveAt(h: PairHash, s: seq<Octets>, i: nat)
    requires s != [] && 2 * i < |s|
    ensures i < |Above(h, s)|
    ensures Above(h, s)[i] == h(s[2 * i], if 2 * i + 1 < |s| then s[2 * i + 1] else s[2 * i])
  {
  }

  lemma AboveOfFirst(h: PairHash, s: seq<Octets>, half: nat)
    requires 0 < half && 2 * half < |s|
    ensures half < |Above(h, s)| && Above(h, s)[..half] == Above(h, s[..2 * half])
  {
    hide Above;
    var a, b := Above(h, s), Above(h, s[..2 * half]);
    forall i | 0 <= i < half
      ensures a[..half][i] == b[i]
    {
      AboveAt(h, s, i);
      AboveAt(h, s[..2 * half], i);
    }
  }

  lemma AboveOfRest(h: PairHash, s: seq<Octets>, half: nat)
    requires 0 < half && 2 * half < |s|
    ensures half < |Above(h, s)| && Above(h, s)[half..] == Above(h, s[2 * half..])
  {
    hide Above;
    var a, rest := Above(h, s), s[2 * half..];
    var b := Above(h, rest);
    forall i | 0 <= i < |b|
      ensures a[half..][i] == b[i]
    {
      AboveAt(h, s, half + i);
      AboveAt(h, rest, i);
      assert 2 * (half + i) == 2 * half + 2 * i;
      assert rest[2 * i] == s[2 * half + 2 * i];
    }
  }

  lemma TopOfSmall(h: PairHash, k: nat, s: seq<Octets>)
    requires k > 0 && 1 <= |s| <= Exp2(k - 1)
    ensures |s| <= Exp2(k) && TopDown(h, k, s) == h(TopDown(h, k - 1, s), TopDown(h, k - 1, s))
  {
  }

  lemma TopOfSplit(h: PairHash, k: nat, s: seq<Octets>)
    requires k > 0 && Exp2(k - 1) < |s| <= Exp2(k)
    ensures var half := Exp2(k - 1);
      |s| - half <= half && TopDown(h, k, s) == h(TopDown(h, k - 1, s[..half]), TopDown(h, k - 1, s[half..]))
  {
  }

  // A tree of height one.
  lemma LevelUpOne(h: PairHash, s: seq<Octets>)
    requires 1 <= |s| <= 2
    ensures |s| <= Exp2(1) && |Above(h, s)| == 1 <= Exp2(0) && TopDown(h, 1, s) == TopDown(h, 0, Above(h, s))
  {
    AboveAt(h, s, 0);
    assert Exp2(1) == 2 * Exp2(0) && Exp2(0) == 1;
    if |s| == 1 {
      TopOfSmall(h, 1, s);
    } else {
      TopOfSplit(h, 1, s);
      assert s[..1][0] == s[0] && s[1..][0] == s[1];
    }
  }

  lemma Exp2Step(k: nat)
    requires k > 0
    ensures Exp2(k) == 2 * Exp2(k - 1)
  {
  }

  // a is the root of the level over s, one height lower.
  ghost predicate Lifts(h: PairHash, k: nat, s: seq<Octets>, a: seq<Octets>) {
    k > 0 && 1 <= |s| <= Exp2(k) && 1 <= |a| <= Exp2(k - 1) && TopDown(h, k, s) == TopDown(h, k - 1, a)
  }

  lemma LiftSmall(h: PairHash, k: nat, s: seq<Octets>, a: seq<Octets>)
    requires k > 1 && Lifts(h, k - 1, s, a)
    ensures Lifts(h, k, s, a)
  {
    TopOfSmall(h, k, s);
    TopOfSmall(h, k - 1, a);
  }

  lemma LiftSplit(h: PairHash, k: nat, s: seq<Octets>, a: seq<Octets>)
    requires k > 1 && Exp2(k - 1) < |s| <= Exp2(k) && Exp2(k - 2) < |a| <= Exp2(k - 1)
    requires Lifts(h, k - 1, s[..Exp2(k - 1)], a[..Exp2(k - 2)])
    requires Lifts(h, k - 1, s[Exp2(k - 1)..], a[Exp2(k - 2)..])
    ensures Lifts(h, k, s, a)
  {
    TopOfSplit(h, k, s);
    TopOfSplit(h, k - 1, a);
  }

  // Replacing the leaves by the level above them leaves a tree of one height less with the same root.
  lemma {:induction false} LevelUp(h: PairHash, k: nat, s: seq<Octets>)
    requires k > 0 && 1 <= |s| <= Exp2(k)
    ensures Lifts(h, k, s, Above(h, s))
  {
    hide Above, TopDown, Exp2, Lifts;
    Exp2Step(k);
    if k == 1 {
      ExpOne();
      LiftOne(h, s);
    } else {
      Exp2Step(k - 1);
      var half, quarter := Exp2(k - 1), Exp2(k - 2);
      if |s| <= half {
        LevelUp(h, k - 1, s);
        LiftSmall(h, k, s, Above(h, s));
      } else {
        LevelUp(h, k - 1, s[..half]);
        LevelUp(h, k - 1, s[half..]);
        AboveOfFirst(h, s, quarter);
        AboveOfRest(h, s, quarter);
        LiftSplit(h, k, s, Above(h, s));
      }
    }
  }

  lemma ExpOne()
    ensures Exp2(0) == 1 && Exp2(1) == 2
  {
    Exp2Step(1);
  }

  lemma LiftOne(h: PairHash, s: seq<Octets>)
    requires 1 <= |s| <= 2
    ensures Lifts(h, 1, s, Above(h, s))
  {
    LevelUpOne(h, s);
  }

  // The height of the tree over n leaves.
  function Height(n: nat): (k: nat)
    requires n > 0
    ensures n <= Exp2(k) && (k > 0 ==> Exp2(k - 1) < n)
  {
    if n == 1 then 0 else Height((n + 1) / 2) + 1
  }

  // Computing level by level from the bottom gives the root of that tree.
  lemma {:induction false} RootIsTopDown(h: PairHash, s: seq<Octets>)
    requires s != []
    ensures Root(h, s) == TopDown(h, Height(|s|), s)
    decreases |s|
  {
    hide TopDown, Height, Exp2, Above, Root, Lifts;
    if |s| == 1 {
      RootOfOne(h, s);
    } else {
      var k, a := Height(|s|), Above(h, s);
      HeightStep(|s|);
      LevelUp(h, k, s);
      LiftsGives(h, k, s, a);
      RootStep(h, s);
      RootIsTopDown(h, a);
    }
  }

  lemma RootOfOne(h: PairHash, s: seq<Octets>)
    requires |s| == 1
    ensures Height(1) == 0 && 1 <= Exp2(0) && Root(h, s) == TopDown(h, 0, s)
  {
  }

  lemma RootStep(h: PairHash, s: seq<Octets>)
    requires |s| > 1
    ensures |Above(h, s)| == (|s| + 1) / 2 < |s| && Root(h, s) == Root(h, Above(h, s))
  {
  }

  lemma LiftsGives(h: PairHash, k: nat, s: seq<Octets>, a: seq<Octets>)
    requires Lifts(h, k, s, a)
    ensures k > 0 && 1 <= |s| <= Exp2(k) && 1 <= |a| <= Exp2(k - 1) && TopDown(h, k, s) == TopDown(h, k - 1, a)
  {
  }

  lemma HeightStep(n: nat)
    requires n > 1
    ensures Height(n) == Height((n + 1) / 2) + 1
  {
  }
}
