// Finite sequences as collections: duplicates, permutations, and sorting.
module Collections {

  function Elements<T(==)>(s: seq<T>): set<T> {
    set x | x in s
  }

  // No element occurs twice; the program compares the sizes of the list and of the set of its elements.
  predicate NoDuplicates<T(==)>(s: seq<T>) {
    |Elements(s)| == |s|
  }

  lemma {:induction false} ElementsAtMost<T>(s: seq<T>)
    ensures |Elements(s)| <= |s|
  {
    if s != [] {
      var s0 := s[..|s| - 1];
      ElementsAtMost(s0);
      assert Elements(s) == Elements(s0) + {s[|s| - 1]};
    }
  }

  lemma {:induction false} NoDuplicatesPairwise<T>(s: seq<T>)
    ensures NoDuplicates(s) <==> forall i, j :: 0 <= i < j < |s| ==> s[i] != s[j]
  {
    if s != [] {
      hide NoDuplicates, Elements;
      var s0, x := s[..|s| - 1], s[|s| - 1];
      assert s == s0 + [x];
      NoDuplicatesPairwise(s0);
      DuplicateSnoc(s0, x);
      InElements(s0, x);
      if x in s0 {
        var i :| 0 <= i < |s0| && s0[i] == x;
        assert s[i] == s[|s| - 1];
      } else {
        assert forall i, j :: 0 <= i < j < |s0| ==> s0[i] == s[i] && s0[j] == s[j];
      }
    }
  }

  lemma InElements<T>(s: seq<T>, x: T)
    ensures x in Elements(s) <==> x in s
  {
  }

  lemma DuplicateSnoc<T>(s: seq<T>, x: T)
    ensures NoDuplicates(s + [x]) <==> NoDuplicates(s) && x !in Elements(s)
    ensures Elements(s + [x]) == Elements(s) + {x}
  {
    ElementsAtMost(s);
    assert Elements(s + [x]) == Elements(s) + {x};
    if x in s {
      assert Elements(s + [x]) == Elements(s);
    } else {
      assert |Elements(s) + {x}| == |Elements(s)| + 1;
    }
  }

  lemma ElementsSnoc<T>(s: seq<T>, x: T)
    ensures Elements(s + [x]) == Elements(s) + {x}
  {
  }

  lemma {:induction false} DuplicatesStay<T>(s: seq<T>, n: nat)
    requires n <= |s| && !NoDuplicates(s[..n])
    ensures !NoDuplicates(s)
  {
    NoDuplicatesPairwise(s[..n]);
    NoDuplicatesPairwise(s);
  }

  lemma EmptyDistinct<T>()
    ensures NoDuplicates<T>([]) && Elements<T>([]) == {}
  {
  }

  predicate Permutation<T(==)>(s: seq<T>, t: seq<T>) {
    multiset(s) == multiset(t)
  }

  lemma PermutationElements<T>(s: seq<T>, t: seq<T>)
    requires Permutation(s, t)
    ensures |s| == |t| && Elements(s) == Elements(t)
    ensures forall x :: x in s <==> x in t
  {
    assert |multiset(s)| == |s| && |multiset(t)| == |t|;
    forall x
      ensures x in s <==> x in t
    {
      assert x in s <==> x in multiset(s);
      assert x in t <==> x in multiset(t);
    }
  }

  function Map<T, U>(s: seq<T>, f: T -> U): (r: seq<U>)
    ensures |r| == |s|
    ensures forall i :: 0 <= i < |s| ==> r[i] == f(s[i])
  {
    seq(|s|, i requires 0 <= i < |s| => f(s[i]))
  }

  function Without<T>(s: seq<T>, i: nat): (r: seq<T>)
    requires i < |s|
    ensures |r| == |s| - 1
    ensures forall k :: 0 <= k < |r| ==> r[k] == s[if k < i then k else k + 1]
  {
    s[..i] + s[i + 1..]
  }

  lemma MapElements<T, U>(s: seq<T>, f: T -> U)
    ensures Elements(Map(s, f)) == set x | x in s :: f(x)
  {
    forall y
      ensures y in Elements(Map(s, f)) <==> y in set x | x in s :: f(x)
    {
      if y in Map(s, f) {
        var i :| 0 <= i < |s| && Map(s, f)[i] == y;
        assert s[i] in s;
      }
      if y in set x | x in s :: f(x) {
        var i :| 0 <= i < |s| && f(s[i]) == y;
        assert Map(s, f)[i] == y;
      }
    }
  }

  lemma WithoutOne<T>(s: seq<T>, i: nat)
    requires i < |s|
    ensures multiset(s) == multiset(Without(s, i)) + multiset{s[i]}
  {
    assert s == s[..i] + [s[i]] + s[i + 1..];
  }

  // Where the first element of a sequence is found in a permutation of it.
  lemma Partner<T>(s: seq<T>, t: seq<T>) returns (i: nat)
    requires Permutation(s, t) && s != []
    ensures i < |t| && t[i] == s[0] && Permutation(s[1..], Without(t, i))
  {
    PermutationElements(s, t);
    assert s[0] in t;
    i :| 0 <= i < |t| && t[i] == s[0];
    WithoutOne(t, i);
    WithoutOne(s, 0);
    assert Without(s, 0) == s[1..];
    assert multiset(s[1..]) == multiset(s) - multiset{s[0]};
  }

  // Rearranging what determines other values rearranges those values.
  lemma {:induction false} Transfer<A, B>(a: seq<A>, b: seq<B>, c: seq<A>, d: seq<B>)
    requires |a| == |b| && |c| == |d| && Permutation(a, c)
    requires forall i, j :: 0 <= i < |a| && 0 <= j < |c| && a[i] == c[j] ==> b[i] == d[j]
    ensures Permutation(b, d)
  {
    PermutationElements(a, c);
    if a != [] {
      var i := Partner(a, c);
      Transfer(a[1..], b[1..], Without(c, i), Without(d, i));
      WithoutOne(b, 0);
      WithoutOne(d, i);
      assert Without(b, 0) == b[1..];
    }
  }

  lemma MapPermutes<T, U>(s: seq<T>, t: seq<T>, f: T -> U)
    requires Permutation(s, t)
    ensures Permutation(Map(s, f), Map(t, f))
  {
    Transfer(s, Map(s, f), t, Map(t, f));
  }

  lemma DistinctPermutes<T, U>(s: seq<T>, t: seq<T>, f: T -> U)
    requires Permutation(s, t)
    ensures NoDuplicates(Map(s, f)) <==> NoDuplicates(Map(t, f))
  {
    MapPermutes(s, t, f);
    PermutationElements(Map(s, f), Map(t, f));
  }

  lemma SingletonPermutes<T>(s: seq<T>, t: seq<T>, x: T)
    requires Permutation(s, t)
    ensures s == [x] <==> t == [x]
  {
    PermutationElements(s, t);
    if s == [x] || t == [x] {
      assert s[0] in t && t[0] in s;
    }
  }

  function Sum(s: seq<real>): real {
    if s == [] then 0.0 else s[0] + Sum(s[1..])
  }

  lemma {:induction false} SumAppend(s: seq<real>, t: seq<real>)
    ensures Sum(s + t) == Sum(s) + Sum(t)
  {
    if s == [] {
      assert s + t == t;
    } else {
      SumAppend(s[1..], t);
      assert (s + t)[1..] == s[1..] + t;
    }
  }

  lemma SumWithout(s: seq<real>, i: nat)
    requires i < |s|
    ensures Sum(s) == s[i] + Sum(Without(s, i))
  {
    SumAppend(s[..i], s[i + 1..]);
    SumAppend(s[..i], s[i..]);
    assert s == s[..i] + s[i..];
    assert s[i..][1..] == s[i + 1..];
  }

  lemma {:induction false} SumPermutes(s: seq<real>, t: seq<real>)
    requires Permutation(s, t)
    ensures Sum(s) == Sum(t)
  {
    PermutationElements(s, t);
    if s != [] {
      var i := Partner(s, t);
      SumPermutes(s[1..], Without(t, i));
      SumWithout(t, i);
    }
  }

  // ------------------------------------------------------------------ sorting

  ghost predicate TotalOrder<T(!new)>(leq: (T, T) -> bool) {
    && (forall a: T, b: T :: leq(a, b) || leq(b, a))
    && (forall a: T, b: T, c: T :: leq(a, b) && leq(b, c) ==> leq(a, c))
  }

  ghost predicate SortedBy<T(!new)>(s: seq<T>, leq: (T, T) -> bool) {
    forall i, j :: 0 <= i < j < |s| ==> leq(s[i], s[j])
  }

  function Insert<T>(x: T, s: seq<T>, leq: (T, T) -> bool): seq<T> {
    if s == [] || leq(x, s[0]) then [x] + s else [s[0]] + Insert(x, s[1..], leq)
  }

  // The elements of s in order.
  function Sort<T>(s: seq<T>, leq: (T, T) -> bool): seq<T> {
    if s == [] then [] else Insert(s[0], Sort(s[1..], leq), leq)
  }

  lemma {:induction false} InsertSorts<T(!new)>(x: T, s: seq<T>, leq: (T, T) -> bool)
    requires TotalOrder(leq) && SortedBy(s, leq)
    ensures SortedBy(Insert(x, s, leq), leq)
    ensures multiset(Insert(x, s, leq)) == multiset{x} + multiset(s)
  {
    if s == [] {
    } else if leq(x, s[0]) {
    } else {
      var rest := Insert(x, s[1..], leq);
      InsertSorts(x, s[1..], leq);
      assert s == [s[0]] + s[1..];
      forall y | y in rest
        ensures leq(s[0], y)
      {
        assert y in multiset(rest);
        assert y == x || y in s[1..];
      }
    }
  }

  lemma {:induction false} SortSorts<T(!new)>(s: seq<T>, leq: (T, T) -> bool)
    requires TotalOrder(leq)
    ensures SortedBy(Sort(s, leq), leq)
    ensures Permutation(Sort(s, leq), s)
  {
    if s != [] {
      SortSorts(s[1..], leq);
      InsertSorts(s[0], Sort(s[1..], leq), leq);
      assert s == [s[0]] + s[1..];
    }
  }

  // Elements that the order cannot tell apart are equal.
  ghost predicate Distinguishes<T(!new)>(s: seq<T>, leq: (T, T) -> bool) {
    forall a, b :: a in s && b in s && leq(a, b) && leq(b, a) ==> a == b
  }

  lemma HeadLeast<T(!new)>(s: seq<T>, x: T, leq: (T, T) -> bool)
    requires SortedBy(s, leq) && x in s && leq(x, x)
    ensures leq(s[0], x)
  {
    var i :| 0 <= i < |s| && s[i] == x;
  }

  lemma TailMultiset<T>(s: seq<T>)
    requires s != []
    ensures multiset(s[1..]) == multiset(s) - multiset{s[0]}
  {
    assert s == [s[0]] + s[1..];
  }

  lemma TailSorted<T(!new)>(s: seq<T>, leq: (T, T) -> bool)
    requires s != [] && SortedBy(s, leq)
    ensures SortedBy(s[1..], leq)
  {
  }

  lemma {:induction false} SortedUnique<T(!new)>(s: seq<T>, t: seq<T>, leq: (T, T) -> bool)
    requires SortedBy(s, leq) && SortedBy(t, leq) && Permutation(s, t) && Distinguishes(s, leq)
    requires forall a: T :: leq(a, a)
    ensures s == t
  {
    hide SortedBy;
    PermutationElements(s, t);
    if s != [] {
      assert s[0] in t && t[0] in s;
      HeadLeast(s, t[0], leq);
      HeadLeast(t, s[0], leq);
      TailMultiset(s);
      TailMultiset(t);
      TailSorted(s, leq);
      TailSorted(t, leq);
      SortedUnique(s[1..], t[1..], leq);
      assert s == [s[0]] + s[1..] && t == [t[0]] + t[1..];
    }
  }

  // The result of sorting does not depend on the order of the input.
  lemma SortOrderFree<T(!new)>(s: seq<T>, t: seq<T>, leq: (T, T) -> bool)
    requires TotalOrder(leq) && Permutation(s, t) && Distinguishes(s, leq)
    ensures Sort(s, leq) == Sort(t, leq)
  {
    SortSorts(s, leq);
    SortSorts(t, leq);
    PermutationElements(Sort(s, leq), s);
    SortedUnique(Sort(s, leq), Sort(t, leq), leq);
  }
}
