// The lexicographic order of octet strings.
module ByteOrder {
  import opened Bytes
  import opened Collections

  predicate BytesLess(a: Octets, b: Octets) {
    if b == [] then false
    else if a == [] then true
    else if a[0] != b[0] then a[0] < b[0]
    else BytesLess(a[1..], b[1..])
  }

  lemma {:induction false} BytesTotal(a: Octets, b: Octets)
    ensures BytesLess(a, b) || BytesLess(b, a) || a == b
    ensures !(BytesLess(a, b) && BytesLess(b, a)) && !BytesLess(a, a)
  {
    if a != [] && b != [] && a[0] == b[0] {
      BytesTotal(a[1..], b[1..]);
      assert a == [a[0]] + a[1..] && b == [b[0]] + b[1..];
    }
    if a != [] {
      BytesTotal(a[1..], a[1..]);
    }
  }

  lemma {:induction false} BytesTransitive(a: Octets, b: Octets, c: Octets)
    requires BytesLess(a, b) && BytesLess(b, c)
    ensures BytesLess(a, c)
  {
    if a != [] && a[0] == b[0] == c[0] {
      BytesTransitive(a[1..], b[1..], c[1..]);
    }
  }

  predicate NotAbove(a: Octets, b: Octets) {
    BytesLess(a, b) || a == b
  }

  lemma NotAboveTotal()
    ensures TotalOrder(NotAbove)
    ensures forall s: seq<Octets> :: Distinguishes(s, NotAbove)
  {
    forall a: Octets, b: Octets
      ensures (NotAbove(a, b) || NotAbove(b, a)) && (NotAbove(a, b) && NotAbove(b, a) ==> a == b)
    {
      BytesTotal(a, b);
    }
    forall a: Octets, b: Octets, c: Octets | NotAbove(a, b) && NotAbove(b, c)
      ensures NotAbove(a, c)
    {
      if a != b && b != c {
        BytesTransitive(a, b, c);
      }
    }
  }

  // ------------------------------------------------------------------ what the order is

  // They agree up to position k, where a ends or has the smaller octet.
  predicate DiffersAt(a: Octets, b: Octets, k: nat) {
    && k <= |a| && k < |b| && a[..k] == b[..k]
    && (k < |a| ==> a[k] < b[k])
  }

  // a comes before b exactly when, at the first place where they differ, a ends or has the smaller octet.
  lemma {:induction false} FirstDifference(a: Octets, b: Octets)
    ensures BytesLess(a, b) <==> exists k: nat :: DiffersAt(a, b, k)
  {
    if b == [] {
    } else if a == [] {
      assert DiffersAt(a, b, 0);
    } else if a[0] != b[0] {
      if a[0] < b[0] {
        assert DiffersAt(a, b, 0);
      }
      if k: nat :| DiffersAt(a, b, k) && k > 0 {
        SameHead(a, b, k);
      }
    } else {
      FirstDifference(a[1..], b[1..]);
      if k: nat :| DiffersAt(a[1..], b[1..], k) {
        assert a[..k + 1] == [a[0]] + a[1..][..k] && b[..k + 1] == [b[0]] + b[1..][..k];
        assert DiffersAt(a, b, k + 1);
      }
      if k: nat :| DiffersAt(a, b, k) {
        assert k > 0;
        assert a[1..][..k - 1] == a[..k][1..] && b[1..][..k - 1] == b[..k][1..];
        assert DiffersAt(a[1..], b[1..], k - 1);
      }
    }
  }

  lemma SameHead(a: Octets, b: Octets, k: nat)
    requires DiffersAt(a, b, k) && k > 0
    ensures a[0] == b[0]
  {
    assert a[..k][0] == a[0] && b[..k][0] == b[0];
  }

  // Comparing strings that begin with parts of one length.
  lemma {:induction false} CompareParts(a: Octets, b: Octets, c: Octets, d: Octets)
    requires |a| == |c|
    ensures BytesLess(a + b, c + d) <==> BytesLess(a, c) || (a == c && BytesLess(b, d))
  {
    if a == [] {
      assert a + b == b && c + d == d;
    } else {
      assert (a + b)[1..] == a[1..] + b && (c + d)[1..] == c[1..] + d;
      CompareParts(a[1..], b, c[1..], d);
      assert a == [a[0]] + a[1..] && c == [c[0]] + c[1..];
    }
  }

  // Big-endian integers of one width are ordered as integers.
  lemma {:induction false} CompareIntegers(width: nat, n: nat, m: nat)
    requires Fits(width, n) && Fits(width, m)
    ensures BytesLess(BigEndian(width, n), BigEndian(width, m)) <==> n < m
  {
    if width > 0 {
      BigEndianSnoc(width, n);
      BigEndianSnoc(width, m);
      CompareIntegers(width - 1, n / 256, m / 256);
      CompareParts(BigEndian(width - 1, n / 256), [n % 256], BigEndian(width - 1, m / 256), [m % 256]);
      if BigEndian(width - 1, n / 256) == BigEndian(width - 1, m / 256) {
        BigEndianInjective(width - 1, n / 256, m / 256);
      }
    }
  }
}
