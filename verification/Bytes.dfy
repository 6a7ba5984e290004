// Octet strings, big-endian integers, and splitting of concatenations.
module Bytes {
  import opened Arithmetic

  type byte = b: int | 0 <= b < 256

  type Octets = seq<byte>

  predicate NonZero(s: Octets) {
    exists i :: 0 <= i < |s| && s[i] != 0
  }

  // Octet k of n, counted from the least significant.
  function Octet(n: nat, k: nat): byte {
    if k == 0 then n % 256 else Octet(n / 256, k - 1)
  }

  // The low `width` octets of n, most significant first.
  function BigEndian(width: nat, n: nat): (r: Octets)
    ensures |r| == width
  {
    seq(width, i requires 0 <= i < width => Octet(n, width - 1 - i))
  }

  lemma BigEndianSnoc(width: nat, n: nat)
    requires width > 0
    ensures BigEndian(width, n) == BigEndian(width - 1, n / 256) + [n % 256]
  {
    var r := BigEndian(width - 1, n / 256) + [n % 256];
    forall i | 0 <= i < width
      ensures BigEndian(width, n)[i] == r[i]
    {
      assert BigEndian(width, n)[i] == Octet(n, width - 1 - i);
      if i < width - 1 {
        assert r[i] == BigEndian(width - 1, n / 256)[i] == Octet(n / 256, width - 2 - i);
      } else {
        assert r[i] == n % 256;
      }
    }
  }

  function FromBigEndian(s: Octets): nat {
    if s == [] then 0 else 256 * FromBigEndian(s[..|s| - 1]) + s[|s| - 1]
  }

  // n can be written in `width` octets.
  predicate Fits(width: nat, n: nat)
  {
    if width == 0 then n == 0 else Fits(width - 1, n / 256)
  }

  lemma {:induction false} BigEndianInverse(width: nat, n: nat)
    requires Fits(width, n)
    ensures FromBigEndian(BigEndian(width, n)) == n
  {
    if width > 0 {
      BigEndianInverse(width - 1, n / 256);
      BigEndianSnoc(width, n);
      var r := BigEndian(width, n);
      assert r[..|r| - 1] == BigEndian(width - 1, n / 256);
    }
  }

  lemma {:induction false} FromBigEndianInverse(s: Octets)
    ensures Fits(|s|, FromBigEndian(s))
    ensures BigEndian(|s|, FromBigEndian(s)) == s
  {
    if s != [] {
      FromBigEndianInverse(s[..|s| - 1]);
      BigEndianSnoc(|s|, FromBigEndian(s));
      assert s == s[..|s| - 1] + [s[|s| - 1]];
    }
  }

  lemma BigEndianInjective(width: nat, n: nat, m: nat)
    requires Fits(width, n) && Fits(width, m) && BigEndian(width, n) == BigEndian(width, m)
    ensures n == m
  {
    BigEndianInverse(width, n);
    BigEndianInverse(width, m);
  }

  lemma {:induction false} FitsSmaller(width: nat, n: nat, m: nat)
    requires Fits(width, n) && m <= n
    ensures Fits(width, m)
  {
    if width > 0 {
      FitsSmaller(width - 1, n / 256, m / 256);
    }
  }

  lemma {:induction false} FitsWider(width: nat, wider: nat, n: nat)
    requires Fits(width, n) && width <= wider
    ensures Fits(wider, n)
  {
    if width == 0 {
      if wider > 0 {
        FitsWider(0, wider - 1, 0);
      }
    } else {
      FitsWider(width - 1, wider - 1, n / 256);
    }
  }

  // Exactly the numbers below 256^width fit.
  lemma {:induction false} FitsPower(width: nat, n: nat)
    ensures Fits(width, n) <==> n < Pow(256, width)
  {
    if width > 0 {
      FitsPower(width - 1, n / 256);
    }
  }

  lemma SplitAt<T>(a: seq<T>, b: seq<T>, c: seq<T>, d: seq<T>)
    requires a + b == c + d && |a| == |c|
    ensures a == c && b == d
  {
    assert a == (a + b)[..|a|] && c == (c + d)[..|c|];
    assert b == (a + b)[|a|..] && d == (c + d)[|c|..];
  }
}
