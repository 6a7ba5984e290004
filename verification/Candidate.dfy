// Accounting for the coinbase outputs of a candidate block. Parsing of the block itself is not part of this model.
module Candidate {
  import opened Bytes
  import opened Collections

  datatype Output = Output(value: int, script: Octets)

  // A declared consensus commitment.
  datatype Commitment = Commitment(index: nat, script: Octets)

  // "OP_RETURN, 36 octets, aa21a9ed"
  const MAGIC: Octets := [0x6a, 0x24, 0xaa, 0x21, 0xa9, 0xed]

  // The one class of commitments the program knows.
  predicate IsBip141(script: Octets) {
    |script| >= 38 && script[..6] == MAGIC
  }

  function TotalValue(outs: seq<Output>): int {
    if outs == [] then 0 else TotalValue(outs[..|outs| - 1]) + outs[|outs| - 1].value
  }

  predicate CommitmentOk(outs: seq<Output>, allowed: bool, c: Commitment) {
    && c.index < |outs|
    && outs[c.index] == Output(0, c.script)
    && IsBip141(c.script) && allowed
  }

  predicate DistinctIndices(cs: seq<Commitment>) {
    forall i, j :: 0 <= i < j < |cs| ==> cs[i].index != cs[j].index
  }

  predicate AllCommitmentsOk(outs: seq<Output>, allowed: bool, cs: seq<Commitment>) {
    forall i :: 0 <= i < |cs| ==> CommitmentOk(outs, allowed, cs[i])
  }

  // Every output that looks like a commitment is declared.
  predicate AllDeclared(outs: seq<Output>, cs: seq<Commitment>) {
    forall i :: 0 <= i < |outs| && IsBip141(outs[i].script) ==> exists k :: 0 <= k < |cs| && cs[k].index == i
  }

  function DeclaredOutputs(outs: seq<Output>, cs: seq<Commitment>): (r: seq<Output>)
    requires forall i :: 0 <= i < |cs| ==> cs[i].index < |outs|
    ensures |r| == |cs| && forall i :: 0 <= i < |r| ==> r[i] == outs[cs[i].index]
  {
    seq(|cs|, i requires 0 <= i < |cs| => outs[cs[i].index])
  }

  function IndexOf(outs: seq<Output>, o: Output): (i: nat)
    ensures i <= |outs| && (i < |outs| ==> outs[i] == o)
    ensures i == |outs| ==> o !in outs
  {
    if outs == [] || outs[0] == o then 0 else 1 + IndexOf(outs[1..], o)
  }

  // Removing expected outputs one by one: succeeds with nothing left exactly when the two are rearrangements.
  method ConsumeAll(outs: seq<Output>, expected: seq<Output>) returns (ok: bool)
    ensures ok <==> multiset(outs) == multiset(expected)
  {
    var remaining := outs;
    assert expected[..0] == [];
    for i := 0 to |expected|
      invariant multiset(outs) == multiset(remaining) + multiset(expected[..i])
    {
      var at := IndexOf(remaining, expected[i]);
      assert expected == expected[..i] + [expected[i]] + expected[i + 1..];
      if at == |remaining| {
        MissingOutput(multiset(outs), remaining, expected, i);
        return false;
      }
      WithoutOne(remaining, at);
      assert expected[..i + 1] == expected[..i] + [expected[i]];
      remaining := remaining[..at] + remaining[at + 1..];
    }
    assert expected[..|expected|] == expected;
    ok := remaining == [];
    if !ok {
      assert remaining[0] in multiset(remaining);
      assert multiset(outs)[remaining[0]] > multiset(expected)[remaining[0]];
    }
  }

  lemma MissingOutput(all: multiset<Output>, remaining: seq<Output>, expected: seq<Output>, i: nat)
    requires i < |expected| && expected[i] !in remaining
    requires all == multiset(remaining) + multiset(expected[..i])
    ensures all != multiset(expected)
  {
    var o := expected[i];
    assert expected == expected[..i] + [o] + expected[i + 1..];
    assert multiset(remaining)[o] == 0;
    assert multiset(expected)[o] == multiset(expected[..i])[o] + 1 + multiset(expected[i + 1..])[o];
  }

  // Whether every declared commitment names its own zero-valued commitment output.
  method CheckDeclared(outs: seq<Output>, allowed: bool, cs: seq<Commitment>) returns (ok: bool)
    ensures ok <==> DistinctIndices(cs) && AllCommitmentsOk(outs, allowed, cs) && AllDeclared(outs, cs)
  {
    var declared: map<nat, Output> := map[];
    for i := 0 to |cs|
      invariant DistinctIndices(cs[..i]) && AllCommitmentsOk(outs, allowed, cs[..i])
      invariant forall n :: n in declared <==> exists k :: 0 <= k < i && cs[k].index == n
    {
      var c := cs[i];
      if c.index in declared || c.index >= |outs| {
        assert !DistinctIndices(cs) || !CommitmentOk(outs, allowed, cs[i]);
        return false;
      }
      var out := outs[c.index];
      if out.script != c.script || out.value != 0 || !IsBip141(out.script) || !allowed {
        assert !CommitmentOk(outs, allowed, cs[i]);
        return false;
      }
      declared := declared[c.index := out];
      assert CommitmentOk(outs, allowed, cs[i]);
      assert forall k :: 0 <= k < i ==> cs[k].index != c.index;
    }
    assert cs[..|cs|] == cs;
    for i := 0 to |outs|
      invariant forall k :: 0 <= k < i && IsBip141(outs[k].script) ==> k in declared
    {
      if IsBip141(outs[i].script) && i !in declared {
        return false;
      }
    }
    ok := true;
  }

  // The output checks: the gross reward is the sum of all outputs, commitments are declared one for one, and the
  // declared outputs together with the miner's and the recipients' are exactly the outputs there are.
  method CheckOutputs(outs: seq<Output>, gross: int, miner: Output, recipients: seq<Output>, allowed: bool,
      cs: seq<Commitment>)
      returns (ok: bool)
    ensures ok <==>
      && TotalValue(outs) == gross
      && DistinctIndices(cs) && AllCommitmentsOk(outs, allowed, cs) && AllDeclared(outs, cs)
      && multiset(outs) == multiset([miner] + recipients + DeclaredOutputs(outs, cs))
  {
    var sum := 0;
    for i := 0 to |outs|
      invariant sum == TotalValue(outs[..i])
    {
      assert outs[..i + 1][..i] == outs[..i];
      sum := sum + outs[i].value;
    }
    assert outs[..|outs|] == outs;
    if sum != gross {
      return false;
    }
    var declared := CheckDeclared(outs, allowed, cs);
    if !declared {
      return false;
    }
    ok := ConsumeAll(outs, [miner] + recipients + DeclaredOutputs(outs, cs));
  }

  // ------------------------------------------------------------------ conservation

  lemma {:induction false} TotalAppend(a: seq<Output>, b: seq<Output>)
    ensures TotalValue(a + b) == TotalValue(a) + TotalValue(b)
  {
    if b == [] {
      assert a + b == a;
    } else {
      assert (a + b)[..|a + b| - 1] == a + b[..|b| - 1];
      TotalAppend(a, b[..|b| - 1]);
    }
  }

  lemma {:induction false} TotalPermutes(a: seq<Output>, b: seq<Output>)
    requires Permutation(a, b)
    ensures TotalValue(a) == TotalValue(b)
  {
    PermutationElements(a, b);
    if a != [] {
      var i := Partner(a, b);
      TotalPermutes(a[1..], Without(b, i));
      TotalAppend([a[0]], a[1..]);
      assert a == [a[0]] + a[1..];
      TotalAppend(b[..i], b[i..]);
      TotalAppend([b[i]], b[i + 1..]);
      TotalAppend(b[..i], b[i + 1..]);
      assert b == b[..i] + b[i..] && b[i..] == [b[i]] + b[i + 1..];
    }
  }

  lemma {:induction false} ZeroTotal(a: seq<Output>)
    requires forall i :: 0 <= i < |a| ==> a[i].value == 0
    ensures TotalValue(a) == 0
  {
    if a != [] {
      ZeroTotal(a[..|a| - 1]);
    }
  }

  // Accepted outputs pay the gross reward to the miner and the recipients, and to nobody else.
  lemma GrossIsPaid(outs: seq<Output>, gross: int, miner: Output, recipients: seq<Output>, allowed: bool,
      cs: seq<Commitment>)
    requires TotalValue(outs) == gross && AllCommitmentsOk(outs, allowed, cs)
    requires multiset(outs) == multiset([miner] + recipients + DeclaredOutputs(outs, cs))
    ensures gross == miner.value + TotalValue(recipients)
  {
    var d := DeclaredOutputs(outs, cs);
    TotalPermutes(outs, [miner] + recipients + d);
    TotalAppend([miner] + recipients, d);
    TotalAppend([miner], recipients);
    assert TotalValue([miner]) == miner.value;
    forall i | 0 <= i < |d|
      ensures d[i].value == 0
    {
      assert CommitmentOk(outs, allowed, cs[i]);
    }
    ZeroTotal(d);
  }
}
