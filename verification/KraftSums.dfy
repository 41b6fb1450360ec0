/** Kraft sums of codes, scaled by a power of two so that they stay integral, and Kraft's
    inequality for prefix-free codes. */
module KraftSums {
  import opened CTypes

  function Pow2(n: nat): (p: nat)
    ensures p >= 1
  {
    if n == 0 then 1 else 2 * Pow2(n - 1)
  }

  ghost predicate NoLonger(cs: seq<Code>, m: nat) {
    forall i :: 0 <= i < |cs| ==> |cs[i]| <= m
  }

  /** The sum of 2^-|c| over the codes c, times 2^m. */
  function KraftSum(cs: seq<Code>, m: nat): nat
    requires NoLonger(cs, m)
  {
    if cs == [] then 0 else Pow2(m - |cs[0]|) + KraftSum(cs[1..], m)
  }

  /** No code of the list is a prefix of (or equal to) another one. */
  ghost predicate PrefixFree(cs: seq<Code>) {
    forall i, j :: 0 <= i < j < |cs| ==> Unrelated(cs[i], cs[j])
  }

  /** The codes that start with bit b, without that bit, in their order. */
  ghost function Branch(cs: seq<Code>, b: Bit): (r: seq<Code>)
  {
    if cs == [] then []
    else if cs[0] != [] && cs[0][0] == b then [cs[0][1..]] + Branch(cs[1..], b)
    else Branch(cs[1..], b)
  }

  lemma {:induction false} BranchOrigin(cs: seq<Code>, b: Bit, j: nat) returns (k: nat)
    requires j < |Branch(cs, b)|
    ensures k < |cs| && cs[k] == [b] + Branch(cs, b)[j]
  {
    if cs[0] != [] && cs[0][0] == b {
      if j == 0 {
        k := 0;
      } else {
        k := BranchOrigin(cs[1..], b, j - 1);
        k := k + 1;
      }
    } else {
      k := BranchOrigin(cs[1..], b, j);
      k := k + 1;
    }
  }

  lemma PrefixOfTail(b: Bit, c: Code, d: Code)
    ensures c <= d <==> [b] + c <= [b] + d
  {
    assert ([b] + c)[1..] == c && ([b] + d)[1..] == d;
    if c <= d {
      assert d == c + d[|c|..];
      assert [b] + d == ([b] + c) + d[|c|..];
    }
  }

  lemma {:induction false} BranchPrefixFree(cs: seq<Code>, b: Bit)
    requires PrefixFree(cs)
    ensures PrefixFree(Branch(cs, b))
  {
    if cs != [] {
      BranchPrefixFree(cs[1..], b);
      var rest := Branch(cs[1..], b);
      if cs[0] != [] && cs[0][0] == b {
        var c := cs[0][1..];
        forall j | 0 <= j < |rest|
          ensures Unrelated(c, rest[j])
        {
          var k := BranchOrigin(cs[1..], b, j);
          assert Unrelated(cs[0], cs[k + 1]);
          assert cs[0] == [b] + c && cs[k + 1] == [b] + rest[j];
          PrefixOfTail(b, c, rest[j]);
          PrefixOfTail(b, rest[j], c);
        }
      }
    }
  }

  lemma {:induction false} BranchSplitsSum(cs: seq<Code>, m: nat)
    requires m >= 1 && NoLonger(cs, m)
    requires forall i :: 0 <= i < |cs| ==> cs[i] != []
    ensures forall b: Bit :: NoLonger(Branch(cs, b), m - 1)
    ensures KraftSum(cs, m)
         == KraftSum(Branch(cs, ZERO), m - 1) + KraftSum(Branch(cs, ONE), m - 1)
  {
    forall b: Bit ensures NoLonger(Branch(cs, b), m - 1) {
      BranchBounded(cs, b, m);
    }
    if cs != [] {
      BranchSplitsSum(cs[1..], m);
      var b: Bit := cs[0][0];
      var rest := Branch(cs[1..], b);
      assert Branch(cs, b) == [cs[0][1..]] + rest;
      assert Branch(cs, b)[1..] == rest;
    }
  }

  lemma BranchBounded(cs: seq<Code>, b: Bit, m: nat)
    requires m >= 1 && NoLonger(cs, m)
    ensures NoLonger(Branch(cs, b), m - 1)
  {
    var r := Branch(cs, b);
    forall j | 0 <= j < |r|
      ensures |r[j]| <= m - 1
    {
      var k := BranchOrigin(cs, b, j);
    }
  }

  lemma NoEmptyCode(cs: seq<Code>, i: nat)
    requires PrefixFree(cs) && |cs| >= 2 && i < |cs|
    ensures cs[i] != []
  {
    if i == 0 {
      assert Unrelated(cs[0], cs[1]);
    } else {
      assert Unrelated(cs[0], cs[i]);
    }
  }

  /** Kraft's inequality: the lengths of a prefix-free code have Kraft sum at most one. */
  lemma {:induction false} KraftInequality(cs: seq<Code>, m: nat)
    requires PrefixFree(cs) && NoLonger(cs, m)
    ensures KraftSum(cs, m) <= Pow2(m)
    decreases m
  {
    if i :| 0 <= i < |cs| && cs[i] == [] {
      if |cs| >= 2 {
        NoEmptyCode(cs, i);
        assert false;
      }
      assert cs[1..] == [];
    } else if cs != [] {
      assert |cs[0]| <= m;
      BranchSplitsSum(cs, m);
      BranchPrefixFree(cs, ZERO);
      BranchPrefixFree(cs, ONE);
      KraftInequality(Branch(cs, ZERO), m - 1);
      KraftInequality(Branch(cs, ONE), m - 1);
    }
  }
}
