/** Which half of the tokens gets the 0 and which the 1: at every branching of the codes, the
    tokens below the 0 make up no more of the text than those below the 1. */
module CodeWeights {
  import opened CTypes
  import opened HuffmanTree
  import opened Export
  import opened Codec
  import opened Shortest

  /** How many tokens of the text have a code that starts with p. */
  function Starting(ts: seq<Token>, codes: map<Token, Code>, p: Code): nat {
    if ts == [] then 0
    else Starting(ts[1..], codes, p) + if ts[0] in codes && p <= codes[ts[0]] then 1 else 0
  }

  /** Behind p some code goes on. */
  ghost predicate Branches(codes: map<Token, Code>, p: Code) {
    exists x :: x in codes && p < codes[x]
  }

  ghost predicate ZeroIsLighter(ts: seq<Token>, codes: map<Token, Code>) {
    forall p: Code :: Branches(codes, p) ==> LighterZero(ts, codes, p)
  }

  ghost predicate LighterZero(ts: seq<Token>, codes: map<Token, Code>, p: Code) {
    Starting(ts, codes, p + [ZERO]) <= Starting(ts, codes, p + [ONE])
  }

  // ---------- Counting over leaves instead of tokens ----------

  lemma {:induction false} DropStarting(ts: seq<Token>, x: Token, codes: map<Token, Code>, p: Code)
    ensures Starting(ts, codes, p)
      == Starting(Drop(ts, x), codes, p) + if x in codes && p <= codes[x] then multiset(ts)[x] else 0
  {
    if ts != [] {
      DropStarting(ts[1..], x, codes, p);
      CountFirst(ts, x);
      if ts[0] != x {
        assert Drop(ts, x)[1..] == Drop(ts[1..], x);
      }
    }
  }

  /** The counts of the leaves whose entries have a code that starts with p. */
  function Weight(ls: seq<Tree>, es: seq<Entry>, p: Code): int
    requires |ls| == |es|
  {
    if ls == [] then 0
    else Weight(ls[1..], es[1..], p) + if p <= es[0].code then ls[0].count else 0
  }

  lemma {:induction false} StartingIsWeight(ls: seq<Tree>, ts: seq<Token>, es: seq<Entry>, codes: map<Token, Code>, p: Code)
    requires Tally(ls, ts) && |ls| == |es|
    requires forall i :: 0 <= i < |ls| ==> ls[i].token in codes && codes[ls[i].token] == es[i].code
    ensures Starting(ts, codes, p) == Weight(ls, es, p)
  {
    if ls == [] {
      if ts != [] {
        TallyNotEmpty(ls, ts);
        assert false;
      }
    } else {
      var x := ls[0].token;
      TallyRest(ls, ts);
      StartingIsWeight(ls[1..], Drop(ts, x), es[1..], codes, p);
      DropStarting(ts, x, codes, p);
    }
  }

  lemma {:induction false} WeightAppend(ls: seq<Tree>, es: seq<Entry>, ls': seq<Tree>, es': seq<Entry>, p: Code)
    requires |ls| == |es| && |ls'| == |es'|
    ensures Weight(ls + ls', es + es', p) == Weight(ls, es, p) + Weight(ls', es', p)
  {
    if ls == [] {
      assert ls + ls' == ls' && es + es' == es';
    } else {
      WeightAppend(ls[1..], es[1..], ls', es', p);
      assert (ls + ls')[1..] == ls[1..] + ls' && (es + es')[1..] == es[1..] + es';
    }
  }

  lemma {:induction false} NoWeight(ls: seq<Tree>, es: seq<Entry>, p: Code)
    requires |ls| == |es| && forall i :: 0 <= i < |es| ==> !(p <= es[i].code)
    ensures Weight(ls, es, p) == 0
  {
    if ls != [] {
      NoWeight(ls[1..], es[1..], p);
    }
  }

  // ---------- Subtrees ----------

  /** The subtree that a path leads to. */
  function Below(t: Tree, path: Code): Option<Tree> {
    if path == [] then Some(t)
    else if t.Leaf? then None
    else Below(if path[0] == ZERO then t.left else t.right, path[1..])
  }

  lemma PrefixThenLonger(a: Code, b: Code, c: Code)
    requires a <= c && |a| <= |b| && !(a <= b)
    ensures !(b <= c)
  {
  }

  lemma OnlyBelow(t: Tree, prefix: Code, p: Code)
    requires |p| >= |prefix| && !(prefix <= p)
    ensures Weight(Leaves(t), Exported(t, prefix), p) == 0
  {
    var es := Exported(t, prefix);
    forall i | 0 <= i < |es| ensures !(p <= es[i].code) {
      ExportedAt(t, prefix, i);
      PrefixThenLonger(prefix, p, es[i].code);
    }
    NoWeight(Leaves(t), es, p);
  }

  lemma SplitWeight(t: Tree, prefix: Code, p: Code)
    requires t.Node?
    ensures Weight(Leaves(t), Exported(t, prefix), p)
      == Weight(Leaves(t.left), Exported(t.left, prefix + [ZERO]), p)
       + Weight(Leaves(t.right), Exported(t.right, prefix + [ONE]), p)
  {
    WeightAppend(Leaves(t.left), Exported(t.left, prefix + [ZERO]),
                 Leaves(t.right), Exported(t.right, prefix + [ONE]), p);
  }

  /** All leaves together weigh what the root counts. */
  lemma {:induction false} WholeWeight(t: Tree, prefix: Code, p: Code)
    requires Consistent(t) && p <= prefix
    ensures Weight(Leaves(t), Exported(t, prefix), p) == t.count
  {
    if t.Leaf? {
      assert Leaves(t)[1..] == [] && Exported(t, prefix)[1..] == [];
    } else {
      WholeWeight(t.left, prefix + [ZERO], p);
      WholeWeight(t.right, prefix + [ONE], p);
      SplitWeight(t, prefix, p);
    }
  }

  /** The codes that start with a path weigh what the subtree there counts. */
  lemma {:induction false} WeightBelow(t: Tree, prefix: Code, path: Code)
    requires Consistent(t) && Below(t, path).Some?
    ensures Weight(Leaves(t), Exported(t, prefix), prefix + path) == Below(t, path).value.count
    decreases |path|
  {
    var p := prefix + path;
    if path == [] {
      assert p == prefix;
      WholeWeight(t, prefix, p);
    } else {
      var b, other: Bit := path[0], if path[0] == ZERO then ONE else ZERO;
      var down, aside := if b == ZERO then t.left else t.right, if b == ZERO then t.right else t.left;
      assert p == prefix + [b] + path[1..];
      WeightBelow(down, prefix + [b], path[1..]);
      assert p[|prefix|] == b && (prefix + [other])[|prefix|] == other;
      OnlyBelow(aside, prefix + [other], p);
      SplitWeight(t, prefix, p);
    }
  }

  lemma {:induction false} LighterBelow(t: Tree, path: Code)
    requires LighterLeft(t) && Below(t, path).Some? && Below(t, path).value.Node?
    ensures Below(t, path + [ZERO]).Some? && Below(t, path + [ONE]).Some?
    ensures Below(t, path + [ZERO]).value.count <= Below(t, path + [ONE]).value.count
  {
    if path == [] {
      assert [] + [ZERO] == [ZERO] && [] + [ONE] == [ONE];
    } else {
      LighterBelow(if path[0] == ZERO then t.left else t.right, path[1..]);
      assert (path + [ZERO])[1..] == path[1..] + [ZERO] && (path + [ONE])[1..] == path[1..] + [ONE];
    }
  }

  /** Where an exported code goes on, there is an inner node. */
  lemma {:induction false} BranchIsNode(t: Tree, prefix: Code, path: Code, i: nat)
    requires i < |Leaves(t)| && prefix + path < Exported(t, prefix)[i].code
    ensures Below(t, path).Some? && Below(t, path).value.Node?
    decreases |path|
  {
    if path != [] && t.Node? {
      var n, c := |Leaves(t.left)|, Exported(t, prefix)[i].code;
      var b: Bit := if i < n then ZERO else ONE;
      assert c[|prefix|] == (prefix + path)[|prefix|] == path[0];
      if i < n {
        ExportedAt(t.left, prefix + [ZERO], i);
        PrefixOfLonger(prefix, ZERO, c);
      } else {
        ExportedAt(t.right, prefix + [ONE], i - n);
        PrefixOfLonger(prefix, ONE, c);
      }
      assert prefix + path == prefix + [b] + path[1..];
      BranchIsNode(if b == ZERO then t.left else t.right, prefix + [b], path[1..], if i < n then i else i - n);
    }
  }

  /** As many tokens have a code that starts with a path as the subtree there counts. */
  lemma StartingBelow(t: Tree, ts: seq<Token>, codes: map<Token, Code>, path: Code)
    requires Consistent(t) && Tally(Leaves(t), ts) && TreeBook(t, codes) && Below(t, path).Some?
    ensures Starting(ts, codes, path) == Below(t, path).value.count
  {
    assert [] + path == path;
    WeightBelow(t, [], path);
    StartingIsWeight(Leaves(t), ts, Exported(t, []), codes, path);
  }

  lemma BranchBelow(t: Tree, codes: map<Token, Code>, p: Code)
    requires BookFor(codes, t) && Branches(codes, p)
    ensures Below(t, p).Some? && Below(t, p).value.Node?
  {
    var x :| x in codes && p < codes[x];
    var i :| 0 <= i < |Leaves(t)| && Exported(t, [])[i] == Entry(codes[x], x);
    assert [] + p == p;
    BranchIsNode(t, [], p, i);
  }

  lemma LighterAt(t: Tree, ts: seq<Token>, codes: map<Token, Code>, p: Code)
    requires Consistent(t) && LighterLeft(t) && Tally(Leaves(t), ts) && TreeBook(t, codes)
    requires Below(t, p).Some? && Below(t, p).value.Node?
    ensures LighterZero(ts, codes, p)
  {
    LighterBelow(t, p);
    StartingBelow(t, ts, codes, p + [ZERO]);
    StartingBelow(t, ts, codes, p + [ONE]);
  }

  /** What makes the codes those of a tree over the tokens with the lighter children left. */
  ghost predicate FromTree(t: Tree, ts: seq<Token>, codes: map<Token, Code>) {
    Consistent(t) && LighterLeft(t) && Tally(Leaves(t), ts) && TreeBook(t, codes) && BookFor(codes, t)
  }

  lemma LighterBranch(t: Tree, ts: seq<Token>, codes: map<Token, Code>, p: Code)
    requires FromTree(t, ts, codes) && Branches(codes, p)
    ensures LighterZero(ts, codes, p)
  {
    BranchBelow(t, codes, p);
    LighterAt(t, ts, codes, p);
  }

  lemma BookZeroIsLighter(t: Tree, ts: seq<Token>, codes: map<Token, Code>)
    requires FromTree(t, ts, codes)
    ensures ZeroIsLighter(ts, codes)
  {
    forall p: Code | Branches(codes, p) ensures LighterZero(ts, codes, p) {
      LighterBranch(t, ts, codes, p);
    }
  }
}
