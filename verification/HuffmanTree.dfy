/** Huffman trees as values: a node is never changed once the merge loop has linked it. */
module HuffmanTree {
  import opened CTypes
  import opened Optimality

  type Token = seq<byte>

  datatype Tree =
    | Leaf(count: int, token: Token)
    | Node(count: int, left: Tree, right: Tree)

  /** Every inner node carries the sum of its children's counts. */
  predicate Consistent(t: Tree) {
    t.Node? ==> t.count == t.left.count + t.right.count && Consistent(t.left) && Consistent(t.right)
  }

  /** In every inner node the child that was taken out first, and so counts no more, is left. */
  predicate LighterLeft(t: Tree) {
    t.Node? ==> t.left.count <= t.right.count && LighterLeft(t.left) && LighterLeft(t.right)
  }

  /** The sum of the counts of the inner nodes. */
  function InnerSum(t: Tree): int {
    if t.Leaf? then 0 else t.count + InnerSum(t.left) + InnerSum(t.right)
  }

  function InnerNodes(t: Tree): nat {
    if t.Leaf? then 0 else 1 + InnerNodes(t.left) + InnerNodes(t.right)
  }

  function Height(t: Tree): nat {
    if t.Leaf? then 0
    else if Height(t.left) < Height(t.right) then 1 + Height(t.right)
    else 1 + Height(t.left)
  }

  /** The leaves from left to right. */
  function Leaves(t: Tree): (ls: seq<Tree>)
    ensures |ls| == InnerNodes(t) + 1
    ensures forall i :: 0 <= i < |ls| ==> ls[i].Leaf?
  {
    if t.Leaf? then [t] else Leaves(t.left) + Leaves(t.right)
  }

  /** A code has at most one bit for every merge. */
  lemma {:induction false} HeightBound(t: Tree)
    ensures Height(t) <= InnerNodes(t)
  {
    if t.Node? {
      HeightBound(t.left);
      HeightBound(t.right);
    }
  }

  // ---------- Forests: the trees a merge loop still has to join ----------

  function CountList(f: seq<Tree>): Counts {
    if f == [] then Nil else Insert(f[0].count, CountList(f[1..]))
  }

  function ForestInnerSum(f: seq<Tree>): int {
    if f == [] then 0 else InnerSum(f[0]) + ForestInnerSum(f[1..])
  }

  function ForestLeaves(f: seq<Tree>): multiset<Tree> {
    if f == [] then multiset{} else multiset(Leaves(f[0])) + ForestLeaves(f[1..])
  }

  predicate ForestConsistent(f: seq<Tree>) {
    f != [] ==> Consistent(f[0]) && ForestConsistent(f[1..])
  }

  /** The forest without the first occurrence of t. */
  function Without(f: seq<Tree>, t: Tree): (r: seq<Tree>)
    requires t in f
    ensures |r| == |f| - 1
  {
    if f[0] == t then f[1..] else [f[0]] + Without(f[1..], t)
  }

  lemma {:induction false} WithoutBag(f: seq<Tree>, t: Tree)
    requires t in f
    ensures multiset(Without(f, t)) == multiset(f) - multiset{t}
  {
    assert f == [f[0]] + f[1..];
    if f[0] != t {
      WithoutBag(f[1..], t);
    }
  }

  lemma {:induction false} WithoutCounts(f: seq<Tree>, t: Tree)
    requires t in f
    ensures CountList(f) == Insert(t.count, CountList(Without(f, t)))
    ensures ForestInnerSum(f) == InnerSum(t) + ForestInnerSum(Without(f, t))
    ensures ForestConsistent(f) ==> Consistent(t) && ForestConsistent(Without(f, t))
  {
    if f[0] != t {
      var r := Without(f[1..], t);
      WithoutCounts(f[1..], t);
      InsertCommutes(t.count, f[0].count, CountList(r));
      assert Without(f, t)[1..] == r;
    }
  }

  lemma Exchanged(a: multiset<Tree>, b: multiset<Tree>, c: multiset<Tree>)
    ensures a + (b + c) == b + (a + c)
  {
  }

  lemma {:induction false} WithoutLeaves(f: seq<Tree>, t: Tree)
    requires t in f
    ensures ForestLeaves(f) == multiset(Leaves(t)) + ForestLeaves(Without(f, t))
  {
    if f[0] != t {
      var r := Without(f[1..], t);
      WithoutLeaves(f[1..], t);
      AddToForest(f[0], r);
      assert Without(f, t) == [f[0]] + r;
      Exchanged(multiset(Leaves(f[0])), multiset(Leaves(t)), ForestLeaves(r));
    }
  }

  lemma AddToForest(t: Tree, f: seq<Tree>)
    ensures CountList([t] + f) == Insert(t.count, CountList(f))
    ensures ForestInnerSum([t] + f) == InnerSum(t) + ForestInnerSum(f)
    ensures ForestLeaves([t] + f) == multiset(Leaves(t)) + ForestLeaves(f)
    ensures ForestConsistent([t] + f) <==> Consistent(t) && ForestConsistent(f)
  {
    assert ([t] + f)[1..] == f;
  }

  /** When t is a least tree of the forest, its count heads the ascending list. */
  lemma {:induction false} LeastHeads(f: seq<Tree>, a: int)
    requires forall t :: t in f ==> a <= t.count
    ensures Insert(a, CountList(f)) == Cons(a, CountList(f))
  {
    if f != [] {
      assert f[0] in f;
      forall t | t in f[1..] ensures a <= t.count {
        assert t in f;
      }
      LeastHeads(f[1..], a);
    }
  }

  lemma {:induction false} ForestOfLeaves(f: seq<Tree>)
    requires forall i :: 0 <= i < |f| ==> f[i].Leaf?
    ensures ForestLeaves(f) == multiset(f) && ForestInnerSum(f) == 0 && ForestConsistent(f)
    ensures AllLighterLeft(f)
  {
    if f != [] {
      ForestOfLeaves(f[1..]);
      assert f == [f[0]] + f[1..];
    }
  }

  /** What the merge loop promises: a tree over exactly the given leaves, with consistent
      counts, lighter children on the left, whose inner nodes cost what merging least counts
      costs. */
  ghost predicate HuffmanTreeOf(t: Tree, nodes: seq<Tree>) {
    && multiset(Leaves(t)) == multiset(nodes)
    && Consistent(t) && LighterLeft(t)
    && InnerSum(t) == GreedyCost(CountList(nodes))
  }

  ghost predicate Least(f: seq<Tree>, t: Tree) {
    t in f && forall x :: x in f ==> t.count <= x.count
  }

  function Join(a: Tree, b: Tree): Tree {
    Node(a.count + b.count, a, b)
  }

  lemma TwoLeastHead(f: seq<Tree>, a: Tree, b: Tree)
    requires Least(f, a) && Least(Without(f, a), b)
    ensures CountList(f) == Cons(a.count, Cons(b.count, CountList(Without(Without(f, a), b))))
  {
    var g := Without(f, a);
    WithoutCounts(f, a);
    WithoutCounts(g, b);
    WithoutStillLeast(f, a, a.count);
    LeastHeads(g, a.count);
    WithoutStillLeast(g, b, b.count);
    LeastHeads(Without(g, b), b.count);
  }

  ghost predicate AllLighterLeft(f: seq<Tree>) {
    forall t :: t in f ==> LighterLeft(t)
  }

  /** The forest f comes from merging least trees of the forest of leaves `nodes`: no leaf
      is lost, and the inner nodes so far have cost what the greedy merging has saved. */
  ghost predicate PartlyMerged(f: seq<Tree>, nodes: seq<Tree>) {
    && ForestConsistent(f) && AllLighterLeft(f)
    && ForestLeaves(f) == multiset(nodes)
    && ForestInnerSum(f) + GreedyCost(CountList(f)) == GreedyCost(CountList(nodes))
  }

  /** The forest after merging a and b. */
  function Merged(f: seq<Tree>, a: Tree, b: Tree): seq<Tree>
    requires a in f && b in Without(f, a)
  {
    [Join(a, b)] + Without(Without(f, a), b)
  }

  lemma MergedCounts(f: seq<Tree>, a: Tree, b: Tree)
    requires Least(f, a) && Least(Without(f, a), b)
    ensures GreedyMerge(CountList(f), a.count, b.count, CountList(Merged(f, a, b)))
  {
    var rest := Without(Without(f, a), b);
    TwoLeastHead(f, a, b);
    assert CountList(Merged(f, a, b)) == Insert(a.count + b.count, CountList(rest)) by {
      AddToForest(Join(a, b), rest);
    }
  }

  lemma MergedInnerSum(f: seq<Tree>, a: Tree, b: Tree)
    requires ForestConsistent(f) && a in f && b in Without(f, a)
    ensures ForestConsistent(Merged(f, a, b))
    ensures ForestInnerSum(Merged(f, a, b)) == ForestInnerSum(f) + a.count + b.count
  {
    AddToForest(Join(a, b), Without(Without(f, a), b));
    WithoutCounts(f, a);
    WithoutCounts(Without(f, a), b);
  }

  lemma MergedLeaves(f: seq<Tree>, a: Tree, b: Tree)
    requires a in f && b in Without(f, a)
    ensures ForestLeaves(Merged(f, a, b)) == ForestLeaves(f)
  {
    var h := Without(Without(f, a), b);
    WithoutLeaves(f, a);
    WithoutLeaves(Without(f, a), b);
    AddToForest(Join(a, b), h);
    assert Leaves(Join(a, b)) == Leaves(a) + Leaves(b);
  }

  lemma {:induction false} WithoutIsPart(f: seq<Tree>, t: Tree)
    requires t in f
    ensures forall x :: x in Without(f, t) ==> x in f
  {
    if f[0] != t {
      WithoutIsPart(f[1..], t);
    }
  }

  /** The tree taken out first becomes the left child, and none counts less. */
  lemma MergedLighterLeft(f: seq<Tree>, a: Tree, b: Tree)
    requires AllLighterLeft(f) && Least(f, a) && b in Without(f, a)
    ensures AllLighterLeft(Merged(f, a, b))
  {
    WithoutIsPart(f, a);
    WithoutIsPart(Without(f, a), b);
    assert LighterLeft(Join(a, b));
  }

  lemma MergeTwoLeast(f: seq<Tree>, a: Tree, b: Tree, nodes: seq<Tree>)
    requires PartlyMerged(f, nodes) && Least(f, a) && Least(Without(f, a), b)
    ensures PartlyMerged(Merged(f, a, b), nodes)
  {
    MergedCounts(f, a, b);
    GreedyCostStep(CountList(f), a.count, b.count, CountList(Merged(f, a, b)));
    MergedInnerSum(f, a, b);
    MergedLeaves(f, a, b);
    MergedLighterLeft(f, a, b);
  }

  lemma MergedBag(f: seq<Tree>, a: Tree, b: Tree)
    requires a in f && b in Without(f, a)
    ensures multiset(Merged(f, a, b)) == multiset(f) - multiset{a} - multiset{b} + multiset{Join(a, b)}
  {
    WithoutBag(f, a);
    WithoutBag(Without(f, a), b);
  }

  lemma LastTree(f: seq<Tree>, nodes: seq<Tree>, t: Tree)
    requires PartlyMerged(f, nodes) && |f| == 1 && t in f
    ensures HuffmanTreeOf(t, nodes)
  {
    assert f[0] == t;
    ForestOfOne(f);
  }

  lemma ForestOfOne(f: seq<Tree>)
    requires |f| == 1
    ensures GreedyCost(CountList(f)) == 0 && ForestInnerSum(f) == InnerSum(f[0])
    ensures ForestLeaves(f) == multiset(Leaves(f[0]))
    ensures ForestConsistent(f) ==> Consistent(f[0])
  {
    assert f[1..] == [];
    assert CountList(f) == Cons(f[0].count, Nil);
  }

  lemma {:induction false} WithoutStillLeast(f: seq<Tree>, t: Tree, c: int)
    requires t in f && forall x :: x in f ==> c <= x.count
    ensures forall x :: x in Without(f, t) ==> c <= x.count
  {
    if f[0] != t {
      forall x | x in f[1..] ensures c <= x.count {
        assert x in f;
      }
      WithoutStillLeast(f[1..], t, c);
      assert f[0] in f;
    } else {
      forall x | x in f[1..] ensures c <= x.count {
        assert x in f;
      }
    }
  }
}
