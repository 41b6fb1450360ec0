/** The array min-heap of Asst2/ds.c. */
module MinHeaps {
  import opened CTypes
  import opened HuffmanTree

  // ---------- Shape: which slots lie below which ----------

  function Parent(j: nat): nat
    requires j > 0
  {
    (j - 1) / 2
  }

  /** Slot j is r or lies below r. */
  predicate Below(r: nat, j: nat) {
    j == r || (j > r && Below(r, Parent(j)))
  }

  lemma {:induction false} BelowSplits(r: nat, j: nat)
    ensures Below(r, j) <==> j == r || Below(2 * r + 1, j) || Below(2 * r + 2, j)
    ensures Below(r, j) ==> r <= j
  {
    if j > r {
      BelowSplits(r, Parent(j));
    }
  }

  lemma {:induction false} SiblingsDisjoint(r: nat, j: nat)
    requires Below(2 * r + 1, j)
    ensures !Below(2 * r + 2, j) && j != r
  {
    if j > 2 * r + 2 {
      SiblingsDisjoint(r, Parent(j));
    }
  }

  // ---------- Order ----------

  /** The node in slot p has no lighter child among the first n slots. */
  ghost predicate EdgesOrdered(h: seq<Tree>, n: nat, p: nat)
    requires n <= |h| && p < n
  {
    && (2 * p + 1 < n ==> h[p].count <= h[2 * p + 1].count)
    && (2 * p + 2 < n ==> h[p].count <= h[2 * p + 2].count)
  }

  ghost predicate OrderedBelow(h: seq<Tree>, n: nat, r: nat)
    requires n <= |h|
  {
    forall p :: 0 <= p < n && Below(r, p) ==> EdgesOrdered(h, n, p)
  }

  ghost predicate IsHeap(h: seq<Tree>, n: nat)
    requires n <= |h|
  {
    forall p :: 0 <= p < n ==> EdgesOrdered(h, n, p)
  }

  lemma {:induction false} AllBelowRoot(j: nat)
    ensures Below(0, j)
  {
    if j > 0 {
      AllBelowRoot(Parent(j));
    }
  }

  lemma {:induction false} RootIsLeast(h: seq<Tree>, n: nat, j: nat)
    requires j < n <= |h| && IsHeap(h, n)
    ensures h[0].count <= h[j].count
  {
    if j > 0 {
      assert EdgesOrdered(h, n, Parent(j));
      RootIsLeast(h, n, Parent(j));
    }
  }

  /** An array sorted by count needs no heapify to be a heap. */
  lemma SortedIsHeap(h: seq<Tree>)
    requires forall i, j :: 0 <= i < j < |h| ==> h[i].count <= h[j].count
    ensures IsHeap(h, |h|)
  {
  }

  /** Order below r only depends on the slots below r. */
  lemma OrderedBelowFrame(h: seq<Tree>, h': seq<Tree>, n: nat, r: nat)
    requires n <= |h| == |h'| && OrderedBelow(h, n, r)
    requires forall j :: 0 <= j < n && Below(r, j) ==> h'[j] == h[j]
    ensures OrderedBelow(h', n, r)
  {
    forall p | 0 <= p < n && Below(r, p) ensures EdgesOrdered(h', n, p) {
      assert EdgesOrdered(h, n, p);
      assert Parent(2 * p + 1) == p && Parent(2 * p + 2) == p;
      assert Below(r, 2 * p + 1) && Below(r, 2 * p + 2);
    }
  }

  lemma OrderedBelowJoin(h: seq<Tree>, n: nat, r: nat)
    requires n <= |h| && r < n
    requires OrderedBelow(h, n, 2 * r + 1) && OrderedBelow(h, n, 2 * r + 2) && EdgesOrdered(h, n, r)
    ensures OrderedBelow(h, n, r)
  {
    forall p | 0 <= p < n && Below(r, p) ensures EdgesOrdered(h, n, p) {
      BelowSplits(r, p);
    }
  }

  class MinHeap {
    var size: nat
    const slots: array<Tree>

    /** initMinHeap: the heap works on the caller's array. */
    constructor (nodes: array<Tree>, many: nat)
      requires many <= nodes.Length
      ensures slots == nodes && size == many
    {
      slots, size := nodes, many;
    }

    ghost predicate Valid()
      reads this, slots
    {
      size <= slots.Length && IsHeap(slots[..], size)
    }

    ghost function Contents(): multiset<Tree>
      reads this, slots
      requires size <= slots.Length
    {
      multiset(slots[..size])
    }

    /** Restores order below `index` when only that slot may be out of order. Both children
        may have to be repaired: the left one after the first exchange and the right one
        after the second. */
    method Heapify(index: nat)
      requires size <= slots.Length
      requires OrderedBelow(slots[..], size, 2 * index + 1)
      requires OrderedBelow(slots[..], size, 2 * index + 2)
      modifies slots
      ensures Repaired(old(slots[..]), slots[..], size, index)
      decreases size - index
    {
      var left := index * 2 + 1;
      var right := index * 2 + 2;
      ghost var h0 := slots[..];
      if left < size && slots[left].count < slots[index].count {
        slots[index], slots[left] := slots[left], slots[index];
        ghost var h := slots[..];
        ChildrenOrdered(h0, h, size, left, index);
        Heapify(left);
        ExchangedAndRepaired(h0, h, slots[..], size, index, left, right);
      } else {
        LeftInOrder(h0, size, index);
      }
      ghost var h1 := slots[..];
      if right < size && slots[right].count < slots[index].count {
        slots[index], slots[right] := slots[right], slots[index];
        ghost var h := slots[..];
        ChildrenOrdered(h1, h, size, right, index);
        Heapify(right);
        ExchangedAndRepaired(h1, h, slots[..], size, index, right, left);
        BothRepaired(h0, h1, slots[..], size, index);
      } else {
        LeftRepaired(h0, h1, size, index);
      }
    }

    /** Takes the root, which is a least node of the heap. */
    method GetMinNode() returns (least: Tree)
      requires Valid() && size > 0
      modifies this`size, slots
      ensures Valid() && size == old(size) - 1
      ensures least in old(Contents()) && Contents() == old(Contents()) - multiset{least}
      ensures forall t :: t in old(Contents()) ==> least.count <= t.count
    {
      ghost var h := slots[..];
      assert slots[..size] == h[..size];
      least := slots[0];
      RootReplaced(h, size - 1);
      slots[0] := slots[size - 1];
      size := size - 1;
      Heapify(0);
      RootTaken(h, slots[..], size);
      assert slots[..size] == slots[..][..size];
    }

    /** The loop of insertNode: the slot that the new node belongs in is left open. */
    method SiftUp(node: Tree) returns (curr: nat, ghost v: seq<Tree>)
      requires Valid() && size < slots.Length
      modifies slots
      ensures size == old(size) && |v| == size + 1 && multiset(v) == old(Contents()) + multiset{node}
      ensures HoleAt(slots[..], v, curr, node) && HeapButFor(v, curr)
      ensures curr != 0 ==> slots[Parent(curr)].count <= node.count
    {
      curr := size;
      v := NewLeaf(slots[..], size, node);
      assert slots[..][..size] == slots[..size];
      while curr != 0 && node.count < slots[(curr - 1) / 2].count
        invariant |v| == size + 1 && multiset(v) == old(Contents()) + multiset{node}
        invariant HoleAt(slots[..], v, curr, node) && HeapButFor(v, curr)
      {
        var parent: nat := (curr - 1) / 2;
        ghost var h := slots[..];
        v := HoleMoves(h, v, curr, node);
        slots[curr] := slots[parent];
        assert slots[..] == h[curr := h[parent]];
        curr := parent;
      }
    }

    /** Fills the slot left open. */
    method Fill(curr: nat, node: Tree, ghost v: seq<Tree>)
      requires |v| == size + 1 && HoleAt(slots[..], v, curr, node) && HeapButFor(v, curr)
      requires curr != 0 ==> slots[Parent(curr)].count <= node.count
      modifies this`size, slots
      ensures Valid() && size == old(size) + 1 && slots[..size] == v
    {
      HoleFilled(slots[..], v, curr, node);
      ghost var h := slots[..];
      slots[curr] := node;
      size := size + 1;
      assert slots[..] == h[curr := node];
      assert slots[..size] == slots[..][..size];
    }

    /** Sifts a new node up from the first free slot. */
    method InsertNode(node: Tree)
      requires Valid() && size < slots.Length
      modifies this`size, slots
      ensures Valid() && size == old(size) + 1
      ensures Contents() == old(Contents()) + multiset{node}
    {
      var curr: nat;
      ghost var v: seq<Tree>;
      curr, v := SiftUp(node);
      Fill(curr, node, v);
    }
  }

  lemma NewLeaf(h: seq<Tree>, n: nat, node: Tree) returns (v: seq<Tree>)
    requires n < |h| && IsHeap(h, n)
    ensures |v| == n + 1 && multiset(v) == multiset(h[..n]) + multiset{node}
    ensures HoleAt(h, v, n, node) && HeapButFor(v, n)
  {
    v := h[..n] + [node];
    LeafAdded(h, n, node);
  }

  /** The slots are those of v, but the node for slot curr is not written yet. */
  ghost predicate HoleAt(h: seq<Tree>, v: seq<Tree>, curr: nat, node: Tree) {
    && curr < |v| <= |h| && v[curr] == node
    && forall j :: 0 <= j < |v| && j != curr ==> h[j] == v[j]
  }

  lemma HoleMoves(h: seq<Tree>, v: seq<Tree>, curr: nat, node: Tree) returns (w: seq<Tree>)
    requires HoleAt(h, v, curr, node) && HeapButFor(v, curr) && curr != 0
    requires node.count < h[Parent(curr)].count
    ensures |w| == |v| && multiset(w) == multiset(v)
    ensures HoleAt(h[curr := h[Parent(curr)]], w, Parent(curr), node) && HeapButFor(w, Parent(curr))
  {
    w := SiftStep(v, curr, Parent(curr));
  }

  lemma HoleFilled(h: seq<Tree>, v: seq<Tree>, curr: nat, node: Tree)
    requires HoleAt(h, v, curr, node) && HeapButFor(v, curr)
    requires curr != 0 ==> h[Parent(curr)].count <= node.count
    ensures h[curr := node][..|v|] == v && IsHeap(h[curr := node], |v|)
  {
    assert h[curr := node][..|v|] == v;
    Sifted(h[curr := node], v, curr);
  }

  /** v is a heap but for the edge from slot c to its parent. */
  ghost predicate HeapButFor(v: seq<Tree>, c: nat) {
    forall p :: 0 <= p < |v| ==> EdgesOrderedBut(v, p, c)
  }

  /** The children of p, c excepted, are no lighter than p, and neither are the children
      of c when c is a child of p. */
  ghost predicate EdgesOrderedBut(v: seq<Tree>, p: nat, c: nat)
    requires p < |v|
  {
    && (2 * p + 1 < |v| && 2 * p + 1 != c ==> v[p].count <= v[2 * p + 1].count)
    && (2 * p + 2 < |v| && 2 * p + 2 != c ==> v[p].count <= v[2 * p + 2].count)
    && (IsChild(p, c) && 2 * c + 1 < |v| ==> v[p].count <= v[2 * c + 1].count)
    && (IsChild(p, c) && 2 * c + 2 < |v| ==> v[p].count <= v[2 * c + 2].count)
  }

  predicate IsChild(p: nat, c: nat) {
    c == 2 * p + 1 || c == 2 * p + 2
  }

  lemma LeafAdded(h: seq<Tree>, n: nat, node: Tree)
    requires n <= |h| && IsHeap(h, n)
    ensures HeapButFor(h[..n] + [node], n)
  {
    var v := h[..n] + [node];
    forall p | 0 <= p < |v| ensures EdgesOrderedBut(v, p, n) {
      assert p < n ==> EdgesOrdered(h, n, p);
    }
  }

  lemma SiftStep(v: seq<Tree>, c: nat, p: nat) returns (w: seq<Tree>)
    requires c < |v| && IsChild(p, c) && HeapButFor(v, c) && v[c].count < v[p].count
    ensures |w| == |v| && w[p] == v[c] && w[c] == v[p]
    ensures forall j :: 0 <= j < |v| && j != c && j != p ==> w[j] == v[j]
    ensures HeapButFor(w, p) && multiset(w) == multiset(v)
  {
    w := v[c := v[p]][p := v[c]];
    SiftStepEdges(v, c, p);
    ExchangeBag(v, c, p);
  }

  lemma SiftStepEdges(v: seq<Tree>, c: nat, p: nat)
    requires c < |v| && IsChild(p, c) && HeapButFor(v, c) && v[c].count < v[p].count
    ensures HeapButFor(v[c := v[p]][p := v[c]], p)
  {
    var w := v[c := v[p]][p := v[c]];
    assert EdgesOrderedBut(v, p, c);
    forall q | 0 <= q < |w| ensures EdgesOrderedBut(w, q, p) {
      assert EdgesOrderedBut(v, q, c);
    }
  }

  lemma Sifted(h: seq<Tree>, v: seq<Tree>, c: nat)
    requires c < |v| <= |h| && v == h[..|v|] && HeapButFor(v, c)
    requires c > 0 ==> v[Parent(c)].count <= v[c].count
    ensures IsHeap(h, |v|)
  {
    forall p | 0 <= p < |v| ensures EdgesOrdered(h, |v|, p) {
      assert EdgesOrderedBut(v, p, c);
      assert IsChild(p, c) ==> Parent(c) == p;
    }
  }

  lemma RootReplaced(h: seq<Tree>, n: nat)
    requires n < |h| && IsHeap(h, n + 1)
    ensures OrderedBelow(h[0 := h[n]], n, 1) && OrderedBelow(h[0 := h[n]], n, 2)
  {
    var hx := h[0 := h[n]];
    forall p | 0 <= p < n && (Below(1, p) || Below(2, p)) ensures EdgesOrdered(hx, n, p) {
      BelowSplits(1, p);
      BelowSplits(2, p);
      assert EdgesOrdered(h, n + 1, p);
    }
  }

  /** Writing the last node over the root and repairing there leaves a heap of all the
      nodes but the root, which was a least one. */
  lemma RootTaken(h: seq<Tree>, h': seq<Tree>, n: nat)
    requires n < |h| == |h'| && IsHeap(h, n + 1)
    requires Repaired(h[0 := h[n]], h', n, 0)
    ensures IsHeap(h', n)
    ensures h[0] in multiset(h[..n + 1])
    ensures multiset(h'[..n]) == multiset(h[..n + 1]) - multiset{h[0]}
    ensures forall t :: t in multiset(h[..n + 1]) ==> h[0].count <= t.count
  {
    HeapAgain(h[0 := h[n]], h', n);
    LastOverFirst(h, n);
    RootAmong(h, n);
  }

  lemma RootAmong(h: seq<Tree>, n: nat)
    requires n < |h| && IsHeap(h, n + 1)
    ensures h[0] in multiset(h[..n + 1])
    ensures forall t :: t in multiset(h[..n + 1]) ==> h[0].count <= t.count
  {
    assert h[0] in h[..n + 1];
    forall t | t in multiset(h[..n + 1]) ensures h[0].count <= t.count {
      assert t in h[..n + 1];
      var j :| 0 <= j < n + 1 && h[j] == t;
      RootIsLeast(h, n + 1, j);
    }
  }

  lemma HeapAgain(h: seq<Tree>, h': seq<Tree>, n: nat)
    requires n < |h| == |h'|
    requires Repaired(h, h', n, 0)
    ensures IsHeap(h', n) && multiset(h'[..n]) == multiset(h[..n])
  {
    forall p | 0 <= p < n ensures EdgesOrdered(h', n, p) {
      AllBelowRoot(p);
    }
    assert h'[n..] == h[n..];
    SamePrefixMultiset(h, h', n);
  }

  /** h' is h with order restored below r: the same nodes, moved only below r, and the
      node in slot r was there before or was one of its children. */
  ghost predicate Repaired(h: seq<Tree>, h': seq<Tree>, n: nat, r: nat)
    requires n <= |h| == |h'|
  {
    && OrderedBelow(h', n, r)
    && SameNodes(h, h', n, r)
    && (r < n ==>
        || h'[r] == h[r]
        || (2 * r + 1 < n && h'[r] == h[2 * r + 1])
        || (2 * r + 2 < n && h'[r] == h[2 * r + 2]))
  }

  ghost predicate SameNodes(h: seq<Tree>, h': seq<Tree>, n: nat, r: nat)
    requires |h| == |h'|
  {
    && multiset(h') == multiset(h)
    && forall j :: 0 <= j < |h| && !(j < n && Below(r, j)) ==> h'[j] == h[j]
  }

  /** Half of a repair at r: child c has been dealt with and child d has not moved. */
  ghost predicate ChildRepaired(h: seq<Tree>, h': seq<Tree>, n: nat, r: nat, c: nat, d: nat)
    requires n <= |h| == |h'| && r < c && r < d
  {
    && OrderedBelow(h', n, c) && OrderedBelow(h', n, d)
    && SameNodes(h, h', n, r)
    && (r < n ==> h'[r].count <= h[r].count && (h'[r] == h[r] || (c < n && h'[r] == h[c])))
    && (c < n ==> h'[r].count <= h'[c].count)
    && (d < n ==> h'[d] == h[d])
  }

  lemma {:induction false} BelowTwoChildren(r: nat, c: nat, d: nat, j: nat)
    requires {c, d} == {2 * r + 1, 2 * r + 2} && Below(d, j)
    ensures !Below(c, j) && j != r
  {
    BelowSplits(d, j);
    if d == 2 * r + 1 {
      SiblingsDisjoint(r, j);
    } else if Below(2 * r + 1, j) {
      SiblingsDisjoint(r, j);
    }
  }

  /** Exchanging slot r with its lighter child c and then repairing below c. */
  lemma ExchangedAndRepaired(h: seq<Tree>, hx: seq<Tree>, h': seq<Tree>, n: nat, r: nat, c: nat, d: nat)
    requires {c, d} == {2 * r + 1, 2 * r + 2} && c < n <= |h| == |hx| == |h'|
    requires OrderedBelow(h, n, c) && OrderedBelow(h, n, d) && h[c].count < h[r].count
    requires hx == h[r := h[c]][c := h[r]] && Repaired(hx, h', n, c)
    ensures ChildRepaired(h, h', n, r, c, d)
  {
    forall j | 0 <= j < n && Below(d, j) ensures h'[j] == h[j] {
      BelowTwoChildren(r, c, d, j);
    }
    OrderedBelowFrame(h, h', n, d);
    assert Below(d, d);
    assert EdgesOrdered(h, n, c);
    forall j | 0 <= j < |h| && !(j < n && Below(r, j)) ensures h'[j] == h[j] {
      BelowSplits(r, j);
      BelowSplits(r, c);
      assert Below(c, c);
    }
    assert !Below(c, r);
  }

  lemma LeftInOrder(h: seq<Tree>, n: nat, r: nat)
    requires n <= |h| && OrderedBelow(h, n, 2 * r + 1) && OrderedBelow(h, n, 2 * r + 2)
    requires 2 * r + 1 < n ==> h[r].count <= h[2 * r + 1].count
    ensures ChildRepaired(h, h, n, r, 2 * r + 1, 2 * r + 2)
  {
  }

  /** Repaired on the left, with nothing to do on the right. */
  lemma LeftRepaired(h: seq<Tree>, h': seq<Tree>, n: nat, r: nat)
    requires n <= |h| == |h'| && ChildRepaired(h, h', n, r, 2 * r + 1, 2 * r + 2)
    requires 2 * r + 2 < n ==> h'[r].count <= h'[2 * r + 2].count
    ensures Repaired(h, h', n, r)
  {
    if r < n {
      assert EdgesOrdered(h', n, r);
      OrderedBelowJoin(h', n, r);
    } else {
      NothingBelow(n, r);
    }
  }

  lemma NothingBelow(n: nat, r: nat)
    requires n <= r
    ensures forall j: nat :: Below(r, j) ==> j >= n
  {
    forall j: nat | Below(r, j) ensures j >= n {
      BelowSplits(r, j);
    }
  }

  /** Repaired on the left and then on the right. */
  lemma BothRepaired(h0: seq<Tree>, h1: seq<Tree>, h2: seq<Tree>, n: nat, r: nat)
    requires n <= |h0| == |h1| == |h2|
    requires ChildRepaired(h0, h1, n, r, 2 * r + 1, 2 * r + 2)
    requires ChildRepaired(h1, h2, n, r, 2 * r + 2, 2 * r + 1)
    ensures Repaired(h0, h2, n, r)
  {
    if r < n {
      assert EdgesOrdered(h2, n, r);
      OrderedBelowJoin(h2, n, r);
    } else {
      NothingBelow(n, r);
    }
  }

  lemma ChildrenOrdered(h: seq<Tree>, h': seq<Tree>, n: nat, c: nat, r: nat)
    requires r < c < n <= |h| == |h'| && Parent(c) == r && OrderedBelow(h, n, c)
    requires h' == h[r := h[c]][c := h[r]]
    ensures OrderedBelow(h', n, 2 * c + 1) && OrderedBelow(h', n, 2 * c + 2)
  {
    forall p | 0 <= p < n && (Below(2 * c + 1, p) || Below(2 * c + 2, p))
      ensures EdgesOrdered(h', n, p)
    {
      BelowSplits(c, p);
      BelowSplits(2 * c + 1, p);
      BelowSplits(2 * c + 2, p);
      assert EdgesOrdered(h, n, p);
    }
  }
}
