/** buildHuffmanTreeFromNodesArray: joins the two least trees until one is left. */
module MergeLoop {
  import opened HuffmanTree
  import opened MinHeaps

  /** The nodes come sorted by count, so they already form a heap. The heap works in the
      array itself and never grows beyond it. */
  method BuildHuffmanTreeFromNodesArray(nodes: array<Tree>, many: nat) returns (tree: Tree)
    requires 0 < many == nodes.Length
    requires forall i :: 0 <= i < many ==> nodes[i].Leaf?
    requires forall i, j :: 0 <= i < j < many ==> nodes[i].count <= nodes[j].count
    modifies nodes
    ensures HuffmanTreeOf(tree, old(nodes[..]))
  {
    ghost var leaves := nodes[..];
    ghost var f := leaves;
    SortedIsHeap(f);
    ForestOfLeaves(f);
    var heap := new MinHeap(nodes, many);
    assert nodes[..many] == f;
    while heap.size != 1
      invariant heap.slots == nodes && fresh(heap)
      invariant heap.Valid() && heap.size >= 1 && |f| == heap.size
      invariant heap.Contents() == multiset(f) && PartlyMerged(f, leaves)
      decreases heap.size
    {
      var temp1 := heap.GetMinNode();
      WithoutBag(f, temp1);
      var temp2 := heap.GetMinNode();
      var temp3 := Node(temp1.count + temp2.count, temp1, temp2);
      heap.InsertNode(temp3);
      MergeTwoLeast(f, temp1, temp2, leaves);
      MergedBag(f, temp1, temp2);
      f := Merged(f, temp1, temp2);
    }
    tree := nodes[0];
    assert tree in nodes[..1];
    assert tree in multiset(f);
    LastTree(f, leaves, tree);
  }
}
