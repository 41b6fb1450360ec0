/** buildHuffmanTreeFromCodes: a binary trie built in place from codes in any order. */
module Tries {
  import opened CTypes
  import opened HuffmanTree

  /** A node of Asst2/ds.h as the decoder uses it. */
  class Node {
    var left: Node?
    var right: Node?
    const token: Token
    const codes: Code

    constructor (token: Token, codes: Code)
      ensures left == null && right == null && this.token == token && this.codes == codes
    {
      left, right, this.token, this.codes := null, null, token, codes;
    }
  }

  // ---------- Tries as maps from paths to nodes ----------

  type Paths = map<Code, Node>

  ghost function ChildAt(paths: Paths, p: Code, b: Bit): Node? {
    if p + [b] in paths then paths[p + [b]] else null
  }

  /** The node at path p has its children at the two paths one longer. */
  ghost predicate Linked(paths: Paths, p: Code)
    reads paths.Values
  {
    p in paths ==>
      paths[p].left == ChildAt(paths, p, ZERO) && paths[p].right == ChildAt(paths, p, ONE)
  }

  ghost predicate ClosedAt(paths: Paths, p: Code, b: Bit) {
    p + [b] in paths ==> p in paths
  }

  /** The nodes reachable from the root are exactly those of `paths`, each at its path. */
  ghost predicate IsTrie(root: Node, paths: Paths)
    reads paths.Values
  {
    && [] in paths && paths[[]] == root
    && (forall p, b :: ClosedAt(paths, p, b))
    && (forall p :: Linked(paths, p))
    && (forall p, q :: p in paths && q in paths && paths[p] == paths[q] ==> p == q)
  }

  /** The paths are the prefixes of the leaves' codes, and each leaf is at its code. */
  ghost predicate Spells(paths: Paths, leaves: seq<Node>) {
    && (forall p :: p in paths <==> p == [] || StartsACode(p, leaves))
    && (forall i :: 0 <= i < |leaves| ==> leaves[i].codes in paths && paths[leaves[i].codes] == leaves[i])
  }

  ghost predicate StartsACode(p: Code, leaves: seq<Node>) {
    exists i :: 0 <= i < |leaves| && IsPrefix(p, leaves[i].codes)
  }

  /** No code is a prefix of another one, and none is empty. */
  ghost predicate PrefixCode(leaves: seq<Node>) {
    && (forall i :: 0 <= i < |leaves| ==> leaves[i].codes != [])
    && (forall i, j :: 0 <= i < j < |leaves| ==> Unrelated(leaves[i].codes, leaves[j].codes))
  }

  lemma ExtendInjective(p: Code, b: Bit)
    ensures forall q: Code, c: Bit :: q + [c] == p + [b] ==> q == p && c == b
  {
    forall q: Code, c: Bit | q + [c] == p + [b] ensures q == p && c == b {
      assert q == (q + [c])[..|q|] && p == (p + [b])[..|p|];
      assert c == (q + [c])[|q|];
    }
  }

  /** One step down from curr, which sits at path p, creating the child when it is missing. */
  method StepDown(curr: Node, b: Bit, ghost root: Node, ghost p: Code, ghost paths: Paths)
    returns (child: Node, ghost paths': Paths)
    requires IsTrie(root, paths) && p in paths && paths[p] == curr
    modifies curr
    ensures IsTrie(root, paths') && p + [b] in paths' && paths'[p + [b]] == child
    ensures if p + [b] in paths then paths' == paths else fresh(child) && paths' == paths[p + [b] := child]
    ensures p in paths' && paths'[p] == curr
    ensures paths'.Values <= paths.Values + {child} && (child in paths.Values || fresh(child))
  {
    assert Linked(paths, p);
    paths' := paths;
    if b == ZERO {
      if curr.left == null {
        curr.left := new Node([], []);
        paths' := paths[p + [b] := curr.left];
      }
      child := curr.left;
    } else {
      if curr.right == null {
        curr.right := new Node([], []);
        paths' := paths[p + [b] := curr.right];
      }
      child := curr.right;
    }
    assert IsTrie(root, paths') by {
      ExtendInjective(p, b);
      forall q: Code, c: Bit ensures ClosedAt(paths', q, c) {
        assert ClosedAt(paths, q, c);
      }
      forall q: Code ensures Linked(paths', q) {
        assert old(Linked(paths, q));
        assert ClosedAt(paths, q, ZERO) && ClosedAt(paths, q, ONE);
      }
    }
  }

  /** The last step: the node at the end of the walk gives way to the leaf. */
  method PutLeaf(prev: Node, curr: Node, leaf: Node, ghost root: Node, ghost p: Code, ghost b: Bit,
                 ghost paths: Paths)
    requires IsTrie(root, paths) && leaf !in paths.Values && leaf.left == null && leaf.right == null
    requires p in paths && paths[p] == prev && p + [b] in paths && paths[p + [b]] == curr
    requires forall c: Bit :: p + [b] + [c] !in paths
    modifies prev
    ensures IsTrie(root, paths[p + [b] := leaf])
  {
    assert Linked(paths, p);
    if prev.left == curr {
      prev.left := leaf;
    }
    if prev.right == curr {
      prev.right := leaf;
    }
    ghost var paths' := paths[p + [b] := leaf];
    assert IsTrie(root, paths') by {
      ExtendInjective(p, b);
      forall q: Code, c: Bit ensures ClosedAt(paths', q, c) {
        assert ClosedAt(paths, q, c);
      }
      forall q: Code ensures Linked(paths', q) {
        assert old(Linked(paths, q));
      }
    }
  }

  /** paths' has the paths of `paths`, with the same nodes, and the prefixes of c. */
  ghost predicate Grown(paths: Paths, c: Code, paths': Paths) {
    && (forall q :: q in paths' <==> q in paths || IsPrefix(q, c))
    && (forall q :: q in paths ==> paths'[q] == paths[q])
  }

  predicate IsPrefix(q: Code, c: Code) {
    q <= c
  }

  lemma GrownStep(paths: Paths, c: Code, b: Bit, paths1: Paths, child: Node, paths2: Paths)
    requires Grown(paths, c, paths1)
    requires if c + [b] in paths1 then paths2 == paths1 else paths2 == paths1[c + [b] := child]
    ensures Grown(paths, c + [b], paths2)
  {
    forall q: Code ensures IsPrefix(q, c + [b]) <==> IsPrefix(q, c) || q == c + [b] {
      if IsPrefix(q, c + [b]) && |q| <= |c| {
        assert q == (c + [b])[..|q|] == c[..|q|];
      }
    }
  }

  lemma PrefixExtends(c: Code, code: Code)
    requires IsPrefix(c, code)
    ensures |c| < |code| ==> IsPrefix(c + [code[|c|]], code)
    ensures |c| == |code| ==> c == code
  {
    assert c == code[..|c|];
    if |c| < |code| {
      assert code[..|c| + 1] == c + [code[|c|]];
    }
  }

  /** Nothing in the trie extends the code, and no frozen node is on the way to it. */
  ghost predicate Open(paths: Paths, code: Code, frozen: set<Node>) {
    forall q :: q in paths ==> !IsPrefix(code, q) && (IsPrefix(q, code) ==> paths[q] !in frozen)
  }

  /** The walk down the leaf's code, creating what is missing. */
  method Walk(root: Node, code: Code, ghost paths: Paths, ghost frozen: set<Node>)
    returns (prev: Node, curr: Node, ghost way: Code, ghost paths': Paths)
    requires IsTrie(root, paths) && code != [] && Open(paths, code, frozen)
    modifies paths.Values - frozen
    ensures IsTrie(root, paths') && Grown(paths, code, paths')
    ensures paths'[code] == curr
    ensures code == way + [code[|code| - 1]] && way in paths' && paths'[way] == prev
    ensures prev !in frozen && fresh(paths'.Values - paths.Values)
  {
    var cnt := 0;
    curr, prev := root, root;
    paths', way := paths, [];
    ghost var here: Code := [];
    ghost var made: set<Node> := {};
    while cnt < |code|
      invariant cnt == |here| && IsPrefix(here, code)
      invariant IsTrie(root, paths') && Grown(paths, here, paths')
      invariant here in paths' && paths'[here] == curr
      invariant way in paths' && paths'[way] == prev
      invariant cnt > 0 ==> here == way + [code[cnt - 1]]
      invariant fresh(made) && paths'.Values <= paths.Values + made
      invariant cnt > 0 ==> prev !in frozen
      invariant cnt < |code| ==> curr !in frozen
    {
      prev, way := curr, here;
      ghost var paths1 := paths';
      PrefixExtends(here, code);
      curr, paths' := StepDown(curr, code[cnt], root, way, paths');
      GrownStep(paths, here, code[cnt], paths1, curr, paths');
      made := if curr in paths1.Values then made else made + {curr};
      here := here + [code[cnt]];
      cnt := cnt + 1;
    }
    PrefixExtends(here, code);
  }

  /** One round of the outer loop: puts the leaf where the walk down its code ends. */
  method Insert(root: Node, leaf: Node, ghost paths: Paths, ghost frozen: set<Node>)
    returns (ghost paths': Paths)
    requires IsTrie(root, paths) && leaf.codes != [] && Open(paths, leaf.codes, frozen)
    requires leaf !in paths.Values && leaf.left == null && leaf.right == null
    modifies paths.Values - frozen
    ensures IsTrie(root, paths') && Grown(paths, leaf.codes, paths')
    ensures paths'[leaf.codes] == leaf && fresh(paths'.Values - paths.Values - {leaf})
  {
    var prev, curr;
    ghost var way, paths1;
    prev, curr, way, paths1 := Walk(root, leaf.codes, paths, frozen);
    LastStep(paths, leaf.codes, paths1);
    PutLeaf(prev, curr, leaf, root, way, leaf.codes[|leaf.codes| - 1], paths1);
    paths' := paths1[leaf.codes := leaf];
  }

  lemma LastStep(paths: Paths, c: Code, paths': Paths)
    requires c != [] && Grown(paths, c, paths')
    requires forall q :: q in paths ==> !IsPrefix(c, q)
    ensures forall b: Bit :: c + [b] !in paths'
  {
    forall b: Bit ensures c + [b] !in paths' {
      assert !IsPrefix(c + [b], c);
      assert IsPrefix(c, c + [b]);
    }
  }

  // ---------- The whole array ----------

  lemma SpellsOneMore(paths: Paths, leaves: seq<Node>, k: nat, paths': Paths)
    requires k < |leaves| && Spells(paths, leaves[..k]) && PrefixCode(leaves)
    requires Grown(paths, leaves[k].codes, paths') && paths'[leaves[k].codes] == leaves[k]
    ensures Spells(paths', leaves[..k + 1])
  {
    var fewer, more := leaves[..k], leaves[..k + 1];
    assert more[k] == leaves[k] && forall i :: 0 <= i < k ==> more[i] == fewer[i];
    forall p: Code ensures StartsACode(p, more) <==> StartsACode(p, fewer) || IsPrefix(p, more[k].codes) {
      if i :| 0 <= i < k && IsPrefix(p, fewer[i].codes) {
        assert IsPrefix(p, more[i].codes);
      }
      if i :| 0 <= i <= k && IsPrefix(p, more[i].codes) {
        assert i < k ==> IsPrefix(p, fewer[i].codes);
      }
    }
  }

  ghost function NodeSet(s: seq<Node>): set<Node> {
    set x | x in s
  }

  lemma NodeSetOneMore(s: seq<Node>, k: nat)
    requires k < |s|
    ensures NodeSet(s[..k + 1]) == NodeSet(s[..k]) + {s[k]}
  {
    assert s[..k + 1] == s[..k] + [s[k]];
  }

  /** The codes already in the trie neither extend the next one nor are on its way. */
  lemma NextIsOpen(paths: Paths, leaves: seq<Node>, k: nat)
    requires k < |leaves| && PrefixCode(leaves) && Spells(paths, leaves[..k])
    requires forall p, q :: p in paths && q in paths && paths[p] == paths[q] ==> p == q
    ensures Open(paths, leaves[k].codes, NodeSet(leaves[..k]))
  {
    var c, frozen := leaves[k].codes, NodeSet(leaves[..k]);
    forall q | q in paths ensures !IsPrefix(c, q) && (IsPrefix(q, c) ==> paths[q] !in frozen) {
      if q != [] {
        var i :| 0 <= i < k && IsPrefix(q, leaves[..k][i].codes);
        assert Unrelated(leaves[i].codes, c);
      }
      if paths[q] in frozen {
        var i :| 0 <= i < k && paths[q] == leaves[..k][i];
        assert paths[leaves[..k][i].codes] == leaves[..k][i];
        assert Unrelated(leaves[i].codes, c);
      }
    }
  }

  /** buildHuffmanTreeFromCodes: the trie holds exactly the prefixes of the codes, and the
      leaf at each code is that code's own node. Nothing in this depends on the order in
      which the nodes come. */
  method BuildHuffmanTreeFromCodes(nodes: seq<Node>) returns (root: Node, ghost paths: Paths)
    requires PrefixCode(nodes)
    requires forall i :: 0 <= i < |nodes| ==> nodes[i].left == null && nodes[i].right == null
    ensures fresh(root) && IsTrie(root, paths) && Spells(paths, nodes)
    ensures fresh(paths.Values - NodeSet(nodes))
  {
    root := new Node([], []);
    paths := map[[] := root];
    var temp := 0;
    while temp < |nodes|
      invariant 0 <= temp <= |nodes| && fresh(root)
      invariant IsTrie(root, paths) && Spells(paths, nodes[..temp])
      invariant fresh(paths.Values - NodeSet(nodes[..temp]))
      invariant forall j :: temp <= j < |nodes| ==>
        nodes[j] !in paths.Values && nodes[j].left == null && nodes[j].right == null
    {
      NextIsOpen(paths, nodes, temp);
      ghost var paths1 := paths;
      paths := Insert(root, nodes[temp], paths, NodeSet(nodes[..temp]));
      SpellsOneMore(paths1, nodes, temp, paths);
      NodeSetOneMore(nodes, temp);
      temp := temp + 1;
    }
    assert nodes[..temp] == nodes;
  }
}
