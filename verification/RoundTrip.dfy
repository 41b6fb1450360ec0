/** Decompressing with a code book read back from its text, and the whole round trip. */
module RoundTrip {
  import opened CTypes
  import opened HuffmanTree
  import opened Export
  import opened Tokens
  import opened Tokenizer
  import opened Expandables
  import opened Codec
  import opened Codebook
  import opened Tries
  import opened Compressor
  import opened Shortest
  import opened Pipeline

  // ---------- The nodes of a loaded code book ----------

  /** A trie node freshly made for an entry. */
  ghost predicate NodeFor(n: Node, e: Entry)
    reads n
  {
    n.token == e.token && n.codes == e.code && n.left == null && n.right == null
  }

  /** Node i is made for entry i. */
  ghost predicate NodesFor(nodes: seq<Node>, es: seq<Entry>)
    reads nodes
  {
    |nodes| == |es| && forall i :: 0 <= i < |es| ==> NodeFor(nodes[i], es[i])
  }

  /** Builds the nodes in the order of the file. With distinct tokens the search tree keeps
      all of them. */
  method MakeNodes(es: seq<Entry>) returns (nodes: seq<Node>)
    ensures NodesFor(nodes, es)
    ensures forall n :: n in nodes ==> fresh(n)
    ensures forall i, j :: 0 <= i < j < |nodes| ==> nodes[i] != nodes[j]
  {
    nodes := [];
    for i := 0 to |es|
      invariant NodesFor(nodes, es[..i])
      invariant forall n :: n in nodes ==> fresh(n)
      invariant forall i, j :: 0 <= i < j < |nodes| ==> nodes[i] != nodes[j]
    {
      var node := new Node(es[i].token, es[i].code);
      nodes := nodes + [node];
    }
    assert es[..|es|] == es;
  }

  /** twalk and qsort over nodes that all have count zero: any order whatever. */
  method AnyOrder(nodes: set<Node>) returns (out: seq<Node>)
    ensures forall n :: n in out <==> n in nodes
    ensures forall i, j :: 0 <= i < j < |out| ==> out[i] != out[j]
  {
    out := [];
    var rest := nodes;
    while rest != {}
      invariant rest <= nodes
      invariant forall n :: n in out <==> n in nodes - rest
      invariant forall i, j :: 0 <= i < j < |out| ==> out[i] != out[j]
      decreases |rest|
    {
      var n :| n in rest;
      assert n !in out;
      out := out + [n];
      rest := rest - {n};
    }
  }

  // ---------- The trie has the shape of the exported tree ----------

  /** Every entry's code leads to a childless node with the entry's token. */
  ghost predicate Placed(paths: Paths, e: Entry)
    reads paths.Values
  {
    e.code in paths && paths[e.code].left == null && paths[e.code].right == null && paths[e.code].token == e.token
  }

  /** The trie built from the exported codes, in any order, is the exported tree. */
  lemma {:induction false} TrieMirrorsTree(root: Node, paths: Paths, t: Tree, p: Code)
    requires IsTrie(root, paths)
    requires forall i :: 0 <= i < |Leaves(t)| ==> Placed(paths, Exported(t, p)[i])
    ensures Mirrors(paths, p, t)
    decreases t
  {
    if t.Leaf? {
      assert Placed(paths, Exported(t, p)[0]);
    } else {
      var l, r := Exported(t.left, p + [ZERO]), Exported(t.right, p + [ONE]);
      forall i | 0 <= i < |l| ensures Placed(paths, l[i]) {
        assert Exported(t, p)[i] == l[i];
      }
      forall i | 0 <= i < |r| ensures Placed(paths, r[i]) {
        assert Exported(t, p)[|l| + i] == r[i];
      }
      TrieMirrorsTree(root, paths, t.left, p + [ZERO]);
      TrieMirrorsTree(root, paths, t.right, p + [ONE]);
      assert ClosedAt(paths, p, ZERO);
      assert Linked(paths, p);
    }
  }

  /** The nodes of out are those of nodes, which are made for the entries es. */
  ghost predicate Reordered(out: seq<Node>, nodes: seq<Node>, es: seq<Entry>)
    reads nodes
  {
    && NodesFor(nodes, es)
    && NodeSet(out) == NodeSet(nodes)
    && (forall i, j :: 0 <= i < j < |out| ==> out[i] != out[j])
  }

  ghost predicate PrefixFreeEntries(es: seq<Entry>) {
    && (forall i :: 0 <= i < |es| ==> es[i].code != [])
    && (forall i, j :: 0 <= i < j < |es| ==> Unrelated(es[i].code, es[j].code))
  }

  lemma ReorderedIsPrefixCode(out: seq<Node>, nodes: seq<Node>, es: seq<Entry>)
    requires Reordered(out, nodes, es) && PrefixFreeEntries(es)
    ensures PrefixCode(out)
  {
    forall i | 0 <= i < |out| ensures exists k :: 0 <= k < |es| && out[i] == nodes[k] && out[i].codes == es[k].code {
      assert out[i] in NodeSet(out);
      assert out[i] in nodes;
      var k :| 0 <= k < |nodes| && out[i] == nodes[k];
      assert NodeFor(nodes[k], es[k]);
    }
    forall i, j | 0 <= i < j < |out| ensures Unrelated(out[i].codes, out[j].codes) {
      var k :| 0 <= k < |es| && out[i] == nodes[k] && out[i].codes == es[k].code;
      var m :| 0 <= m < |es| && out[j] == nodes[m] && out[j].codes == es[m].code;
      assert out[i] != out[j];
      assert k < m ==> Unrelated(es[k].code, es[m].code);
      assert m < k ==> Unrelated(es[m].code, es[k].code);
    }
  }

  lemma ShorterPrefix(c: Code, b: Bit, d: Code)
    requires IsPrefix(c + [b], d)
    ensures IsPrefix(c, d) && c != d
  {
    assert d[..|c|] == (c + [b])[..|c|] == c;
  }

  lemma ExtendsNothing(out: seq<Node>, i: nat, j: nat, b: Bit)
    requires PrefixCode(out) && i < |out| && j < |out|
    ensures !IsPrefix(out[i].codes + [b], out[j].codes)
  {
    var c, d := out[i].codes, out[j].codes;
    assert i < j ==> Unrelated(c, d);
    assert j < i ==> Unrelated(d, c);
    if IsPrefix(c + [b], d) {
      ShorterPrefix(c, b, d);
      assert false;
    }
  }

  /** A leaf of the trie has no children: its code is a proper prefix of no code. */
  lemma LeafIsPlaced(root: Node, paths: Paths, out: seq<Node>, i: nat)
    requires IsTrie(root, paths) && Spells(paths, out) && PrefixCode(out) && i < |out|
    ensures Placed(paths, Entry(out[i].codes, out[i].token))
  {
    var c := out[i].codes;
    forall b: Bit ensures !StartsACode(c + [b], out) {
      forall j | 0 <= j < |out| ensures !IsPrefix(c + [b], out[j].codes) {
        ExtendsNothing(out, i, j, b);
      }
    }
    assert Linked(paths, c);
  }

  lemma AllPlaced(root: Node, paths: Paths, out: seq<Node>, nodes: seq<Node>, es: seq<Entry>)
    requires IsTrie(root, paths) && Spells(paths, out) && Reordered(out, nodes, es) && PrefixCode(out)
    ensures forall k :: 0 <= k < |es| ==> Placed(paths, es[k])
  {
    forall k | 0 <= k < |es| ensures Placed(paths, es[k]) {
      assert NodeFor(nodes[k], es[k]);
      assert nodes[k] in NodeSet(out);
      var i :| 0 <= i < |out| && out[i] == nodes[k];
      LeafIsPlaced(root, paths, out, i);
    }
  }

  // ---------- Decompressing ----------

  ghost predicate Readable(t: Tree) {
    && (forall i :: 0 <= i < |Leaves(t)| ==> IsDelimToken(Leaves(t)[i].token) || IsRun(Leaves(t)[i].token))
    && (forall i, j :: 0 <= i < j < |Leaves(t)| ==> Leaves(t)[i].token != Leaves(t)[j].token)
  }

  lemma ExportedEntries(t: Tree)
    requires t.Node? && Readable(t)
    ensures Printable(Exported(t, [])) && PrefixFreeEntries(Exported(t, []))
  {
    var es := Exported(t, []);
    forall i | 0 <= i < |es|
      ensures es[i].code != [] && (IsDelimToken(es[i].token) || IsRun(es[i].token))
    {
      ExportedAt(t, [], i);
      var j := if i == 0 then 1 else 0;
      if i < j {
        ExportedPrefixFree(t, [], i, j);
      } else {
        ExportedPrefixFree(t, [], j, i);
      }
    }
    forall i, j | 0 <= i < j < |es| ensures Unrelated(es[i].code, es[j].code) {
      ExportedPrefixFree(t, [], i, j);
    }
  }

  /** buildHuffmanTreeFromBSTree on loaded nodes. */
  method RebuildTrie(es: seq<Entry>, ghost t: Tree) returns (root: Node, ghost paths: Paths)
    requires PrefixFreeEntries(es) && es == Exported(t, [])
    ensures IsTrie(root, paths) && Mirrors(paths, [], t)
  {
    var nodes := MakeNodes(es);
    var bst := set n | n in nodes;
    var out := AnyOrder(bst);
    assert NodeSet(out) == NodeSet(nodes);
    ReorderedIsPrefixCode(out, nodes, es);
    forall i | 0 <= i < |out| ensures out[i].left == null && out[i].right == null {
      assert out[i] in bst;
      var k :| 0 <= k < |nodes| && out[i] == nodes[k];
      assert NodeFor(nodes[k], es[k]);
    }
    root, paths := BuildHuffmanTreeFromCodes(out);
    AllPlaced(root, paths, out, nodes, es);
    TrieMirrorsTree(root, paths, t, []);
  }

  lemma LeafText(t: Tree)
    requires t.Leaf? && Readable(t)
    ensures ReadBook(BookText(Exported(t, []))) == None
  {
    assert t == Leaves(t)[0];
    LoneTokenIsUnreadable(t.token, BookText([Entry([], t.token)]));
  }

  /** Loads the code book written for the tree t and rebuilds the trie; None where the
      original runs over the end of the code book. */
  method LoadTrie(text: seq<byte>, ghost t: Tree) returns (root: Option<Node>, ghost paths: Paths)
    requires Readable(t) && text == BookText(Exported(t, []))
    ensures root.None? <==> t.Leaf?
    ensures root.Some? ==> IsTrie(root.value, paths) && Mirrors(paths, [], t)
  {
    if t.Leaf? {
      LeafText(t);
    } else {
      ExportedEntries(t);
      BookRoundTrip(Exported(t, []), []);
      assert BookText(Exported(t, [])) + [] == BookText(Exported(t, []));
    }
    var es := LoadCodeBook(text);
    if es.None? {
      return None, map[];
    }
    var node;
    node, paths := RebuildTrie(es.value, t);
    root := Some(node);
  }

  /** decompressFile: None where the original exits on an unexpected character. */
  method DecompressWith(data: seq<byte>, root: Node, ghost paths: Paths, ghost t: Tree) returns (r: Option<seq<byte>>)
    requires IsTrie(root, paths) && Mirrors(paths, [], t) && t.Node?
    ensures r == Decode(t, t, data)
  {
    var buffer := new Expandable();
    var ok := Decompress(buffer, data, root, paths, t);
    assert ok ==> [] + Decode(t, t, data).value == Decode(t, t, data).value;
    r := if ok then Some(buffer.Contents()) else None;
  }

  /** undoSingleShit on a compressed text and the code book of the tree t. */
  method DecompressFile(text: seq<byte>, data: seq<byte>, ghost t: Tree) returns (r: Option<seq<byte>>)
    requires Readable(t) && text == BookText(Exported(t, []))
    ensures r == if t.Leaf? then None else Decode(t, t, data)
  {
    var root;
    ghost var paths;
    root, paths := LoadTrie(text, t);
    if root.None? {
      return None;
    }
    r := DecompressWith(data, root.value, paths, t);
  }

  /** undoShits: the book is loaded once for all files. */
  method DecompressDirectory(text: seq<byte>, datas: seq<seq<byte>>, ghost t: Tree)
    returns (rs: seq<Option<seq<byte>>>)
    requires Readable(t) && text == BookText(Exported(t, []))
    ensures |rs| == |datas|
    ensures forall i :: 0 <= i < |datas| ==> rs[i] == if t.Leaf? then None else Decode(t, t, datas[i])
  {
    var root;
    ghost var paths;
    root, paths := LoadTrie(text, t);
    if root.None? {
      return seq(|datas|, _ => None);
    }
    rs := [];
    var i := 0;
    while i < |datas|
      invariant i <= |datas| && |rs| == i && forall k :: 0 <= k < i ==> rs[k] == Decode(t, t, datas[k])
      invariant IsTrie(root.value, paths) && Mirrors(paths, [], t)
    {
      var r := DecompressWith(datas[i], root.value, paths, t);
      rs := rs + [r];
      i := i + 1;
    }
  }

  // ---------- The round trip ----------

  ghost function Distinct(ts: seq<Token>): set<Token> {
    set x | x in ts
  }

  lemma {:induction false} AllTokensProper(files: seq<seq<byte>>, x: Token)
    requires x in AllTokens(files)
    ensures IsDelimToken(x) || IsRun(x)
  {
    var n := |files| - 1;
    if x in TokensOf(files[n]) {
      TokensOfIsTokenised(files[n]);
    } else {
      AllTokensProper(files[..n], x);
    }
  }

  lemma TallyIsReadable(t: Tree, files: seq<seq<byte>>)
    requires Tally(Leaves(t), AllTokens(files))
    ensures Readable(t)
  {
    forall i | 0 <= i < |Leaves(t)| ensures IsDelimToken(Leaves(t)[i].token) || IsRun(Leaves(t)[i].token) {
      AllTokensProper(files, Leaves(t)[i].token);
    }
  }

  lemma TwoInSet(s: set<Token>, x: Token, y: Token)
    requires x in s && y in s && x != y
    ensures |s| >= 2
  {
    assert {x, y} <= s && s == {x, y} + (s - {x, y});
    assert |{x, y}| == 2;
  }

  /** A Huffman tree is a single leaf just when there is a single distinct token. */
  lemma LoneLeaf(t: Tree, ts: seq<Token>)
    requires Tally(Leaves(t), ts)
    ensures t.Node? <==> |Distinct(ts)| >= 2
  {
    var x := Leaves(t)[0].token;
    if t.Leaf? {
      assert Distinct(ts) == {x} by {
        forall y | y in ts ensures y == x {
          var i :| 0 <= i < |Leaves(t)| && Leaves(t)[i].token == y;
        }
      }
    } else {
      TwoInSet(Distinct(ts), x, Leaves(t)[1].token);
    }
  }

  /** What was encoded under the book of a tree is decoded by the tree. */
  lemma DecodesBack(file: seq<byte>, data: seq<byte>, t: Tree, codes: map<Token, Code>)
    requires t.Node? && BookFor(codes, t) && EncodedBy(file, data, codes)
    ensures Decode(t, t, data) == Some(file)
  {
    DecodeEncode(TokensOf(file), t, codes);
    TokensOfIsTokenised(file);
  }

  lemma AllDecodeBack(files: seq<seq<byte>>, datas: seq<seq<byte>>, t: Tree, codes: map<Token, Code>)
    requires t.Node? && BookFor(codes, t) && |datas| == |files|
    requires forall i :: 0 <= i < |files| ==> EncodedBy(files[i], datas[i], codes)
    ensures forall i :: 0 <= i < |files| ==> Decode(t, t, datas[i]) == Some(files[i])
  {
    forall i | 0 <= i < |files| ensures Decode(t, t, datas[i]) == Some(files[i]) {
      assert EncodedBy(files[i], datas[i], codes);
      DecodesBack(files[i], datas[i], t, codes);
    }
  }

  lemma NothingToRecover(ts: seq<Token>)
    requires ts == []
    ensures |Distinct(ts)| == 0
  {
    assert Distinct(ts) == {};
  }

  /** What comes back of a file: all of it, or nothing when fewer than two distinct tokens
      went into the book. */
  ghost function Expected(file: seq<byte>, ts: seq<Token>): Option<seq<byte>> {
    if |Distinct(ts)| >= 2 then Some(file) else None
  }

  /** What decompressing needs to know about the book. */
  ghost predicate Usable(ts: seq<Token>, text: seq<byte>, t: Tree, codes: map<Token, Code>) {
    && Readable(t) && text == BookText(Exported(t, [])) && BookFor(codes, t)
    && (t.Node? <==> |Distinct(ts)| >= 2)
  }

  lemma TreeIsUsable(files: seq<seq<byte>>, t: Tree)
    requires Tally(Leaves(t), AllTokens(files))
    ensures Readable(t) && (t.Node? <==> |Distinct(AllTokens(files))| >= 2)
  {
    LoneLeaf(t, AllTokens(files));
    TallyIsReadable(t, files);
  }

  lemma BookIsUsable(files: seq<seq<byte>>, text: seq<byte>, t: Tree, codes: map<Token, Code>)
    requires BookOfTree(AllTokens(files), text, t, codes)
    ensures Usable(AllTokens(files), text, t, codes)
  {
    TreeIsUsable(files, t);
  }

  method RecoverAll(files: seq<seq<byte>>, text: seq<byte>, datas: seq<seq<byte>>,
                    ghost ts: seq<Token>, ghost t: Tree, ghost codes: map<Token, Code>)
    returns (rs: seq<Option<seq<byte>>>)
    requires Usable(ts, text, t, codes) && |datas| == |files|
    requires forall i :: 0 <= i < |files| ==> EncodedBy(files[i], datas[i], codes)
    ensures |rs| == |files| && forall i :: 0 <= i < |files| ==> rs[i] == Expected(files[i], ts)
  {
    if t.Node? {
      AllDecodeBack(files, datas, t, codes);
    }
    rs := DecompressDirectory(text, datas, t);
  }

  /** The run over all files, as far as decompressing needs to know about it. */
  method PackAll(files: seq<seq<byte>>)
    returns (packed: Option<(seq<byte>, seq<seq<byte>>)>, ghost t: Tree, ghost codes: map<Token, Code>)
    ensures packed.None? <==> AllTokens(files) == []
    ensures packed.Some? ==> Usable(AllTokens(files), packed.value.0, t, codes) && |packed.value.1| == |files|
    ensures packed.Some? ==> forall i :: 0 <= i < |files| ==> EncodedBy(files[i], packed.value.1[i], codes)
  {
    packed, t, codes := CompressDirectory(files);
    if packed.Some? {
      BookIsUsable(files, packed.value.0, t, codes);
    }
  }

  /** Counting over all files of a directory, building, exporting, writing, compressing each
      file, reading, rebuilding and decompressing each file gives back exactly the bytes of
      every file, if and only if the files together have at least two distinct tokens. */
  method CompressAndDecompressAll(files: seq<seq<byte>>) returns (rs: seq<Option<seq<byte>>>)
    ensures |rs| == |files| && forall i :: 0 <= i < |files| ==> rs[i] == Expected(files[i], AllTokens(files))
  {
    var packed;
    ghost var t, codes;
    packed, t, codes := PackAll(files);
    if packed.None? {
      NothingToRecover(AllTokens(files));
      return seq(|files|, _ => None);
    }
    rs := RecoverAll(files, packed.value.0, packed.value.1, AllTokens(files), t, codes);
  }

  method RecoverOne(file: seq<byte>, text: seq<byte>, data: seq<byte>,
                    ghost ts: seq<Token>, ghost t: Tree, ghost codes: map<Token, Code>)
    returns (r: Option<seq<byte>>)
    requires Usable(ts, text, t, codes) && EncodedBy(file, data, codes)
    ensures r == Expected(file, ts)
  {
    if t.Node? {
      DecodesBack(file, data, t, codes);
    }
    r := DecompressFile(text, data, t);
  }

  /** The same for a single file. */
  method CompressAndDecompress(file: seq<byte>) returns (r: Option<seq<byte>>)
    ensures r == Expected(file, TokensOf(file))
  {
    var packed;
    ghost var t, codes;
    packed, t, codes := CompressSingle(file);
    if packed.None? {
      NothingToRecover(TokensOf(file));
      return None;
    }
    TokensOfOne(file);
    BookIsUsable([file], packed.value.0, t, codes);
    r := RecoverOne(file, packed.value.0, packed.value.1, TokensOf(file), t, codes);
  }

  // ---------- Another file, with a book that exists ----------

  ghost function LeafTokens(t: Tree): set<Token> {
    set i | 0 <= i < |Leaves(t)| :: Leaves(t)[i].token
  }

  /** The book kept from the export of a tree has the exported code of every leaf. */
  lemma KeptFromTree(t: Tree)
    requires Readable(t)
    ensures var book := KeptBook(Exported(t, []));
      BookFor(book, t) && book.Keys == LeafTokens(t)
  {
    var es := Exported(t, []);
    forall i | 0 <= i < |es| ensures es[i].token == Leaves(t)[i].token {
      ExportedAt(t, [], i);
    }
    KeptAll(es);
    forall x | x in KeptBook(es) ensures exists i :: 0 <= i < |Leaves(t)| && es[i] == Entry(KeptBook(es)[x], x) {
      BookOfKeys(es, x);
    }
    forall x ensures x in KeptBook(es) <==> x in LeafTokens(t) {
      if x in KeptBook(es) {
        var i :| 0 <= i < |es| && es[i].token == x;
        assert x == Leaves(t)[i].token;
      }
      if i :| 0 <= i < |Leaves(t)| && x == Leaves(t)[i].token {
        assert es[i].token == x;
      }
    }
  }

  /** Compressing any file with the code book written for a tree, and decompressing it with
      the same book, gives the file back if and only if the tree has at least two leaves and
      a leaf for every token of the file. */
  method ReuseBook(text: seq<byte>, file: seq<byte>, ghost t: Tree) returns (r: Option<seq<byte>>)
    requires Readable(t) && text == BookText(Exported(t, []))
    ensures r == if t.Node? && Distinct(TokensOf(file)) <= LeafTokens(t) then Some(file) else None
  {
    KeptFromTree(t);
    ghost var book := KeptBook(Exported(t, []));
    if t.Leaf? {
      LeafText(t);
    } else {
      ExportedEntries(t);
      BookRoundTrip(Exported(t, []), []);
      assert BookText(Exported(t, [])) + [] == BookText(Exported(t, []));
    }
    var data := CompressWithBook(text, file);
    assert AllKnown(TokensOf(file), book) <==> Distinct(TokensOf(file)) <= LeafTokens(t);
    if data.None? {
      return None;
    }
    DecodesBack(file, data.value, t, book);
    r := DecompressFile(text, data.value, t);
  }
}
