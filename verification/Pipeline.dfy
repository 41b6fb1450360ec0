/** From a file to its code book and compressed text, and back. */
module Pipeline {
  import opened CTypes
  import opened HuffmanTree
  import opened MergeLoop
  import opened Export
  import opened Tokens
  import opened Expandables
  import opened Tokenizer
  import opened Codec
  import opened Codebook
  import opened Compressor
  import opened Shortest
  import opened CodeWeights

  // ---------- twalk and qsort: any order of the counted tokens, sorted by count ----------

  lemma {:induction false} LeastExists(rest: set<Token>, bst: map<Token, int>)
    requires rest != {} && rest <= bst.Keys
    ensures exists t :: t in rest && forall u :: u in rest ==> bst[t] <= bst[u]
  {
    var t :| t in rest;
    var others := rest - {t};
    if others != {} {
      LeastExists(others, bst);
      var s :| s in others && forall u :: u in others ==> bst[s] <= bst[u];
      var least := if bst[s] <= bst[t] then s else t;
      assert least in rest && forall u :: u in rest ==> bst[least] <= bst[u];
    } else {
      assert rest == {t};
    }
  }

  /** The leaves for all tokens but the rest, in ascending order of counts. */
  ghost predicate SortedLeaves(nodes: seq<Tree>, bst: map<Token, int>, rest: set<Token>) {
    && (forall i :: 0 <= i < |nodes| ==> IsLeafFor(nodes[i], bst, rest))
    && (forall i, j :: 0 <= i < j < |nodes| ==> nodes[i].count <= nodes[j].count && nodes[i] != nodes[j])
    && (forall t :: t in bst && t !in rest ==> Leaf(bst[t], t) in nodes)
    && (forall i, u :: 0 <= i < |nodes| && u in rest && u in bst ==> nodes[i].count <= bst[u])
  }

  ghost predicate IsLeafFor(node: Tree, bst: map<Token, int>, rest: set<Token>) {
    node.Leaf? && node.token in bst && node.token !in rest && node.count == bst[node.token]
  }

  lemma SortedOneMore(nodes: seq<Tree>, bst: map<Token, int>, rest: set<Token>, t: Token)
    requires SortedLeaves(nodes, bst, rest) && rest <= bst.Keys
    requires t in rest && forall u :: u in rest ==> bst[t] <= bst[u]
    ensures SortedLeaves(nodes + [Leaf(bst[t], t)], bst, rest - {t})
  {
    var more := nodes + [Leaf(bst[t], t)];
    forall i | 0 <= i < |more| ensures IsLeafFor(more[i], bst, rest - {t}) {
      assert i < |nodes| ==> more[i] == nodes[i] && IsLeafFor(nodes[i], bst, rest);
    }
    assert more[|nodes|] == Leaf(bst[t], t);
  }

  /** Takes the tokens out in some order of ascending counts; which of several tokens with
      the same count comes first is left open, as qsort leaves it. */
  method SortByCount(bst: map<Token, int>) returns (nodes: array<Tree>)
    ensures fresh(nodes) && nodes.Length == |bst| && SortedLeaves(nodes[..], bst, {})
  {
    var rest := bst.Keys;
    var out: seq<Tree> := [];
    while rest != {}
      invariant rest <= bst.Keys && |out| + |rest| == |bst|
      invariant SortedLeaves(out, bst, rest)
      decreases |rest|
    {
      LeastExists(rest, bst);
      var t :| t in rest && forall u :: u in rest ==> bst[t] <= bst[u];
      SortedOneMore(out, bst, rest, t);
      out := out + [Leaf(bst[t], t)];
      rest := rest - {t};
    }
    nodes := new Tree[|out|](i requires 0 <= i < |out| => out[i]);
    assert nodes[..] == out;
  }

  /** The counted leaves of a file are the tally of its tokens. */
  lemma CountedIsTally(ts: seq<Token>, bst: map<Token, int>, nodes: seq<Tree>)
    requires Counted(map[], ts, bst) && SortedLeaves(nodes, bst, {})
    ensures Tally(nodes, ts)
  {
    forall i | 0 <= i < |nodes|
      ensures nodes[i].Leaf? && nodes[i].token in ts && nodes[i].count == multiset(ts)[nodes[i].token]
    {
      assert IsLeafFor(nodes[i], bst, {});
    }
    forall i, j | 0 <= i < j < |nodes| ensures nodes[i].token != nodes[j].token {
      assert IsLeafFor(nodes[i], bst, {}) && IsLeafFor(nodes[j], bst, {});
    }
    forall x | x in ts ensures exists i :: 0 <= i < |nodes| && nodes[i].token == x {
      assert Leaf(bst[x], x) in nodes;
    }
  }

  // ---------- The tree and its book ----------

  /** counting over all files, then buildHuffmanTreeFromBSTree. Without any token there is no
      first node to look at; the original reads through a null pointer there. */
  method BuildTree(files: seq<seq<byte>>) returns (r: Option<Tree>, ghost leaves: seq<Tree>)
    ensures r.None? <==> AllTokens(files) == []
    ensures r.Some? ==> HuffmanTreeOf(r.value, leaves) && Tally(leaves, AllTokens(files))
  {
    var bst := CountingAll(files);
    var nodes := SortByCount(bst);
    leaves := nodes[..];
    CountedIsTally(AllTokens(files), bst, leaves);
    TokensWithoutLeaves(leaves, AllTokens(files));
    if nodes.Length == 0 {
      return None, leaves;
    }
    forall i | 0 <= i < nodes.Length ensures nodes[i].Leaf? {
      assert IsLeafFor(leaves[i], bst, {});
    }
    var tree := BuildHuffmanTreeFromNodesArray(nodes, nodes.Length);
    r := Some(tree);
  }

  lemma TokensWithoutLeaves(ls: seq<Tree>, ts: seq<Token>)
    requires Tally(ls, ts)
    ensures ls == [] <==> ts == []
  {
    if ts != [] {
      TallyNotEmpty(ls, ts);
    } else if ls != [] {
      LeavesNeedTokens(ls, ts);
      assert false;
    }
  }

  lemma LeavesNeedTokens(ls: seq<Tree>, ts: seq<Token>)
    requires Tally(ls, ts) && ls != []
    ensures ts != []
  {
    assert ls[0].token in ts;
  }

  /** exportCodeFromHuffmanTree, then dumpCodeBookToFileRaw: the scratch buffer of size + 1
      characters and the arrays of size entries are large enough. */
  method ExportBook(tree: Tree) returns (text: seq<byte>, book: map<Token, Code>)
    ensures text == BookText(Exported(tree, [])) && book == BookOf(Exported(tree, []))
  {
    var size := |Leaves(tree)|;
    HeightBound(tree);
    var exporter := new Exporter(size);
    exporter.TraverseTreePrefix(tree);
    ghost var es := Exported(tree, []);
    assert exporter.out == es;
    var content := DumpCodeBook(exporter.codes, exporter.words, size, es);
    text, book := content.Contents(), exporter.book;
  }

  /** The book and its text come from the tree t over the tokens ts. */
  ghost predicate BookOfTree(ts: seq<Token>, text: seq<byte>, t: Tree, codes: map<Token, Code>) {
    && FromTree(t, ts, codes) && AllKnown(ts, codes)
    && text == BookText(Exported(t, []))
  }

  lemma BookIsRight(t: Tree, leaves: seq<Tree>, ts: seq<Token>, book: map<Token, Code>)
    requires HuffmanTreeOf(t, leaves) && Tally(leaves, ts) && book == BookOf(Exported(t, []))
    ensures Tally(Leaves(t), ts) && TreeBook(t, book) && BookFor(book, t) && AllKnown(ts, book)
  {
    TallyPermuted(leaves, Leaves(t), ts);
    ExportIsTreeBook(t, ts);
    TreeBookKnowsAll(t, ts, book);
  }

  lemma BookIsFromTree(t: Tree, ts: seq<Token>, book: map<Token, Code>)
    requires Consistent(t) && LighterLeft(t)
    requires Tally(Leaves(t), ts) && TreeBook(t, book) && BookFor(book, t)
    ensures FromTree(t, ts, book)
  {
  }

  // ---------- Compressing ----------

  /** The output for a file: its encoding under the codes. */
  ghost predicate EncodedBy(file: seq<byte>, data: seq<byte>, codes: map<Token, Code>) {
    TryEncode(TokensOf(file), codes) == Some(data)
  }

  /** No prefix-free code for the tokens needs fewer characters for all of them. */
  ghost predicate ShortestFor(ts: seq<Token>, length: nat) {
    forall other :: AllKnown(ts, other) && PrefixFreeBook(other) ==> length <= |Encode(ts, other)|
  }

  lemma OptimalLength(t: Tree, leaves: seq<Tree>, ts: seq<Token>, codes: map<Token, Code>)
    requires HuffmanTreeOf(t, leaves) && Tally(leaves, ts) && TreeBook(t, codes) && AllKnown(ts, codes)
    ensures ShortestFor(ts, |Encode(ts, codes)|)
  {
    forall other | AllKnown(ts, other) && PrefixFreeBook(other)
      ensures |Encode(ts, codes)| <= |Encode(ts, other)|
    {
      HuffmanIsOptimal(t, leaves, ts, codes, other);
    }
  }

  /** compressFile, with the buffer that is used for one file after the other. */
  method CompressFile(buffer: Expandable, file: seq<byte>, book: map<Token, Code>) returns (r: Option<seq<byte>>)
    requires buffer.Valid() && buffer.Contents() == []
    modifies buffer, buffer.data
    ensures buffer.Valid() && (buffer.data == old(buffer.data) || fresh(buffer.data))
    ensures r.Some? ==> buffer.Contents() == []
    ensures r == TryEncode(TokensOf(file), book)
  {
    var ok := Compress(buffer, file, book);
    if !ok {
      return None;
    }
    r := Some(buffer.Contents());
    assert [] + Encode(TokensOf(file), book) == Encode(TokensOf(file), book);
    buffer.Reset();
  }

  function TotalLength(datas: seq<seq<byte>>): nat {
    if datas == [] then 0 else TotalLength(datas[..|datas| - 1]) + |datas[|datas| - 1]|
  }

  lemma {:induction false} TotalIsLengthOfAll(files: seq<seq<byte>>, datas: seq<seq<byte>>, codes: map<Token, Code>)
    requires |datas| == |files| && forall i :: 0 <= i < |files| ==> EncodedBy(files[i], datas[i], codes)
    ensures AllKnown(AllTokens(files), codes) && TotalLength(datas) == |Encode(AllTokens(files), codes)|
  {
    if files != [] {
      var n := |files| - 1;
      forall i | 0 <= i < n ensures EncodedBy(files[..n][i], datas[..n][i], codes) {
        assert EncodedBy(files[i], datas[i], codes);
      }
      TotalIsLengthOfAll(files[..n], datas[..n], codes);
      assert EncodedBy(files[n], datas[n], codes);
      EncodeAppend(AllTokens(files[..n]), TokensOf(files[n]), codes);
    }
  }

  /** The loop over the files, when all their tokens are in the book. */
  method CompressFiles(files: seq<seq<byte>>, book: map<Token, Code>) returns (datas: seq<seq<byte>>)
    requires AllKnown(AllTokens(files), book)
    ensures |datas| == |files| && forall i :: 0 <= i < |files| ==> EncodedBy(files[i], datas[i], book)
  {
    var buffer := new Expandable();
    datas := [];
    var i := 0;
    while i < |files|
      invariant i <= |files| && |datas| == i && forall k :: 0 <= k < i ==> EncodedBy(files[k], datas[k], book)
      invariant fresh(buffer) && fresh(buffer.data) && buffer.Valid() && buffer.Contents() == []
    {
      FileIsKnown(files, i, book);
      var data := CompressFile(buffer, files[i], book);
      datas := datas + [data.value];
      i := i + 1;
    }
  }

  lemma FileIsKnown(files: seq<seq<byte>>, i: nat, book: map<Token, Code>)
    requires i < |files| && AllKnown(AllTokens(files), book)
    ensures AllKnown(TokensOf(files[i]), book)
  {
    forall t | t in TokensOf(files[i]) ensures t in book {
      TokensAmongAll(files, i, t);
    }
  }

  /** Exports the book of the tree. */
  method BookFromTree(tree: Tree, ghost leaves: seq<Tree>, ghost ts: seq<Token>)
    returns (text: seq<byte>, book: map<Token, Code>)
    requires HuffmanTreeOf(tree, leaves) && Tally(leaves, ts)
    ensures BookOfTree(ts, text, tree, book)
    ensures ShortestFor(ts, |Encode(ts, book)|) && ZeroIsLighter(ts, book)
  {
    text, book := ExportBook(tree);
    BookIsRight(tree, leaves, ts, book);
    BookIsFromTree(tree, ts, book);
    OptimalLength(tree, leaves, ts, book);
    BookZeroIsLighter(tree, ts, book);
  }

  /** doShits without a code book: one book for all files, unless they hold no token at all.
      No prefix-free code for their tokens makes the outputs together shorter, and wherever
      codes branch the lighter half of the tokens goes on with 0. */
  method CompressDirectory(files: seq<seq<byte>>)
    returns (r: Option<(seq<byte>, seq<seq<byte>>)>, ghost t: Tree, ghost codes: map<Token, Code>)
    ensures r.None? <==> AllTokens(files) == []
    ensures r.Some? ==> BookOfTree(AllTokens(files), r.value.0, t, codes) && |r.value.1| == |files|
    ensures r.Some? ==> forall i :: 0 <= i < |files| ==> EncodedBy(files[i], r.value.1[i], codes)
    ensures r.Some? ==> ShortestFor(AllTokens(files), TotalLength(r.value.1)) && ZeroIsLighter(AllTokens(files), codes)
  {
    var tree;
    ghost var leaves;
    t, codes := Leaf(0, []), map[];
    tree, leaves := BuildTree(files);
    if tree.None? {
      return None, t, codes;
    }
    t := tree.value;
    var text, book := BookFromTree(tree.value, leaves, AllTokens(files));
    codes := book;
    var datas := CompressFiles(files, book);
    TotalIsLengthOfAll(files, datas, codes);
    r := Some((text, datas));
  }

  lemma OneOutput(file: seq<byte>, datas: seq<seq<byte>>, codes: map<Token, Code>)
    requires |datas| == 1 && forall i :: 0 <= i < |[file]| ==> EncodedBy([file][i], datas[i], codes)
    ensures EncodedBy(file, datas[0], codes) && TotalLength(datas) == |datas[0]|
  {
    assert EncodedBy([file][0], datas[0], codes);
    assert datas[..0] == [];
  }

  /** doSingleShit without a code book: a code book and a compressed text for every file
      that is not empty; no prefix-free code compresses the file's tokens further, and wherever
      codes branch the lighter half of the tokens goes on with 0. */
  method CompressSingle(file: seq<byte>)
    returns (r: Option<(seq<byte>, seq<byte>)>, ghost t: Tree, ghost codes: map<Token, Code>)
    ensures r.None? <==> file == []
    ensures r.Some? ==> BookOfTree(TokensOf(file), r.value.0, t, codes) && EncodedBy(file, r.value.1, codes)
    ensures r.Some? ==> ShortestFor(TokensOf(file), |r.value.1|) && ZeroIsLighter(TokensOf(file), codes)
  {
    var all;
    all, t, codes := CompressDirectory([file]);
    TokensOfOne(file);
    if all.None? {
      return None, t, codes;
    }
    OneOutput(file, all.value.1, codes);
    r := Some((all.value.0, all.value.1[0]));
  }

  // ---------- Compressing with an existing book ----------

  /** The entries that the search tree keeps: a token that is already there stays. */
  function KeptBook(es: seq<Entry>): map<Token, Code> {
    if es == [] then map[]
    else
      var n := |es| - 1;
      var before := KeptBook(es[..n]);
      if es[n].token in before then before else before[es[n].token := es[n].code]
  }

  /** Entry i is the first one for its token. */
  ghost predicate FirstFor(es: seq<Entry>, i: nat, x: Token) {
    i < |es| && es[i].token == x && forall j :: 0 <= j < i ==> es[j].token != x
  }

  lemma {:induction false} KeptIsFirst(es: seq<Entry>, x: Token)
    ensures x in KeptBook(es) <==> exists i :: 0 <= i < |es| && es[i].token == x
    ensures x in KeptBook(es) ==> exists i: nat :: FirstFor(es, i, x) && KeptBook(es)[x] == es[i].code
  {
    if es != [] {
      var n := |es| - 1;
      KeptIsFirst(es[..n], x);
      if i :| 0 <= i < |es| && es[i].token == x {
        assert i < n ==> es[..n][i].token == x;
      }
      if x in KeptBook(es[..n]) {
        var i: nat :| FirstFor(es[..n], i, x) && KeptBook(es[..n])[x] == es[..n][i].code;
        assert FirstFor(es, i, x);
      } else if es[n].token == x {
        forall j | 0 <= j < n ensures es[j].token != x {
          assert es[..n][j].token == es[j].token;
        }
        assert FirstFor(es, n, x);
      }
    }
  }

  /** addNodeToBST for one entry after the other. */
  method KeepEntries(es: seq<Entry>) returns (book: map<Token, Code>)
    ensures book == KeptBook(es)
  {
    book := map[];
    var i := 0;
    assert es[..0] == [];
    while i < |es|
      invariant i <= |es| && book == KeptBook(es[..i])
    {
      assert es[..i + 1][..i] == es[..i];
      if es[i].token !in book {
        book := book[es[i].token := es[i].code];
      }
      i := i + 1;
    }
    assert es[..|es|] == es;
  }

  /** doSingleShit with a code book. None is where the original ends: an unreadable book, or
      a token that has no entry. */
  method CompressWithBook(text: seq<byte>, file: seq<byte>) returns (r: Option<seq<byte>>)
    ensures r == match ReadBook(text) {
      case None => None
      case Some(es) => TryEncode(TokensOf(file), KeptBook(es))
    }
  {
    var es := LoadCodeBook(text);
    if es.None? {
      return None;
    }
    var book := KeepEntries(es.value);
    var buffer := new Expandable();
    r := CompressFile(buffer, file, book);
  }

  ghost predicate DistinctEntries(es: seq<Entry>) {
    forall i, j :: 0 <= i < j < |es| ==> es[i].token != es[j].token
  }

  /** With distinct tokens every entry is kept. */
  lemma {:induction false} KeptAll(es: seq<Entry>)
    requires DistinctEntries(es)
    ensures KeptBook(es) == BookOf(es)
    ensures forall x :: x in KeptBook(es) <==> exists i :: 0 <= i < |es| && es[i].token == x
  {
    if es != [] {
      var n := |es| - 1;
      KeptAll(es[..n]);
      forall x ensures x in KeptBook(es) <==> exists i :: 0 <= i < |es| && es[i].token == x {
        if i :| 0 <= i < |es| && es[i].token == x {
          assert i < n ==> es[..n][i].token == x;
        }
      }
    }
  }
}
