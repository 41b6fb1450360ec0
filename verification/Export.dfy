/** Exporting the codes of a Huffman tree by prefix traversal. */
module Export {
  import opened CTypes
  import opened KraftSums
  import opened HuffmanTree

  datatype Entry = Entry(code: Code, token: Token)

  /** The leaves' codes and tokens, from left to right: 0 for left and 1 for right. */
  function Exported(t: Tree, prefix: Code): (es: seq<Entry>)
    ensures |es| == |Leaves(t)|
  {
    if t.Leaf? then [Entry(prefix, t.token)]
    else Exported(t.left, prefix + [ZERO]) + Exported(t.right, prefix + [ONE])
  }

  function Codes(es: seq<Entry>): (cs: seq<Code>)
    ensures |cs| == |es|
  {
    if es == [] then [] else [es[0].code] + Codes(es[1..])
  }

  function Words(es: seq<Entry>): (ws: seq<Token>)
    ensures |ws| == |es|
  {
    if es == [] then [] else [es[0].token] + Words(es[1..])
  }

  lemma {:induction false} CodesAt(es: seq<Entry>, i: nat)
    requires i < |es|
    ensures Codes(es)[i] == es[i].code && Words(es)[i] == es[i].token
  {
    if i > 0 {
      CodesAt(es[1..], i - 1);
    }
  }

  lemma {:induction false} CodesAppend(a: seq<Entry>, b: seq<Entry>)
    ensures Codes(a + b) == Codes(a) + Codes(b)
  {
    if a == [] {
      assert a + b == b;
    } else {
      CodesAppend(a[1..], b);
      assert (a + b)[1..] == a[1..] + b;
      Associative([a[0].code], Codes(a[1..]), Codes(b));
    }
  }

  lemma {:induction false} ExportedAt(t: Tree, prefix: Code, i: nat)
    requires i < |Leaves(t)|
    ensures var e := Exported(t, prefix)[i];
      prefix <= e.code && |e.code| <= |prefix| + Height(t) && e.token == Leaves(t)[i].token
  {
    if t.Node? {
      var n := |Leaves(t.left)|;
      if i < n {
        ExportedAt(t.left, prefix + [ZERO], i);
        PrefixOfLonger(prefix, ZERO, Exported(t.left, prefix + [ZERO])[i].code);
      } else {
        ExportedAt(t.right, prefix + [ONE], i - n);
        PrefixOfLonger(prefix, ONE, Exported(t.right, prefix + [ONE])[i - n].code);
      }
    }
  }

  lemma PrefixOfLonger(prefix: Code, b: Bit, c: Code)
    requires prefix + [b] <= c
    ensures prefix <= c && |c| > |prefix| && c[|prefix|] == b
  {
    assert c[..|prefix| + 1] == prefix + [b];
  }

  // ---------- Prefix-free and complete ----------

  /** No exported code is a prefix of another one. */
  lemma {:induction false} ExportedPrefixFree(t: Tree, prefix: Code, i: nat, j: nat)
    requires i < j < |Leaves(t)|
    ensures Unrelated(Exported(t, prefix)[i].code, Exported(t, prefix)[j].code)
  {
    var n := |Leaves(t.left)|;
    if j < n {
      ExportedPrefixFree(t.left, prefix + [ZERO], i, j);
    } else if i >= n {
      ExportedPrefixFree(t.right, prefix + [ONE], i - n, j - n);
    } else {
      ExportedAt(t.left, prefix + [ZERO], i);
      ExportedAt(t.right, prefix + [ONE], j - n);
      var c, d := Exported(t, prefix)[i].code, Exported(t, prefix)[j].code;
      PrefixOfLonger(prefix, ZERO, c);
      PrefixOfLonger(prefix, ONE, d);
    }
  }

  lemma {:induction false} ExportedNoLonger(t: Tree, prefix: Code, m: nat)
    requires |prefix| + Height(t) <= m
    ensures NoLonger(Codes(Exported(t, prefix)), m)
  {
    var es := Exported(t, prefix);
    forall i | 0 <= i < |es| ensures |Codes(es)[i]| <= m {
      CodesAt(es, i);
      ExportedAt(t, prefix, i);
    }
  }

  lemma {:induction false} KraftSumAppend(a: seq<Code>, b: seq<Code>, m: nat)
    requires NoLonger(a, m) && NoLonger(b, m)
    ensures NoLonger(a + b, m)
    ensures KraftSum(a + b, m) == KraftSum(a, m) + KraftSum(b, m)
  {
    if a == [] {
      assert a + b == b;
    } else {
      KraftSumAppend(a[1..], b, m);
      assert (a + b)[1..] == a[1..] + b;
    }
  }

  /** The exported codes are complete: their Kraft sum is exactly that of the prefix, which
      for a whole tree (empty prefix) is one, so no further code could be added. */
  lemma {:induction false} ExportedComplete(t: Tree, prefix: Code, m: nat)
    requires |prefix| + Height(t) <= m
    ensures NoLonger(Codes(Exported(t, prefix)), m)
    ensures KraftSum(Codes(Exported(t, prefix)), m) == Pow2(m - |prefix|)
  {
    ExportedNoLonger(t, prefix, m);
    if t.Node? {
      var l, r := Exported(t.left, prefix + [ZERO]), Exported(t.right, prefix + [ONE]);
      ExportedComplete(t.left, prefix + [ZERO], m);
      ExportedComplete(t.right, prefix + [ONE], m);
      CodesAppend(l, r);
      KraftSumAppend(Codes(l), Codes(r), m);
    } else {
      assert Codes(Exported(t, prefix)) == [prefix];
      assert [prefix][1..] == [];
    }
  }

  /** The export is a prefix code: one code per leaf, none a prefix of another, and none
      longer than the number of leaves less one. */
  lemma ExportIsPrefixCode(t: Tree)
    ensures PrefixFree(Codes(Exported(t, [])))
    ensures NoLonger(Codes(Exported(t, [])), |Leaves(t)| - 1)
  {
    var es := Exported(t, []);
    forall i, j | 0 <= i < j < |es| ensures Unrelated(Codes(es)[i], Codes(es)[j]) {
      ExportedPrefixFree(t, [], i, j);
      CodesAt(es, i);
      CodesAt(es, j);
    }
    HeightBound(t);
    ExportedNoLonger(t, [], |Leaves(t)| - 1);
  }

  lemma ExportedWords(t: Tree, prefix: Code)
    ensures Words(Exported(t, prefix)) == Tokens(Leaves(t))
  {
    var es := Exported(t, prefix);
    forall i | 0 <= i < |es| ensures Words(es)[i] == Leaves(t)[i].token {
      ExportedAt(t, prefix, i);
      CodesAt(es, i);
    }
  }

  function Tokens(ls: seq<Tree>): (ts: seq<Token>)
    requires forall i :: 0 <= i < |ls| ==> ls[i].Leaf?
    ensures |ts| == |ls| && forall i :: 0 <= i < |ls| ==> ts[i] == ls[i].token
  {
    if ls == [] then [] else [ls[0].token] + Tokens(ls[1..])
  }

  // ---------- The book: the codes field of the token nodes ----------

  function BookOf(es: seq<Entry>): map<Token, Code> {
    if es == [] then map[] else BookOf(es[..|es| - 1])[es[|es| - 1].token := es[|es| - 1].code]
  }

  // ---------- TraverseTreePrefix ----------

  class Exporter {
    const codes: array<Code>
    const words: array<Token>
    const curr: array<byte>
    var nowcode: nat
    var nowword: nat
    var book: map<Token, Code>
    /** The path from the root to the current node, which the scratch buffer spells. */
    ghost var path: Code
    /** What has been written so far. */
    ghost var out: seq<Entry>

    /** exportCodeFromHuffmanTree: a scratch buffer of size + 1 characters, and room for
        one code and one word per leaf. */
    constructor (size: nat)
      ensures fresh(codes) && fresh(words) && fresh(curr)
      ensures codes.Length == size && curr.Length == size + 1
      ensures Valid() && path == [] && out == []
    {
      codes := new Code[size](_ => []);
      words := new Token[size](_ => []);
      curr := new byte[size + 1](_ => 0);
      nowcode, nowword, book, path, out := 0, 0, map[], [], [];
    }

    ghost predicate Valid()
      reads this, codes, words, curr
    {
      && nowcode == |path| <= curr.Length
      && (forall i :: 0 <= i < |path| ==> curr[i] == path[i])
      && nowword == |out| <= codes.Length == words.Length
      && (forall i :: 0 <= i < |out| ==> codes[i] == out[i].code && words[i] == out[i].token)
      && book == BookOf(out)
      && (codes as object) != (words as object) && (codes as object) != (curr as object)
      && (words as object) != (curr as object)
    }

    /** "Begin Accessing": one more character in the scratch buffer. */
    method Descend(b: Bit)
      requires Valid() && nowcode < curr.Length
      modifies this`nowcode, this`path, curr
      ensures Valid() && path == old(path) + [b]
    {
      curr[nowcode] := b;
      nowcode := nowcode + 1;
      path := path + [b];
    }

    /** "Finished Accessing": the last character is taken back. */
    method Ascend()
      requires Valid() && nowcode > 0
      modifies this`nowcode, this`path, curr
      ensures Valid() && path == old(path[..nowcode - 1])
    {
      nowcode := nowcode - 1;
      curr[nowcode] := 0;
      path := path[..nowcode];
    }

    /** The edge of the tree: the scratch buffer is the code of the leaf's word. */
    method Emit(leaf: Tree)
      requires Valid() && leaf.Leaf? && nowcode < curr.Length && nowword < words.Length
      modifies this`nowword, this`book, this`out, codes, words, curr
      ensures Valid() && out == old(out) + [Entry(path, leaf.token)]
    {
      curr[nowcode] := 0;
      var stuff: Code := curr[..nowcode];
      assert stuff == path;
      words[nowword] := leaf.token;
      codes[nowword] := stuff;
      book := book[leaf.token := stuff];
      nowword := nowword + 1;
      out := out + [Entry(path, leaf.token)];
      assert out[..|out| - 1] == old(out);
    }

    /** Writes code and word of every leaf below the node behind those written so far, sets
        the codes of their tokens, and leaves the scratch buffer's prefix as it was. */
    method TraverseTreePrefix(node: Tree)
      requires Valid()
      requires nowcode + Height(node) < curr.Length && nowword + |Leaves(node)| <= words.Length
      modifies this, codes, words, curr
      ensures Valid() && path == old(path) && out == old(out) + Exported(node, path)
      decreases node
    {
      if node.Leaf? {
        Emit(node);
        return;
      }
      ghost var start, left, right := out, Exported(node.left, path + [ZERO]), Exported(node.right, path + [ONE]);
      Descend(ZERO);
      TraverseTreePrefix(node.left);
      Ascend();
      Descend(ONE);
      TraverseTreePrefix(node.right);
      Ascend();
      Associative(start, left, right);
    }
  }
}
