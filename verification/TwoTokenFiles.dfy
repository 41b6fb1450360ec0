/** The book of a file with two tokens, down to its bytes. */
module TwoTokenFiles {
  import opened CTypes
  import opened Decimal
  import opened HuffmanTree
  import opened Export
  import opened Tokens
  import opened Codec
  import opened Codebook
  import opened Shortest
  import opened CodeWeights
  import opened Pipeline

  /** x and y are all the tokens, and x is the rarer one. */
  ghost predicate OnlyTwo(ts: seq<Token>, x: Token, y: Token) {
    x in ts && y in ts && (forall u :: u in ts ==> u == x || u == y) && multiset(ts)[x] < multiset(ts)[y]
  }

  lemma ThreeIsTooMany(ls: seq<Tree>, ts: seq<Token>, x: Token, y: Token)
    requires Tally(ls, ts) && |ls| > 2
    ensures !OnlyTwo(ts, x, y)
  {
    assert ls[0].token in ts && ls[1].token in ts && ls[2].token in ts;
  }

  lemma TwoLeavesOnly(ls: seq<Tree>, ts: seq<Token>, x: Token, y: Token)
    requires Tally(ls, ts) && OnlyTwo(ts, x, y)
    ensures |ls| == 2
    ensures (ls[0].token == x && ls[1].token == y) || (ls[0].token == y && ls[1].token == x)
    ensures (ls[0].token == x <==> ls[0].count < ls[1].count) && ls[0].count != ls[1].count
  {
    var i :| 0 <= i < |ls| && ls[i].token == x;
    var j :| 0 <= j < |ls| && ls[j].token == y;
    if |ls| > 2 {
      ThreeIsTooMany(ls, ts, x, y);
    }
  }

  lemma TwoLeafTree(t: Tree)
    requires |Leaves(t)| == 2
    ensures t.Node? && t.left.Leaf? && t.right.Leaf? && Leaves(t) == [t.left, t.right]
    ensures Exported(t, []) == [Entry([ZERO], t.left.token), Entry([ONE], t.right.token)]
  {
    assert |Leaves(t)| == |Leaves(t.left)| + |Leaves(t.right)|;
    assert [] + [ZERO] == [ZERO] && [] + [ONE] == [ONE];
  }

  lemma RarerIsLeft(ts: seq<Token>, t: Tree, codes: map<Token, Code>, x: Token, y: Token)
    requires LighterLeft(t) && Tally(Leaves(t), ts) && OnlyTwo(ts, x, y)
    ensures |Leaves(t)| == 2 && Exported(t, []) == [Entry([ZERO], x), Entry([ONE], y)]
    ensures Leaves(t)[0].token == x && Leaves(t)[1].token == y
  {
    TwoLeavesOnly(Leaves(t), ts, x, y);
    TwoLeafTree(t);
  }

  /** Of two tokens the rarer one gets the code 0 and the first line. */
  lemma RarerIsZero(ts: seq<Token>, text: seq<byte>, t: Tree, codes: map<Token, Code>, x: Token, y: Token)
    requires BookOfTree(ts, text, t, codes) && OnlyTwo(ts, x, y)
    ensures x in codes && codes[x] == [ZERO] && y in codes && codes[y] == [ONE]
    ensures text == BookText([Entry([ZERO], x), Entry([ONE], y)])
  {
    RarerIsLeft(ts, t, codes, x, y);
    CodesOfTwo(t, codes, x, y);
  }

  lemma CodesOfTwo(t: Tree, codes: map<Token, Code>, x: Token, y: Token)
    requires TreeBook(t, codes) && |Leaves(t)| == 2 && Leaves(t)[0].token == x && Leaves(t)[1].token == y
    requires Exported(t, []) == [Entry([ZERO], x), Entry([ONE], y)]
    ensures x in codes && codes[x] == [ZERO] && y in codes && codes[y] == [ONE]
  {
  }

  // ---------- A file, byte by byte ----------

  /** x, a blank, and x again. */
  const FILE: seq<byte> := [120, SPACE, 120]

  lemma ConcatNext(t: Token, ts: seq<Token>)
    ensures Concat([t] + ts) == t + Concat(ts)
  {
    assert ([t] + ts)[1..] == ts;
  }

  lemma FileTokens()
    ensures TokensOf(FILE) == [[120], [SPACE], [120]]
  {
    var ts: seq<Token> := [[120], [SPACE], [120]];
    assert ts == [[120]] + ([[SPACE]] + ([[120]] + []));
    ConcatNext([120], []);
    ConcatNext([SPACE], [[120]]);
    ConcatNext([120], [[SPACE], [120]]);
    assert Concat(ts) == FILE;
    TokenisationIsUnique(ts);
  }

  lemma FileCounts()
    ensures OnlyTwo(TokensOf(FILE), [SPACE], [120])
  {
    FileTokens();
    var ts: seq<Token> := [[120], [SPACE], [120]];
    assert multiset(ts) == multiset{[120], [SPACE], [120]};
    assert [SPACE][0] != [120][0];
  }

  lemma TwoLines(a: Entry, b: Entry)
    ensures Lines([a, b]) == Line(a) + Line(b)
  {
    LinesOneMore([a, b], 0);
    LinesOneMore([a, b], 1);
    assert [a, b][0..] == [a, b] && [a, b][2..] == [];
  }

  lemma FileBookText()
    ensures BookText([Entry([ZERO], [SPACE]), Entry([ONE], [120])]) == Text("2\n0\t020\n1\t1x\n")
  {
    var a, b := Entry([ZERO], [SPACE]), Entry([ONE], [120]);
    TwoLines(a, b);
    assert Line(a) == [ZERO, TAB, ZERO, 50, ZERO, NEWLINE];
    assert Line(b) == [ONE, TAB, ONE, 120, NEWLINE];
  }

  lemma EncodeThree(a: Token, b: Token, c: Token, codes: map<Token, Code>)
    requires a in codes && b in codes && c in codes
    ensures TryEncode([a, b, c], codes) == Some(codes[a] + codes[b] + codes[c])
  {
    TryEncodeNext(c, [], codes);
    TryEncodeNext(b, [c], codes);
    TryEncodeNext(a, [b, c], codes);
    assert [c] + [] == [c] && [b] + [c] == [b, c] && [a] + [b, c] == [a, b, c];
    assert codes[a] + codes[b] + codes[c] == codes[a] + (codes[b] + (codes[c] + []));
  }

  lemma OutputText()
    ensures [ONE] + [ZERO] + [ONE] == Text("101")
  {
  }

  /** The code book of the file "x x" is "2\n0\t020\n1\t1x\n", and its output is "101". */
  lemma BlankBetweenTwo(text: seq<byte>, data: seq<byte>, t: Tree, codes: map<Token, Code>)
    requires BookOfTree(TokensOf(FILE), text, t, codes) && EncodedBy(FILE, data, codes)
    ensures text == Text("2\n0\t020\n1\t1x\n") && data == Text("101")
  {
    FileTokens();
    FileCounts();
    FileBookText();
    RarerIsZero(TokensOf(FILE), text, t, codes, [SPACE], [120]);
    EncodeThree([120], [SPACE], [120], codes);
    OutputText();
    assert data == [ONE] + [ZERO] + [ONE];
  }
}
