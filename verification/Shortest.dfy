/** The compressed text is as short as any prefix-free binary code can make it. */
module Shortest {
  import opened CTypes
  import opened KraftSums
  import opened Optimality
  import opened HuffmanTree
  import opened Export
  import opened Codec

  /** The leaves are the distinct tokens of ts with their numbers of occurrences. */
  ghost predicate Tally(ls: seq<Tree>, ts: seq<Token>) {
    && (forall i :: 0 <= i < |ls| ==> ls[i].Leaf? && ls[i].token in ts && ls[i].count == multiset(ts)[ls[i].token])
    && (forall i, j :: 0 <= i < j < |ls| ==> ls[i].token != ls[j].token)
    && (forall x :: x in ts ==> exists i :: 0 <= i < |ls| && ls[i].token == x)
  }

  // ---------- The length of an encoding ----------

  /** ts without the token x. */
  function Drop(ts: seq<Token>, x: Token): seq<Token> {
    if ts == [] then [] else if ts[0] == x then Drop(ts[1..], x) else [ts[0]] + Drop(ts[1..], x)
  }

  lemma {:induction false} DropCounts(ts: seq<Token>, x: Token, y: Token)
    ensures multiset(Drop(ts, x))[y] == if y == x then 0 else multiset(ts)[y]
  {
    if ts != [] {
      assert ts == [ts[0]] + ts[1..];
      DropCounts(ts[1..], x, y);
    }
  }

  lemma DropMembers(ts: seq<Token>, x: Token)
    ensures forall y :: y in Drop(ts, x) <==> y in ts && y != x
  {
    forall y ensures y in Drop(ts, x) <==> y in ts && y != x {
      DropCounts(ts, x, y);
      assert y in Drop(ts, x) <==> y in multiset(Drop(ts, x));
      assert y in ts <==> y in multiset(ts);
    }
  }

  lemma CountFirst(ts: seq<Token>, x: Token)
    requires ts != []
    ensures multiset(ts)[x] == multiset(ts[1..])[x] + if ts[0] == x then 1 else 0
  {
    assert ts == [ts[0]] + ts[1..];
  }

  lemma EncodeFirst(ts: seq<Token>, book: map<Token, Code>)
    requires ts != [] && AllKnown(ts, book)
    ensures ts[0] in book && AllKnown(ts[1..], book)
    ensures |Encode(ts, book)| == |book[ts[0]]| + |Encode(ts[1..], book)|
  {
    assert ts[0] in ts;
    forall y | y in ts[1..] ensures y in book {
      assert y in ts;
    }
  }

  lemma {:induction false} DropLength(ts: seq<Token>, x: Token, book: map<Token, Code>)
    requires AllKnown(ts, book) && x in book
    ensures AllKnown(Drop(ts, x), book)
    ensures |Encode(ts, book)| == |Encode(Drop(ts, x), book)| + Times(multiset(ts)[x], |book[x]|)
  {
    DropMembers(ts, x);
    if ts == [] {
      TimesIsProduct(0, |book[x]|);
    } else {
      EncodeFirst(ts, book);
      CountFirst(ts, x);
      DropLength(ts[1..], x, book);
      if ts[0] == x {
        TimesAdd(1, multiset(ts[1..])[x], |book[x]|);
        TimesIsProduct(1, |book[x]|);
      } else {
        var d := Drop(ts, x);
        assert d[0] == ts[0] && d[1..] == Drop(ts[1..], x);
        EncodeFirst(d, book);
      }
    }
  }

  /** The leaves' counts with the lengths of their tokens' codes. */
  function CodedBy(ls: seq<Tree>, book: map<Token, Code>): Coded
    requires forall i :: 0 <= i < |ls| ==> ls[i].Leaf? && ls[i].token in book
  {
    if ls == [] then End else Item(ls[0].count, |book[ls[0].token]|, CodedBy(ls[1..], book))
  }

  lemma TallyRest(ls: seq<Tree>, ts: seq<Token>)
    requires Tally(ls, ts) && ls != []
    ensures Tally(ls[1..], Drop(ts, ls[0].token))
  {
    var x, us := ls[0].token, Drop(ts, ls[0].token);
    DropMembers(ts, x);
    forall i | 0 <= i < |ls[1..]|
      ensures ls[1..][i].token in us && ls[1..][i].count == multiset(us)[ls[1..][i].token]
    {
      assert ls[1..][i] == ls[i + 1];
      DropCounts(ts, x, ls[i + 1].token);
    }
    forall y | y in us ensures exists i :: 0 <= i < |ls[1..]| && ls[1..][i].token == y {
      var i :| 0 <= i < |ls| && ls[i].token == y;
      assert ls[1..][i - 1].token == y;
    }
  }

  lemma TallyNotEmpty(ls: seq<Tree>, ts: seq<Token>)
    requires Tally(ls, ts) && ts != []
    ensures ls != []
  {
    assert ts[0] in ts;
  }

  /** An encoding is as long as the sum over the tokens of count times code length. */
  lemma {:induction false} EncodedLength(ls: seq<Tree>, ts: seq<Token>, book: map<Token, Code>)
    requires Tally(ls, ts) && AllKnown(ts, book)
    ensures |Encode(ts, book)| == Cost(CodedBy(ls, book))
  {
    if ls == [] {
      if ts != [] {
        TallyNotEmpty(ls, ts);
        assert false;
      }
    } else {
      var x := ls[0].token;
      TallyRest(ls, ts);
      DropMembers(ts, x);
      EncodedLength(ls[1..], Drop(ts, x), book);
      DropLength(ts, x, book);
    }
  }

  // ---------- The Huffman book ----------

  /** The leaves' counts with the lengths of the codes exported for them. */
  function CodedAs(ls: seq<Tree>, es: seq<Entry>): Coded
    requires |ls| == |es|
  {
    if ls == [] then End else Item(ls[0].count, |es[0].code|, CodedAs(ls[1..], es[1..]))
  }

  lemma {:induction false} CodedAsAppend(ls: seq<Tree>, es: seq<Entry>, ls': seq<Tree>, es': seq<Entry>)
    requires |ls| == |es| && |ls'| == |es'|
    ensures Cost(CodedAs(ls + ls', es + es')) == Cost(CodedAs(ls, es)) + Cost(CodedAs(ls', es'))
  {
    if ls == [] {
      assert ls + ls' == ls' && es + es' == es';
    } else {
      CodedAsAppend(ls[1..], es[1..], ls', es');
      assert (ls + ls')[1..] == ls[1..] + ls' && (es + es')[1..] == es[1..] + es';
    }
  }

  /** The weighted code length of a tree is the sum of its inner counts. */
  lemma {:induction false} TreeCost(t: Tree, prefix: Code)
    requires Consistent(t)
    ensures Cost(CodedAs(Leaves(t), Exported(t, prefix))) == InnerSum(t) + Times(t.count, |prefix|)
  {
    if t.Leaf? {
      assert Leaves(t)[1..] == [] && Exported(t, prefix)[1..] == [];
    } else {
      TreeCost(t.left, prefix + [ZERO]);
      TreeCost(t.right, prefix + [ONE]);
      CodedAsAppend(Leaves(t.left), Exported(t.left, prefix + [ZERO]),
                    Leaves(t.right), Exported(t.right, prefix + [ONE]));
      TimesAdd(t.left.count, t.right.count, |prefix| + 1);
    }
  }

  lemma {:induction false} BookOfEntry(es: seq<Entry>, i: nat)
    requires i < |es|
    requires forall j, k :: 0 <= j < k < |es| ==> es[j].token != es[k].token
    ensures es[i].token in BookOf(es) && BookOf(es)[es[i].token] == es[i].code
  {
    if i < |es| - 1 {
      BookOfEntry(es[..|es| - 1], i);
    }
  }

  lemma {:induction false} BookOfKeys(es: seq<Entry>, x: Token)
    requires x in BookOf(es)
    ensures exists i :: 0 <= i < |es| && es[i] == Entry(BookOf(es)[x], x)
  {
    var n := |es| - 1;
    if es[n].token == x {
      assert es[n] == Entry(BookOf(es)[x], x);
    } else {
      BookOfKeys(es[..n], x);
      var i :| 0 <= i < n && es[..n][i] == Entry(BookOf(es[..n])[x], x);
      assert es[i] == Entry(BookOf(es)[x], x);
    }
  }

  /** The book gives every leaf's token its exported code. */
  ghost predicate TreeBook(t: Tree, book: map<Token, Code>) {
    forall i :: 0 <= i < |Leaves(t)| ==>
      Leaves(t)[i].token in book && book[Leaves(t)[i].token] == Exported(t, [])[i].code
  }

  lemma EntriesAreBooked(t: Tree)
    requires var es := Exported(t, []); forall j, k :: 0 <= j < k < |es| ==> es[j].token != es[k].token
    ensures TreeBook(t, BookOf(Exported(t, [])))
  {
    var es := Exported(t, []);
    forall i | 0 <= i < |Leaves(t)|
      ensures Leaves(t)[i].token in BookOf(es) && BookOf(es)[Leaves(t)[i].token] == es[i].code
    {
      ExportedAt(t, [], i);
      BookOfEntry(es, i);
    }
  }

  lemma OnlyEntriesAreBooked(t: Tree)
    ensures BookFor(BookOf(Exported(t, [])), t)
  {
    var es := Exported(t, []);
    var book := BookOf(es);
    forall x | x in book ensures exists i :: 0 <= i < |Leaves(t)| && es[i] == Entry(book[x], x) {
      BookOfKeys(es, x);
    }
  }

  /** The export of a tree over the tokens of ts is a book for them. */
  lemma ExportIsTreeBook(t: Tree, ts: seq<Token>)
    requires Tally(Leaves(t), ts)
    ensures TreeBook(t, BookOf(Exported(t, []))) && BookFor(BookOf(Exported(t, [])), t)
  {
    DistinctTokens(t, ts);
    EntriesAreBooked(t);
    OnlyEntriesAreBooked(t);
  }

  lemma TreeBookKnowsAll(t: Tree, ts: seq<Token>, book: map<Token, Code>)
    requires Tally(Leaves(t), ts) && TreeBook(t, book)
    ensures AllKnown(ts, book)
  {
    forall x | x in ts ensures x in book {
      var i :| 0 <= i < |Leaves(t)| && Leaves(t)[i].token == x;
    }
  }

  lemma DistinctTokens(t: Tree, ts: seq<Token>)
    requires Tally(Leaves(t), ts)
    ensures var es := Exported(t, []);
      forall j, k :: 0 <= j < k < |es| ==> es[j].token != es[k].token
  {
    var es := Exported(t, []);
    forall j, k | 0 <= j < k < |es| ensures es[j].token != es[k].token {
      ExportedAt(t, [], j);
      ExportedAt(t, [], k);
    }
  }

  lemma {:induction false} SameCoded(ls: seq<Tree>, es: seq<Entry>, book: map<Token, Code>)
    requires |ls| == |es|
    requires forall i :: 0 <= i < |ls| ==> ls[i].Leaf? && ls[i].token in book && book[ls[i].token] == es[i].code
    ensures CodedBy(ls, book) == CodedAs(ls, es)
  {
    if ls != [] {
      SameCoded(ls[1..], es[1..], book);
    }
  }

  /** The compressed text is exactly as long as the counts of the inner nodes add up to. */
  lemma CompressedLength(t: Tree, ts: seq<Token>, book: map<Token, Code>)
    requires Consistent(t) && Tally(Leaves(t), ts) && TreeBook(t, book)
    ensures AllKnown(ts, book)
    ensures |Encode(ts, book)| == InnerSum(t)
  {
    TreeBookKnowsAll(t, ts, book);
    EncodedLength(Leaves(t), ts, book);
    SameCoded(Leaves(t), Exported(t, []), book);
    TreeCost(t, []);
  }

  // ---------- Any other prefix-free book ----------

  ghost predicate PrefixFreeBook(book: map<Token, Code>) {
    forall x, y :: x in book && y in book && x != y ==> Unrelated(book[x], book[y])
  }

  function CodesBy(ls: seq<Tree>, book: map<Token, Code>): (cs: seq<Code>)
    requires forall i :: 0 <= i < |ls| ==> ls[i].Leaf? && ls[i].token in book
    ensures |cs| == |ls| && forall i :: 0 <= i < |ls| ==> cs[i] == book[ls[i].token]
  {
    if ls == [] then [] else [book[ls[0].token]] + CodesBy(ls[1..], book)
  }

  lemma {:induction false} LongestCode(cs: seq<Code>) returns (m: nat)
    ensures NoLonger(cs, m)
  {
    m := 0;
    for k := 0 to |cs|
      invariant forall i :: 0 <= i < k ==> |cs[i]| <= m
    {
      if m < |cs[k]| { m := |cs[k]|; }
    }
  }

  lemma {:induction false} CodedKraft(ls: seq<Tree>, book: map<Token, Code>, m: nat)
    requires forall i :: 0 <= i < |ls| ==> ls[i].Leaf? && ls[i].token in book
    requires NoLonger(CodesBy(ls, book), m)
    ensures Within(CodedBy(ls, book), m)
    ensures Kraft(CodedBy(ls, book), m) == KraftSum(CodesBy(ls, book), m)
    ensures Weights(CodedBy(ls, book)) == CountList(ls)
  {
    if ls != [] {
      assert CodesBy(ls, book)[1..] == CodesBy(ls[1..], book);
      assert |CodesBy(ls, book)[0]| <= m;
      CodedKraft(ls[1..], book, m);
    }
  }

  lemma {:induction false} CodedNonNegative(ls: seq<Tree>, book: map<Token, Code>)
    requires forall i :: 0 <= i < |ls| ==> ls[i].Leaf? && ls[i].token in book && ls[i].count >= 0
    ensures AtLeast(CodedBy(ls, book), 0)
  {
    if ls != [] {
      CodedNonNegative(ls[1..], book);
    }
  }

  /** Every prefix-free book costs at least what merging least counts costs. */
  lemma NoBookIsCheaper(nodes: seq<Tree>, ts: seq<Token>, book: map<Token, Code>)
    requires Tally(nodes, ts) && AllKnown(ts, book) && PrefixFreeBook(book)
    ensures GreedyCost(CountList(nodes)) <= |Encode(ts, book)|
  {
    var cs := CodesBy(nodes, book);
    var m := LongestCode(cs);
    forall i, j | 0 <= i < j < |cs| ensures Unrelated(cs[i], cs[j]) {
      assert nodes[i].token != nodes[j].token;
    }
    KraftInequality(cs, m);
    CodedKraft(nodes, book, m);
    CodedNonNegative(nodes, book);
    GreedyIsOptimal(CodedBy(nodes, book), m);
    EncodedLength(nodes, ts, book);
  }

  lemma TallyPermuted(ls: seq<Tree>, ms: seq<Tree>, ts: seq<Token>)
    requires Tally(ls, ts) && multiset(ls) == multiset(ms)
    ensures Tally(ms, ts)
  {
    forall i | 0 <= i < |ms|
      ensures ms[i] in ls
    {
      assert ms[i] in multiset(ms);
    }
    forall x | x in ts ensures exists i :: 0 <= i < |ms| && ms[i].token == x {
      var i :| 0 <= i < |ls| && ls[i].token == x;
      assert ls[i] in multiset(ls);
      assert ls[i] in ms;
    }
    forall i, j | 0 <= i < j < |ms| ensures ms[i].token != ms[j].token {
      if ms[i].token == ms[j].token {
        assert ms[i] == ms[j];
        TwiceInBag(ms, i, j);
        OnceInBag(ls, ms[i]);
        assert false;
      }
    }
  }

  lemma TwiceInBag(s: seq<Tree>, i: nat, j: nat)
    requires i < j < |s| && s[i] == s[j]
    ensures multiset(s)[s[i]] >= 2
  {
    assert s == s[..j] + [s[j]] + s[j + 1..];
    assert s[i] in s[..j];
  }

  lemma {:induction false} OnceInBag(s: seq<Tree>, x: Tree)
    requires forall i, j :: 0 <= i < j < |s| ==> s[i] != s[j]
    ensures multiset(s)[x] <= 1
  {
    if s != [] {
      OnceInBag(s[1..], x);
      assert s == [s[0]] + s[1..];
    }
  }

  /** Optimality: with the book of the tree that the merge loop builds for the tokens of a
      text, the text encodes to no more characters than with any prefix-free book. */
  lemma HuffmanIsOptimal(t: Tree, nodes: seq<Tree>, ts: seq<Token>, book: map<Token, Code>, other: map<Token, Code>)
    requires HuffmanTreeOf(t, nodes) && Tally(nodes, ts) && TreeBook(t, book)
    requires AllKnown(ts, other) && PrefixFreeBook(other)
    ensures AllKnown(ts, book)
    ensures |Encode(ts, book)| <= |Encode(ts, other)|
  {
    TallyPermuted(nodes, Leaves(t), ts);
    CompressedLength(t, ts, book);
    NoBookIsCheaper(nodes, ts, other);
  }
}
