/** Encoding tokens with a code book and decoding with a tree, as functions. */
module Codec {
  import opened CTypes
  import opened HuffmanTree
  import opened Export

  predicate AllKnown(ts: seq<Token>, book: map<Token, Code>) {
    forall t :: t in ts ==> t in book
  }

  /** The code characters of the tokens, one code after the other. */
  function Encode(ts: seq<Token>, book: map<Token, Code>): Code
    requires AllKnown(ts, book)
  {
    if ts == [] then [] else book[ts[0]] + Encode(ts[1..], book)
  }

  /** The encoding, or None when a token is not in the book. */
  function TryEncode(ts: seq<Token>, book: map<Token, Code>): Option<Code> {
    if AllKnown(ts, book) then Some(Encode(ts, book)) else None
  }

  /** The book decides about a list of tokens one token at a time. */
  lemma TryEncodeNext(t: Token, ts: seq<Token>, book: map<Token, Code>)
    ensures var rest := TryEncode(ts, book);
      TryEncode([t] + ts, book) == if t in book && rest.Some? then Some(book[t] + rest.value) else None
  {
    var us := [t] + ts;
    assert us[0] == t && us[1..] == ts;
    assert AllKnown(us, book) <==> t in book && AllKnown(ts, book) by {
      assert t in us && forall x :: x in ts ==> x in us;
    }
  }

  /** Encoding two lists of tokens, one behind the other. */
  lemma {:induction false} EncodeAppend(ts: seq<Token>, us: seq<Token>, book: map<Token, Code>)
    requires AllKnown(ts, book) && AllKnown(us, book)
    ensures AllKnown(ts + us, book) && Encode(ts + us, book) == Encode(ts, book) + Encode(us, book)
  {
    if ts == [] {
      assert ts + us == us;
      assert Encode(ts, book) + Encode(us, book) == Encode(us, book);
    } else {
      assert ts[0] in ts;
      assert (ts + us)[1..] == ts[1..] + us;
      EncodeAppend(ts[1..], us, book);
      Associative(book[ts[0]], Encode(ts[1..], book), Encode(us, book));
    }
  }

  function Prepend(out: seq<byte>, r: Option<seq<byte>>): Option<seq<byte>> {
    if r.Some? then Some(out + r.value) else None
  }

  /** What decoding s gives when the cursor is at the inner node cur of t. A character that
      is not a code character is an error; a code cut off at the end is dropped. */
  function Decode(t: Tree, cur: Tree, s: seq<byte>): Option<seq<byte>>
    requires t.Node? && cur.Node?
    decreases |s|
  {
    if s == [] then Some([])
    else if s[0] != ZERO && s[0] != ONE then None
    else
      var child := if s[0] == ZERO then cur.left else cur.right;
      if child.Leaf? then Prepend(child.token, Decode(t, t, s[1..]))
      else Decode(t, child, s[1..])
  }

  /** Decoding an exported code, continued from the node where its prefix ends, gives the
      leaf's token and returns to the root. */
  lemma {:induction false} DecodeCode(t: Tree, cur: Tree, prefix: Code, i: nat, s: seq<byte>)
    requires t.Node? && cur.Node? && i < |Leaves(cur)|
    ensures var e := Exported(cur, prefix)[i];
      prefix <= e.code && Decode(t, cur, e.code[|prefix|..] + s) == Prepend(e.token, Decode(t, t, s))
    decreases cur
  {
    var n := |Leaves(cur.left)|;
    var b: Bit := if i < n then ZERO else ONE;
    var child, k := if i < n then cur.left else cur.right, if i < n then i else i - n;
    var e := Exported(child, prefix + [b])[k];
    assert Exported(cur, prefix)[i] == e;
    ExportedAt(child, prefix + [b], k);
    PrefixOfLonger(prefix, b, e.code);
    var w := e.code[|prefix|..] + s;
    assert w[0] == b && w[1..] == e.code[|prefix| + 1..] + s;
    if child.Leaf? {
      assert e.code == prefix + [b];
      assert w[1..] == s;
    } else {
      DecodeCode(t, child, prefix + [b], k, s);
    }
  }

  /** The book holds the exported code of every token. */
  ghost predicate BookFor(book: map<Token, Code>, t: Tree) {
    forall x :: x in book ==> exists i :: 0 <= i < |Leaves(t)| && Exported(t, [])[i] == Entry(book[x], x)
  }

  lemma {:induction false} DecodeEncode(ts: seq<Token>, t: Tree, book: map<Token, Code>)
    requires t.Node? && BookFor(book, t)
    requires AllKnown(ts, book)
    ensures Decode(t, t, Encode(ts, book)) == Some(Concat(ts))
  {
    if ts != [] {
      var x, rest := ts[0], Encode(ts[1..], book);
      assert x in ts;
      var i :| 0 <= i < |Leaves(t)| && Exported(t, [])[i] == Entry(book[x], x);
      DecodeCode(t, t, [], i, rest);
      DecodeEncode(ts[1..], t, book);
    }
  }
}
