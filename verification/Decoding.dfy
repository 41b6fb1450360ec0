/** What any text decodes to, whether it was written by the compressor or not. */
module Decoding {
  import opened CTypes
  import opened HuffmanTree
  import opened Export
  import opened Codec

  // ---------- Texts that do not decode ----------

  predicate IsBit(c: byte) {
    c == ZERO || c == ONE
  }

  /** Decoding fails exactly when some character is neither 0 nor 1. */
  lemma {:induction false} DecodeFailsIff(t: Tree, cur: Tree, s: seq<byte>)
    requires t.Node? && cur.Node?
    ensures Decode(t, cur, s).None? <==> exists i :: 0 <= i < |s| && !IsBit(s[i])
    decreases |s|
  {
    if s != [] && IsBit(s[0]) {
      var child := if s[0] == ZERO then cur.left else cur.right;
      DecodeFailsIff(t, if child.Leaf? then t else child, s[1..]);
      if i :| 0 <= i < |s| && !IsBit(s[i]) {
        assert s[1..][i - 1] == s[i];
      }
    }
  }

  // ---------- Texts that do ----------

  function JoinedCodes(es: seq<Entry>): seq<byte> {
    if es == [] then [] else es[0].code + JoinedCodes(es[1..])
  }

  function JoinedTokens(es: seq<Entry>): seq<byte> {
    if es == [] then [] else es[0].token + JoinedTokens(es[1..])
  }

  ghost predicate InBook(t: Tree, e: Entry) {
    e in Exported(t, [])
  }

  ghost predicate AllInBook(t: Tree, es: seq<Entry>) {
    forall i :: 0 <= i < |es| ==> InBook(t, es[i])
  }

  /** The beginning of a code, but not all of it. */
  ghost predicate CutOff(t: Tree, rest: seq<byte>) {
    exists i :: 0 <= i < |Leaves(t)| && rest < Exported(t, [])[i].code
  }

  /** s consists of the codes of the entries and one code that is cut off. */
  ghost predicate Spells(t: Tree, es: seq<Entry>, rest: seq<byte>, s: seq<byte>) {
    AllInBook(t, es) && CutOff(t, rest) && s == JoinedCodes(es) + rest
  }

  lemma {:induction false} DecodeCut(t: Tree, cur: Tree, prefix: Code, i: nat, s: seq<byte>)
    requires t.Node? && cur.Node? && i < |Leaves(cur)| && prefix + s < Exported(cur, prefix)[i].code
    ensures Decode(t, cur, s) == Some([])
    decreases |s|
  {
    if s != [] {
      var n, c := |Leaves(cur.left)|, Exported(cur, prefix)[i].code;
      var b: Bit := if i < n then ZERO else ONE;
      var child, k := if i < n then cur.left else cur.right, if i < n then i else i - n;
      ExportedAt(child, prefix + [b], k);
      PrefixOfLonger(prefix, b, c);
      assert s[0] == (prefix + s)[|prefix|] == c[|prefix|] == b;
      assert prefix + s == prefix + [b] + s[1..];
      assert child.Leaf? ==> |c| == |prefix| + 1;
      DecodeCut(t, child, prefix + [b], k, s[1..]);
    }
  }

  lemma {:induction false} SpelledDecodes(t: Tree, es: seq<Entry>, rest: seq<byte>)
    requires t.Node? && AllInBook(t, es) && CutOff(t, rest)
    ensures Decode(t, t, JoinedCodes(es) + rest) == Some(JoinedTokens(es))
  {
    if es == [] {
      var i :| 0 <= i < |Leaves(t)| && rest < Exported(t, [])[i].code;
      assert [] + rest == rest;
      DecodeCut(t, t, [], i, rest);
    } else {
      assert InBook(t, es[0]);
      var i :| 0 <= i < |Leaves(t)| && Exported(t, [])[i] == es[0];
      forall k | 0 <= k < |es[1..]| ensures InBook(t, es[1..][k]) {
        assert InBook(t, es[k + 1]);
      }
      SpelledDecodes(t, es[1..], rest);
      DecodeCode(t, t, [], i, JoinedCodes(es[1..]) + rest);
      assert es[0].code[0..] == es[0].code;
      Associative(es[0].code, JoinedCodes(es[1..]), rest);
    }
  }

  /** Everything below cur, which the prefix leads to, belongs to t. */
  ghost predicate PartOf(t: Tree, cur: Tree, prefix: Code) {
    forall i :: 0 <= i < |Leaves(cur)| ==> InBook(t, Exported(cur, prefix)[i])
  }

  lemma PartsOfNode(t: Tree, cur: Tree, prefix: Code)
    requires cur.Node? && PartOf(t, cur, prefix)
    ensures PartOf(t, cur.left, prefix + [ZERO]) && PartOf(t, cur.right, prefix + [ONE])
  {
    var n := |Leaves(cur.left)|;
    forall i | 0 <= i < n ensures InBook(t, Exported(cur.left, prefix + [ZERO])[i]) {
      assert InBook(t, Exported(cur, prefix)[i]);
    }
    forall i | 0 <= i < |Leaves(cur.right)| ensures InBook(t, Exported(cur.right, prefix + [ONE])[i]) {
      assert InBook(t, Exported(cur, prefix)[n + i]);
    }
  }

  lemma PathIsCutOff(t: Tree, cur: Tree, prefix: Code)
    requires cur.Node? && PartOf(t, cur, prefix)
    ensures CutOff(t, prefix)
  {
    var e := Exported(cur, prefix)[0];
    assert InBook(t, e);
    ExportedAt(cur.left, prefix + [ZERO], 0);
    PrefixOfLonger(prefix, ZERO, e.code);
  }

  lemma WholeIsPart(t: Tree)
    ensures PartOf(t, t, [])
  {
  }

  lemma LeafIsInBook(t: Tree, leaf: Tree, path: Code)
    requires leaf.Leaf? && PartOf(t, leaf, path)
    ensures InBook(t, Entry(path, leaf.token))
  {
    assert Exported(leaf, path)[0] == Entry(path, leaf.token);
  }

  lemma AddEntry(t: Tree, e: Entry, es: seq<Entry>, rest: seq<byte>, s: seq<byte>)
    requires InBook(t, e) && Spells(t, es, rest, s)
    ensures Spells(t, [e] + es, rest, e.code + s) && JoinedTokens([e] + es) == e.token + JoinedTokens(es)
  {
    assert ([e] + es)[1..] == es;
    Associative(e.code, JoinedCodes(es), rest);
  }

  /** From the node that the prefix leads to. */
  lemma {:induction false} DecodedFrom(t: Tree, cur: Tree, prefix: Code, s: seq<byte>)
    returns (es: seq<Entry>, rest: seq<byte>)
    requires t.Node? && cur.Node? && PartOf(t, cur, prefix) && Decode(t, cur, s).Some?
    ensures Spells(t, es, rest, prefix + s) && Decode(t, cur, s) == Some(JoinedTokens(es))
    decreases |s|
  {
    if s == [] {
      PathIsCutOff(t, cur, prefix);
      es, rest := [], prefix;
      assert [] + rest == prefix + s;
    } else {
      var b: Bit := s[0];
      var child := if b == ZERO then cur.left else cur.right;
      PartsOfNode(t, cur, prefix);
      assert prefix + s == prefix + [b] + s[1..];
      if child.Leaf? {
        LeafIsInBook(t, child, prefix + [b]);
        WholeIsPart(t);
        es, rest := DecodedFrom(t, t, [], s[1..]);
        assert [] + s[1..] == s[1..];
        AddEntry(t, Entry(prefix + [b], child.token), es, rest, s[1..]);
        es := [Entry(prefix + [b], child.token)] + es;
      } else {
        es, rest := DecodedFrom(t, child, prefix + [b], s[1..]);
      }
    }
  }

  /** A text decodes to out if and only if it consists of codes of the book, whose tokens make
      up out, and possibly of the beginning of one more code, which is dropped. */
  lemma DecodesIff(t: Tree, s: seq<byte>, out: seq<byte>)
    requires t.Node?
    ensures Decode(t, t, s) == Some(out) <==> exists es, rest :: Spells(t, es, rest, s) && out == JoinedTokens(es)
  {
    if Decode(t, t, s) == Some(out) {
      WholeIsPart(t);
      var es, rest := DecodedFrom(t, t, [], s);
      assert [] + s == s;
      assert Spells(t, es, rest, s);
    }
    if es, rest :| Spells(t, es, rest, s) && out == JoinedTokens(es) {
      SpelledDecodes(t, es, rest);
    }
  }
}
