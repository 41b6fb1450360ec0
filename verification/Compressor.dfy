/** compress and decompress of Asst2/huffman.c. */
module Compressor {
  import opened CTypes
  import opened HuffmanTree
  import opened Tokens
  import opened Expandables
  import opened Tokenizer
  import opened Codec
  import opened Tries

  /** With `done` in the buffer and the file read up to idx, compressing ends with the
      target, or fails when that is None. */
  ghost predicate Compresses(done: seq<byte>, file: seq<byte>, idx: nat, book: map<Token, Code>, target: Option<seq<byte>>)
    requires idx <= |file|
  {
    match TryEncode(TokensOf(file[idx..]), book)
    case None => target == None
    case Some(code) => target == Some(done + code)
  }

  lemma CompressesNext(done: seq<byte>, file: seq<byte>, a: nat, b: nat, book: map<Token, Code>, target: Option<seq<byte>>)
    requires a < |file| && b == a + TokenLength(file[a..]) && Compresses(done, file, a, book, target)
    ensures file[a..b] !in book ==> target == None
    ensures file[a..b] in book ==> Compresses(done + book[file[a..b]], file, b, book, target)
  {
    var t, rest := file[a..b], TryEncode(TokensOf(file[b..]), book);
    TokensFrom(file, a, b);
    TryEncodeNext(t, TokensOf(file[b..]), book);
    if t in book && rest.Some? {
      Associative(done, book[t], rest.value);
    }
  }

  lemma CompressesAll(done: seq<byte>, file: seq<byte>, book: map<Token, Code>, target: Option<seq<byte>>)
    requires Compresses(done, file, |file|, book, target)
    ensures target == Some(done)
  {
    assert file[|file|..] == [];
    assert done + [] == done;
  }

  /** One round of the loop of compress: looks the next token up and appends its code. */
  method CompressNext(buffer: Expandable, tmp: Expandable, file: seq<byte>, idx: nat, book: map<Token, Code>)
    returns (status: nat, next: nat, found: bool)
    requires buffer.Valid() && tmp.Valid() && buffer != tmp && buffer.data != tmp.data
    requires tmp.Contents() == [] && idx <= |file|
    modifies buffer, buffer.data, tmp, tmp.data
    ensures buffer.Valid() && tmp.Valid() && buffer.data != tmp.data && tmp.Contents() == []
    ensures (buffer.data == old(buffer.data) || fresh(buffer.data)) && (tmp.data == old(tmp.data) || fresh(tmp.data))
    ensures status == 0 <==> idx == |file|
    ensures status == 0 || !found ==> buffer.Contents() == old(buffer.Contents())
    ensures status > 0 ==> next == idx + TokenLength(file[idx..]) && (found <==> file[idx..next] in book)
    ensures status > 0 && found ==> buffer.Contents() == old(buffer.Contents()) + book[file[idx..next]]
  {
    status, next := NextToken(tmp, file, idx);
    found := true;
    if status > 0 {
      var token := tmp.Contents();
      assert token == file[idx..next];
      found := token in book;
      if found {
        buffer.AppendSequence(book[token]);
      }
      tmp.Reset();
    }
  }

  /** compress: looks every token up and appends its code. The result is false where the
      original ends because a token has no entry. */
  method Compress(buffer: Expandable, file: seq<byte>, book: map<Token, Code>) returns (ok: bool)
    requires buffer.Valid()
    modifies buffer, buffer.data
    ensures buffer.Valid() && (buffer.data == old(buffer.data) || fresh(buffer.data))
    ensures ok <==> AllKnown(TokensOf(file), book)
    ensures ok ==> buffer.Contents() == old(buffer.Contents()) + Encode(TokensOf(file), book)
  {
    var tmp := new Expandable();
    var idx: nat := 0;
    assert file[0..] == file;
    ghost var code := TryEncode(TokensOf(file), book);
    ghost var target: Option<seq<byte>> := if code.None? then None else Some(buffer.Contents() + code.value);
    while true
      invariant idx <= |file|
      invariant fresh(tmp) && tmp.Valid() && fresh(tmp.data) && tmp.Contents() == []
      invariant buffer.Valid() && (buffer.data == old(buffer.data) || fresh(buffer.data))
      invariant buffer.data != tmp.data
      invariant Compresses(buffer.Contents(), file, idx, book, target)
      decreases |file| - idx
    {
      ghost var done := buffer.Contents();
      var status, next, found := CompressNext(buffer, tmp, file, idx, book);
      if status == 0 {
        break;
      }
      CompressesNext(done, file, idx, next, book, target);
      if !found {
        return false;
      }
      idx := next;
    }
    CompressesAll(buffer.Contents(), file, book, target);
    ok := true;
  }

  // ---------- Decoding on the trie ----------

  /** The trie below path p has the shape of t, and its leaves carry t's tokens. */
  ghost predicate Mirrors(paths: Paths, p: Code, t: Tree)
    reads paths.Values
    decreases t
  {
    p in paths &&
    if t.Leaf? then
      paths[p].left == null && paths[p].right == null && paths[p].token == t.token
    else
      paths[p].left != null && paths[p].right != null
      && Mirrors(paths, p + [ZERO], t.left) && Mirrors(paths, p + [ONE], t.right)
  }

  /** With `done` in the buffer and the cursor at cur, decoding s ends with the target, or
      fails when that is None. */
  ghost predicate Decompresses(done: seq<byte>, t: Tree, cur: Tree, s: seq<byte>, target: Option<seq<byte>>)
    requires t.Node? && cur.Node?
  {
    match Decode(t, cur, s)
    case None => target == None
    case Some(out) => target == Some(done + out)
  }

  lemma DecompressesNext(done: seq<byte>, t: Tree, cur: Tree, s: seq<byte>, i: nat, target: Option<seq<byte>>)
    requires t.Node? && cur.Node? && i < |s| && Decompresses(done, t, cur, s[i..], target)
    ensures s[i] != ZERO && s[i] != ONE ==> target == None
    ensures s[i] == ZERO || s[i] == ONE ==>
      var child := if s[i] == ZERO then cur.left else cur.right;
      if child.Leaf? then Decompresses(done + child.token, t, t, s[i + 1..], target)
      else Decompresses(done, t, child, s[i + 1..], target)
  {
    assert s[i..][1..] == s[i + 1..];
    if s[i] == ZERO || s[i] == ONE {
      var child := if s[i] == ZERO then cur.left else cur.right;
      if child.Leaf? && Decode(t, t, s[i + 1..]).Some? {
        Associative(done, child.token, Decode(t, t, s[i + 1..]).value);
      }
    }
  }

  lemma DecompressesAll(done: seq<byte>, t: Tree, cur: Tree, s: seq<byte>, target: Option<seq<byte>>)
    requires t.Node? && cur.Node? && Decompresses(done, t, cur, s[|s|..], target)
    ensures target == Some(done)
  {
    assert s[|s|..] == [];
    assert done + [] == done;
  }

  /** One turn of the loop of decompress: one step down and, at a leaf, its token and back to
      the root. */
  method DecompressNext(buffer: Expandable, c: byte, tree: Node, star: Node,
                        ghost here: Code, ghost paths: Paths, ghost t: Tree, ghost cur: Tree)
    returns (ok: bool, star': Node, ghost here': Code, ghost cur': Tree)
    requires buffer.Valid() && t.Node? && cur.Node?
    requires IsTrie(tree, paths) && Mirrors(paths, [], t) && Mirrors(paths, here, cur) && paths[here] == star
    modifies buffer, buffer.data
    ensures buffer.Valid() && (buffer.data == old(buffer.data) || fresh(buffer.data))
    ensures ok <==> c == ZERO || c == ONE
    ensures IsTrie(tree, paths) && Mirrors(paths, [], t)
    ensures cur'.Node? && Mirrors(paths, here', cur') && paths[here'] == star'
    ensures ok ==> var child := if c == ZERO then cur.left else cur.right;
      if child.Leaf? then cur' == t && buffer.Contents() == old(buffer.Contents()) + child.token
      else cur' == child && buffer.Contents() == old(buffer.Contents())
  {
    star', here', cur' := star, here, cur;
    assert Linked(paths, here);
    if c == ZERO {
      star' := star.left;
      here', cur' := here + [ZERO], cur.left;
    } else if c == ONE {
      star' := star.right;
      here', cur' := here + [ONE], cur.right;
    } else {
      return false, star', here', cur';
    }
    if star'.left == null && star'.right == null {
      buffer.AppendSequence(star'.token);
      star' := tree;
      here', cur' := [], t;
    }
    ok := true;
  }

  /** decompress: follows the characters from the root and starts again at every leaf.
      The result is false where the original exits on an unexpected character. */
  method Decompress(buffer: Expandable, data: seq<byte>, tree: Node, ghost paths: Paths, ghost t: Tree)
    returns (ok: bool)
    requires buffer.Valid()
    requires IsTrie(tree, paths) && Mirrors(paths, [], t) && t.Node?
    modifies buffer, buffer.data
    ensures buffer.Valid() && (buffer.data == old(buffer.data) || fresh(buffer.data))
    ensures ok <==> Decode(t, t, data).Some?
    ensures ok ==> buffer.Contents() == old(buffer.Contents()) + Decode(t, t, data).value
  {
    var star := tree;
    var i := 0;
    ghost var here: Code, cur := [], t;
    ghost var out := Decode(t, t, data);
    ghost var target: Option<seq<byte>> := if out.None? then None else Some(buffer.Contents() + out.value);
    assert data[0..] == data;
    while i < |data|
      invariant 0 <= i <= |data|
      invariant buffer.Valid() && (buffer.data == old(buffer.data) || fresh(buffer.data))
      invariant IsTrie(tree, paths) && Mirrors(paths, [], t)
      invariant cur.Node? && Mirrors(paths, here, cur) && paths[here] == star
      invariant Decompresses(buffer.Contents(), t, cur, data[i..], target)
    {
      DecompressesNext(buffer.Contents(), t, cur, data, i, target);
      var next;
      next, star, here, cur := DecompressNext(buffer, data[i], tree, star, here, paths, t, cur);
      if !next {
        return false;
      }
      i := i + 1;
    }
    DecompressesAll(buffer.Contents(), t, cur, data, target);
    ok := true;
  }
}
