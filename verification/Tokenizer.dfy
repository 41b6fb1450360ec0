/** The tokenizer loop of Asst2/huffman.c and the counting built on it. */
module Tokenizer {
  import opened CTypes
  import opened HuffmanTree
  import opened Tokens
  import opened Expandables

  /** nextToken: the cursor idx keeps the state between calls. 0 means no more tokens, 1 a
      delimiter, 2 a run ended by a delimiter and 3 a run that ends the file. */
  method NextToken(buffer: Expandable, file: seq<byte>, idx: nat) returns (status: nat, next: nat)
    requires buffer.Valid() && idx <= |file|
    modifies buffer, buffer.data
    ensures buffer.Valid() && (buffer.data == old(buffer.data) || fresh(buffer.data))
    ensures status == 0 <==> idx == |file|
    ensures status == 0 ==> next == idx && buffer.Contents() == old(buffer.Contents())
    ensures status > 0 ==> next == idx + TokenLength(file[idx..])
    ensures status > 0 ==> buffer.Contents() == old(buffer.Contents()) + file[idx..next]
    ensures status == 1 <==> idx < |file| && IsDelim(file[idx])
    ensures status == 2 <==> idx < |file| && !IsDelim(file[idx]) && next < |file|
    ensures status == 3 <==> idx < |file| && !IsDelim(file[idx]) && next == |file|
  {
    next := idx;
    if next == |file| {
      return 0, next;
    }
    if IsDelim(file[next]) {
      buffer.Append(file[next]);
      next := next + 1;
      return 1, next;
    }
    while next < |file|
      invariant idx <= next <= |file|
      invariant buffer.Valid() && (buffer.data == old(buffer.data) || fresh(buffer.data))
      invariant buffer.Contents() == old(buffer.Contents()) + file[idx..next]
      invariant RunLength(file[idx..]) == next - idx + RunLength(file[next..])
    {
      if !IsDelim(file[next]) {
        buffer.Append(file[next]);
        assert file[next..][1..] == file[next + 1..];
        next := next + 1;
      } else {
        return 2, next;
      }
    }
    return 3, next;
  }

  // ---------- Counting ----------

  function CountIn(bst: map<Token, int>, t: Token): int {
    if t in bst then bst[t] else 0
  }

  /** bst' counts what bst counts and, on top, the occurrences in ts. */
  ghost predicate Counted(bst: map<Token, int>, ts: seq<Token>, bst': map<Token, int>) {
    && (forall t :: t in bst' <==> t in bst || t in ts)
    && (forall t :: t in bst' ==> bst'[t] == CountIn(bst, t) + multiset(ts)[t])
  }

  /** incrementTokenFrequency: a new token enters with count one. */
  method IncrementTokenFrequency(bst: map<Token, int>, t: Token) returns (bst': map<Token, int>)
    ensures bst' == bst[t := CountIn(bst, t) + 1]
  {
    if t !in bst {
      bst' := bst[t := 1];
    } else {
      bst' := bst[t := bst[t] + 1];
    }
  }

  /** counting: adds a file's tokens to the counts of the files before it. */
  method Counting(file: seq<byte>, bst: map<Token, int>) returns (bst': map<Token, int>)
    ensures Counted(bst, TokensOf(file), bst')
  {
    var space := new Expandable();
    var offset: nat := 0;
    ghost var ts: seq<Token> := [];
    bst' := bst;
    assert file[0..] == file;
    while true
      invariant offset <= |file|
      invariant fresh(space) && space.Valid() && fresh(space.data) && space.Contents() == []
      invariant Counted(bst, ts, bst')
      invariant TokensOf(file) == ts + TokensOf(file[offset..])
      decreases |file| - offset
    {
      var status, next := NextToken(space, file, offset);
      if status == 0 {
        break;
      }
      var token := space.Contents();
      assert token == file[offset..next];
      CountedOneMore(bst, ts, bst', token);
      bst' := IncrementTokenFrequency(bst', token);
      StepTokens(file, offset, next, ts);
      ts := ts + [token];
      space.Reset();
      offset := next;
    }
    assert TokensOf(file) == ts;
  }

  lemma StepTokens(file: seq<byte>, a: nat, b: nat, ts: seq<Token>)
    requires a < |file| && b == a + TokenLength(file[a..])
    requires TokensOf(file) == ts + TokensOf(file[a..])
    ensures TokensOf(file) == ts + [file[a..b]] + TokensOf(file[b..])
  {
    TokensFrom(file, a, b);
    Associative(ts, [file[a..b]], TokensOf(file[b..]));
  }

  lemma CountedOneMore(bst: map<Token, int>, ts: seq<Token>, bst': map<Token, int>, t: Token)
    requires Counted(bst, ts, bst')
    ensures Counted(bst, ts + [t], bst'[t := CountIn(bst', t) + 1])
  {
  }

  /** Counting a second file on top of a first one counts the tokens of both. */
  lemma CountedComposes(a: map<Token, int>, ts: seq<Token>, b: map<Token, int>, us: seq<Token>, c: map<Token, int>)
    requires Counted(a, ts, b) && Counted(b, us, c)
    ensures Counted(a, ts + us, c)
  {
    assert multiset(ts + us) == multiset(ts) + multiset(us);
  }

  // ---------- All files of a directory ----------

  /** The tokens of all files, one file after the other. */
  function AllTokens(files: seq<seq<byte>>): seq<Token> {
    if files == [] then [] else AllTokens(files[..|files| - 1]) + TokensOf(files[|files| - 1])
  }

  lemma AllTokensNext(files: seq<seq<byte>>, i: nat)
    requires i < |files|
    ensures AllTokens(files[..i + 1]) == AllTokens(files[..i]) + TokensOf(files[i])
  {
    assert files[..i + 1][..i] == files[..i];
  }

  lemma {:induction false} TokensAmongAll(files: seq<seq<byte>>, i: nat, t: Token)
    requires i < |files| && t in TokensOf(files[i])
    ensures t in AllTokens(files)
  {
    if i < |files| - 1 {
      TokensAmongAll(files[..|files| - 1], i, t);
    }
  }

  lemma TokensOfOne(file: seq<byte>)
    ensures AllTokens([file]) == TokensOf(file)
  {
    assert [file][..0] == [];
    assert AllTokens([file][..0]) == [];
  }

  /** Counts one file after the other into the same search tree. */
  method CountingAll(files: seq<seq<byte>>) returns (bst: map<Token, int>)
    ensures Counted(map[], AllTokens(files), bst)
  {
    bst := map[];
    assert files[..0] == [];
    var i := 0;
    while i < |files|
      invariant i <= |files| && Counted(map[], AllTokens(files[..i]), bst)
    {
      var bst' := Counting(files[i], bst);
      CountedComposes(map[], AllTokens(files[..i]), bst, TokensOf(files[i]), bst');
      AllTokensNext(files, i);
      bst := bst';
      i := i + 1;
    }
    assert files[..|files|] == files;
  }
}
