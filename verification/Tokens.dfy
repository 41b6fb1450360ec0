/** How a file is cut into tokens: every delimiter by itself, and maximal runs of the
    other characters. */
module Tokens {
  import opened CTypes
  import opened HuffmanTree

  /** isalnum and ispunct in the C locale, which the program never leaves. */
  predicate IsAlnum(c: byte) {
    48 <= c <= 57 || 65 <= c <= 90 || 97 <= c <= 122
  }

  predicate IsPunct(c: byte) {
    33 <= c <= 47 || 58 <= c <= 64 || 91 <= c <= 96 || 123 <= c <= 126
  }

  predicate IsDelim(c: byte) {
    !IsAlnum(c) && !IsPunct(c)
  }

  /** The delimiters are all bytes but the visible ASCII characters. */
  lemma DelimsAre(c: byte)
    ensures IsDelim(c) <==> !(33 <= c <= 126)
  {
  }

  /** The length of the run of non-delimiters at the front of s. */
  function RunLength(s: seq<byte>): (n: nat)
    ensures n <= |s|
  {
    if s == [] || IsDelim(s[0]) then 0 else 1 + RunLength(s[1..])
  }

  function TokenLength(s: seq<byte>): (n: nat)
    requires s != []
    ensures 0 < n <= |s|
  {
    if IsDelim(s[0]) then 1 else RunLength(s)
  }

  function TokensOf(s: seq<byte>): seq<Token> {
    if s == [] then [] else [s[..TokenLength(s)]] + TokensOf(s[TokenLength(s)..])
  }

  /** The token that begins at offset a, and the tokens behind it. */
  lemma TokensFrom(s: seq<byte>, a: nat, b: nat)
    requires a < |s| && b == a + TokenLength(s[a..])
    ensures TokensOf(s[a..]) == [s[a..b]] + TokensOf(s[b..])
  {
    assert s[a..][..b - a] == s[a..b];
    assert s[a..][b - a..] == s[b..];
  }

  // ---------- What a tokenisation is ----------

  predicate IsDelimToken(t: Token) {
    |t| == 1 && IsDelim(t[0])
  }

  predicate IsRun(t: Token) {
    t != [] && forall i :: 0 <= i < |t| ==> !IsDelim(t[i])
  }

  /** Every token is a single delimiter or a run, and no two runs are adjacent. */
  ghost predicate Tokenised(ts: seq<Token>) {
    && (forall i :: 0 <= i < |ts| ==> IsDelimToken(ts[i]) || IsRun(ts[i]))
    && (forall i :: 0 < i < |ts| ==> IsDelimToken(ts[i - 1]) || IsDelimToken(ts[i]))
  }

  lemma {:induction false} RunLengthOfRun(t: Token, rest: seq<byte>)
    requires forall i :: 0 <= i < |t| ==> !IsDelim(t[i])
    requires rest == [] || IsDelim(rest[0])
    ensures RunLength(t + rest) == |t|
  {
    if t == [] {
      assert t + rest == rest;
    } else {
      assert (t + rest)[1..] == t[1..] + rest;
      RunLengthOfRun(t[1..], rest);
    }
  }

  lemma {:induction false} RunLengthIsRun(s: seq<byte>)
    ensures forall i :: 0 <= i < RunLength(s) ==> !IsDelim(s[i])
    ensures RunLength(s) < |s| ==> IsDelim(s[RunLength(s)])
  {
    if s != [] && !IsDelim(s[0]) {
      RunLengthIsRun(s[1..]);
      forall i | 0 <= i < RunLength(s) ensures !IsDelim(s[i]) {
        assert i > 0 ==> s[i] == s[1..][i - 1];
      }
    }
  }

  /** The tokens of a file, put together, are the file, and they are a tokenisation. */
  lemma {:induction false} TokensOfIsTokenised(s: seq<byte>)
    ensures Concat(TokensOf(s)) == s
    ensures Tokenised(TokensOf(s))
  {
    if s != [] {
      var n := TokenLength(s);
      var rest := TokensOf(s[n..]);
      TokensOfIsTokenised(s[n..]);
      assert s == s[..n] + s[n..];
      RunLengthIsRun(s);
      if !IsDelim(s[0]) && n < |s| {
        FirstToken(s[n..]);
      }
    }
  }

  lemma FirstToken(s: seq<byte>)
    requires s != []
    ensures TokensOf(s) != []
    ensures IsDelim(s[0]) ==> IsDelimToken(TokensOf(s)[0])
  {
  }

  /** There is only one tokenisation of a file. */
  lemma {:induction false} TokenisationIsUnique(ts: seq<Token>)
    requires Tokenised(ts)
    ensures TokensOf(Concat(ts)) == ts
  {
    if ts != [] {
      var s, t, rest := Concat(ts), ts[0], Concat(ts[1..]);
      assert s == t + rest;
      assert s[0] == t[0];
      forall i | 0 < i < |ts[1..]| ensures IsDelimToken(ts[1..][i - 1]) || IsDelimToken(ts[1..][i]) {
        assert ts[1..][i] == ts[i + 1] && ts[1..][i - 1] == ts[i];
      }
      TokenisationIsUnique(ts[1..]);
      if !IsDelimToken(t) {
        if |ts| > 1 {
          assert IsDelimToken(ts[1]) && rest[0] == ts[1][0];
        } else {
          assert rest == [];
        }
        RunLengthOfRun(t, rest);
      }
      assert TokenLength(s) == |t|;
      assert s[..|t|] == t && s[|t|..] == rest;
    }
  }

  /** Concatenation and tokenisation are inverse to each other. */
  lemma TokensCharacterised(s: seq<byte>, ts: seq<Token>)
    ensures ts == TokensOf(s) <==> Tokenised(ts) && Concat(ts) == s
  {
    TokensOfIsTokenised(s);
    if Tokenised(ts) {
      TokenisationIsUnique(ts);
    }
  }
}
