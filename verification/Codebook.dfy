/** The textual code book: what dumpCodeBookToFileRaw writes and loadBSTFromCodeBookFile
    reads. */
module Codebook {
  import opened CTypes
  import opened Decimal
  import opened HuffmanTree
  import opened Export
  import opened Tokens
  import opened Expandables

  // ---------- The format ----------

  function HexDigit(n: nat): (b: byte)
    requires n < 16
  {
    if n < 10 then ZERO + n else 65 + (n - 10)
  }

  function HexValue(b: byte): (r: Option<nat>)
    ensures r.Some? ==> r.value < 16
  {
    if IsDigit(b) then Some(b - ZERO)
    else if 65 <= b <= 70 then Some(b - 55)
    else if 97 <= b <= 102 then Some(b - 87)
    else None
  }

  /** A delimiter is written as 0 and two hex digits, any other token as 1 and itself. */
  function Written(t: Token): (w: seq<byte>)
    ensures w != []
  {
    if |t| == 1 && IsDelim(t[0]) then [ZERO, HexDigit(t[0] / 16), HexDigit(t[0] % 16)] else [ONE] + t
  }

  function Line(e: Entry): seq<byte> {
    e.code + [TAB] + Written(e.token) + [NEWLINE]
  }

  function Lines(es: seq<Entry>): seq<byte> {
    if es == [] then [] else Line(es[0]) + Lines(es[1..])
  }

  function BookText(es: seq<Entry>): seq<byte> {
    PrintInt(|es|) + [NEWLINE] + Lines(es)
  }

  /** The index of the first b in s, or |s|. */
  function Find(s: seq<byte>, b: byte): (i: nat)
    ensures i <= |s|
    ensures i < |s| ==> s[i] == b
  {
    if s == [] || s[0] == b then 0 else 1 + Find(s[1..], b)
  }

  predicate IsCode(s: seq<byte>) {
    forall i :: 0 <= i < |s| ==> s[i] == ZERO || s[i] == ONE
  }

  /** Reads a token and gives what is left behind the end of its line; None when the
      reader would run over the end of the file or not find two hex digits. */
  function ReadToken(s: seq<byte>): Option<(Token, seq<byte>)> {
    if s == [] then None
    else if s[0] == ONE then
      var n := Find(s[1..], NEWLINE);
      if 1 + n < |s| then Some((s[1..1 + n], s[n + 2..])) else None
    else if |s| >= 4 && HexValue(s[1]).Some? && HexValue(s[2]).Some? then
      var b: byte := 16 * HexValue(s[1]).value + HexValue(s[2]).value;
      Some(([b], s[4..]))
    else None
  }

  /** Reads a line. A code with characters other than 0 and 1 is not a code book of ours. */
  function ReadLine(s: seq<byte>): Option<(Entry, seq<byte>)> {
    var k := Find(s, TAB);
    if k == |s| || !IsCode(s[..k]) then None
    else
      var token := ReadToken(s[k + 1..]);
      if token.None? then None else Some((Entry(s[..k], token.value.0), token.value.1))
  }

  function Joined(done: seq<Entry>, r: Option<seq<Entry>>): Option<seq<Entry>> {
    if r.None? then None else Some(done + r.value)
  }

  function ReadLines(s: seq<byte>, n: int): Option<seq<Entry>>
    decreases n
  {
    if n <= 0 then Some([])
    else if ReadLine(s).None? then None
    else
      var (e, rest) := ReadLine(s).value;
      Joined([e], ReadLines(rest, n - 1))
  }

  /** The number of lines is scanned with all blanks behind it, newlines and tabs too. */
  function ReadBook(s: seq<byte>): Option<seq<Entry>> {
    var head := ScanInt(s);
    if head.None? then None else ReadLines(SkipSpaces(head.value.1), head.value.0)
  }

  // ---------- Reading what was written ----------

  lemma {:induction false} FindFirst(a: seq<byte>, b: byte, rest: seq<byte>)
    requires b !in a
    ensures Find(a + [b] + rest, b) == |a|
  {
    var s := a + [b] + rest;
    if a != [] {
      assert s[0] == a[0] && a[0] in a;
      assert s[1..] == a[1..] + [b] + rest;
      FindFirst(a[1..], b, rest);
    }
  }

  lemma HexRoundTrip(b: byte)
    ensures HexValue(HexDigit(b / 16)) == Some(b / 16) && HexValue(HexDigit(b % 16)) == Some(b % 16)
    ensures 16 * (b / 16) + b % 16 == b
  {
  }

  const HEX_DIGITS := "0123456789ABCDEF"

  /** The digits of "%02X": the letters are capitals. */
  lemma HexDigitIs(n: nat)
    requires n < 16
    ensures HexDigit(n) == HEX_DIGITS[n] as int
  {
  }

  const SMALL_HEX_DIGITS := "0123456789abcdef"

  /** Reading takes capital and small letters. */
  lemma HexValueIff(b: byte, n: nat)
    ensures HexValue(b) == Some(n) <==> n < 16 && (b == HEX_DIGITS[n] as int || b == SMALL_HEX_DIGITS[n] as int)
  {
  }

  lemma ReadWrittenDelim(t: Token, rest: seq<byte>)
    requires IsDelimToken(t)
    ensures ReadToken(Written(t) + [NEWLINE] + rest) == Some((t, rest))
  {
    var s := Written(t) + [NEWLINE] + rest;
    HexRoundTrip(t[0]);
    assert s[4..] == rest && [t[0]] == t;
  }

  lemma ReadWrittenRun(t: Token, rest: seq<byte>)
    requires IsRun(t)
    ensures ReadToken(Written(t) + [NEWLINE] + rest) == Some((t, rest))
  {
    var body := t + [NEWLINE] + rest;
    assert Written(t) + [NEWLINE] + rest == [ONE] + body;
    RunBody(t, rest);
    ReadRun(body);
  }

  lemma RunBody(t: Token, rest: seq<byte>)
    requires IsRun(t)
    ensures var body := t + [NEWLINE] + rest;
      Find(body, NEWLINE) == |t| && body[..|t|] == t && body[|t| + 1..] == rest
  {
    assert NEWLINE !in t;
    FindFirst(t, NEWLINE, rest);
  }

  lemma ReadRun(body: seq<byte>)
    ensures var n := Find(body, NEWLINE);
      n < |body| ==> ReadToken([ONE] + body) == Some((body[..n], body[n + 1..]))
  {
    var n, s := Find(body, NEWLINE), [ONE] + body;
    assert s[1..] == body;
    if n < |body| {
      assert s[1..1 + n] == s[1..][..n] && s[n + 2..] == s[1..][n + 1..];
    }
  }

  ghost predicate Printable(es: seq<Entry>) {
    forall i :: 0 <= i < |es| ==> IsDelimToken(es[i].token) || IsRun(es[i].token)
  }

  lemma LineParts(e: Entry, rest: seq<byte>)
    ensures var tail := Written(e.token) + [NEWLINE] + rest;
      Line(e) + rest == e.code + [TAB] + tail
      && Find(Line(e) + rest, TAB) == |e.code|
      && (Line(e) + rest)[..|e.code|] == e.code
      && (Line(e) + rest)[|e.code| + 1..] == tail
  {
    var tail := Written(e.token) + [NEWLINE] + rest;
    assert Line(e) + rest == e.code + [TAB] + tail;
    assert TAB !in e.code;
    FindFirst(e.code, TAB, tail);
  }

  lemma ReadWrittenLine(e: Entry, rest: seq<byte>)
    requires IsDelimToken(e.token) || IsRun(e.token)
    ensures ReadLine(Line(e) + rest) == Some((e, rest))
  {
    LineParts(e, rest);
    if IsDelimToken(e.token) {
      ReadWrittenDelim(e.token, rest);
    } else {
      ReadWrittenRun(e.token, rest);
    }
  }

  lemma {:induction false} ReadWrittenLines(es: seq<Entry>, more: seq<byte>)
    requires Printable(es)
    ensures ReadLines(Lines(es) + more, |es|) == Some(es)
  {
    if es != [] {
      var e, rest := es[0], Lines(es[1..]);
      Associative(Line(e), rest, more);
      ReadWrittenLine(e, rest + more);
      ReadWrittenLines(es[1..], more);
      assert [e] + es[1..] == es;
    }
  }

  /** A line whose first token character is not 1 holds a byte in hex; the character behind
      the two digits is skipped unseen. */
  lemma ReadHexToken(mark: byte, high: byte, low: byte, last: byte, rest: seq<byte>)
    requires mark != ONE && HexValue(high).Some? && HexValue(low).Some?
    ensures ReadToken([mark, high, low, last] + rest) == Some(([16 * HexValue(high).value + HexValue(low).value], rest))
  {
    assert ([mark, high, low, last] + rest)[4..] == rest;
  }

  lemma ReadBookHead(n: int, rest: seq<byte>)
    requires rest == [] || !IsDigit(rest[0])
    ensures ReadBook(PrintInt(n) + rest) == ReadLines(SkipSpaces(rest), n)
  {
    ScanPrinted(n, rest);
  }

  /** A code book with non-empty codes is read back as it was written; what stands behind its
      last line is not looked at. */
  lemma BookRoundTrip(es: seq<Entry>, more: seq<byte>)
    requires Printable(es) && (es != [] ==> es[0].code != [])
    ensures ReadBook(BookText(es) + more) == Some(es)
  {
    var rest := Lines(es) + more;
    BookStarts(es, more);
    ReadBookHead(|es|, [NEWLINE] + rest);
    SkipNewline(rest);
    ReadWrittenLines(es, more);
    if es != [] {
      assert rest[0] == es[0].code[0];
    }
  }

  lemma BookStarts(es: seq<Entry>, more: seq<byte>)
    ensures BookText(es) + more == PrintInt(|es|) + ([NEWLINE] + (Lines(es) + more))
  {
  }

  lemma SkipNewline(rest: seq<byte>)
    ensures SkipSpaces([NEWLINE] + rest) == SkipSpaces(rest)
  {
    assert ([NEWLINE] + rest)[1..] == rest;
  }

  lemma {:induction false} NotFound(s: seq<byte>, b: byte)
    requires b !in s
    ensures Find(s, b) == |s|
  {
    if s != [] {
      assert s[0] in s;
      NotFound(s[1..], b);
    }
  }

  lemma SkipNewlineAndTab(tail: seq<byte>)
    requires tail != [] && !IsSpace(tail[0])
    ensures SkipSpaces([NEWLINE] + ([TAB] + tail)) == tail
  {
    assert ([TAB] + tail)[1..] == tail;
    assert ([NEWLINE] + ([TAB] + tail))[1..] == [TAB] + tail;
    assert SkipSpaces([TAB] + tail) == SkipSpaces(tail) == tail;
  }

  lemma NoTabNoLine(t: Token, tail: seq<byte>)
    requires (IsDelimToken(t) || IsRun(t)) && tail == Written(t) + [NEWLINE]
    ensures ReadLines(tail, 1) == None
  {
    assert TAB !in tail;
    NotFound(tail, TAB);
  }

  lemma LoneText(t: Token, tail: seq<byte>)
    requires tail == Written(t) + [NEWLINE]
    ensures BookText([Entry([], t)]) == PrintInt(1) + ([NEWLINE] + ([TAB] + tail))
  {
    var es := [Entry([], t)];
    assert es[1..] == [];
    assert Lines(es) == [TAB] + tail;
  }

  lemma LoneTail(tail: seq<byte>)
    requires tail != [] && !IsSpace(tail[0])
    ensures ReadBook(PrintInt(1) + ([NEWLINE] + ([TAB] + tail))) == ReadLines(tail, 1)
  {
    ReadBookHead(1, [NEWLINE] + ([TAB] + tail));
    SkipNewlineAndTab(tail);
  }

  /** With a single token its code is empty, the blanks behind the count swallow the tab,
      and the reader runs over the end of the file. */
  lemma LoneTokenIsUnreadable(t: Token, text: seq<byte>)
    requires (IsDelimToken(t) || IsRun(t)) && text == BookText([Entry([], t)])
    ensures ReadBook(text) == None
  {
    var tail := Written(t) + [NEWLINE];
    LoneText(t, tail);
    LoneTail(tail);
    NoTabNoLine(t, tail);
  }

  // ---------- The loops of Asst2/huffman.c ----------

  lemma LinesOneMore(es: seq<Entry>, i: nat)
    requires i < |es|
    ensures Lines(es[i..]) == Line(es[i]) + Lines(es[i + 1..])
  {
    assert es[i..][1..] == es[i + 1..];
  }

  /** The token part of a line: control characters are written in hex. */
  method DumpToken(content: Expandable, word: Token)
    requires content.Valid()
    modifies content, content.data
    ensures content.Valid() && (content.data == old(content.data) || fresh(content.data))
    ensures content.Contents() == old(content.Contents()) + Written(word)
  {
    ghost var done := content.Contents();
    if |word| == 1 && IsDelim(word[0]) {
      content.Append(ZERO);
      content.AppendSequence([HexDigit(word[0] / 16), HexDigit(word[0] % 16)]);
      Associative(done, [ZERO], [HexDigit(word[0] / 16), HexDigit(word[0] % 16)]);
    } else {
      content.Append(ONE);
      content.AppendSequence(word);
      Associative(done, [ONE], word);
    }
  }

  lemma Regroup(d: seq<byte>, a: seq<byte>, b: seq<byte>, c: seq<byte>, e: seq<byte>)
    ensures d + a + b + c + e == d + (a + b + c + e)
  {
    Associative(d, a, b);
    Associative(d, a + b, c);
    Associative(d, a + b + c, e);
  }

  /** The body of the loop of dumpCodeBookToFileRaw. */
  method DumpLine(content: Expandable, code: Code, word: Token)
    requires content.Valid()
    modifies content, content.data
    ensures content.Valid() && (content.data == old(content.data) || fresh(content.data))
    ensures content.Contents() == old(content.Contents()) + Line(Entry(code, word))
  {
    ghost var done := content.Contents();
    content.AppendSequence(code);
    content.Append(TAB);
    DumpToken(content, word);
    content.Append(NEWLINE);
    Regroup(done, code, [TAB], Written(word), [NEWLINE]);
  }

  /** dumpCodeBookToFileRaw. In the original the count is printed straight into the fresh
      50-byte buffer, which a C int always fits. */
  method DumpCodeBook(codes: array<Code>, words: array<Token>, size: nat, ghost es: seq<Entry>)
    returns (content: Expandable)
    requires size == |es| == codes.Length == words.Length
    requires forall i :: 0 <= i < size ==> codes[i] == es[i].code && words[i] == es[i].token
    ensures fresh(content) && fresh(content.data) && content.Valid() && content.Contents() == BookText(es)
  {
    content := new Expandable();
    content.AppendSequence(PrintInt(size));
    content.Append(NEWLINE);
    var i := 0;
    ghost var target := BookText(es);
    assert es[0..] == es && content.Contents() == PrintInt(size) + [NEWLINE];
    while i < size
      invariant 0 <= i <= size
      invariant fresh(content) && content.Valid() && fresh(content.data)
      invariant content.Contents() + Lines(es[i..]) == target
    {
      ghost var done := content.Contents();
      LinesOneMore(es, i);
      DumpLine(content, codes[i], words[i]);
      Associative(done, Line(es[i]), Lines(es[i + 1..]));
      i := i + 1;
    }
  }

  /** Reading on from s with i lines to go and es read so far comes to `target`. */
  ghost predicate Reads(s: seq<byte>, i: int, es: seq<Entry>, target: Option<seq<Entry>>) {
    match ReadLines(s, i)
    case None => target == None
    case Some(rest) => target == Some(es + rest)
  }

  lemma ReadsMore(s: seq<byte>, i: int, es: seq<Entry>, target: Option<seq<Entry>>, e: Entry, rest: seq<byte>)
    requires Reads(s, i, es, target) && i > 0 && ReadLine(s) == Some((e, rest))
    ensures Reads(rest, i - 1, es + [e], target)
  {
    ReadsNext(s, i, es, target);
  }

  lemma ReadsNext(s: seq<byte>, i: int, es: seq<Entry>, target: Option<seq<Entry>>)
    requires Reads(s, i, es, target)
    ensures i <= 0 ==> target == Some(es)
    ensures i > 0 && ReadLine(s).None? ==> target == None
    ensures i > 0 && ReadLine(s).Some? ==>
      Reads(ReadLine(s).value.1, i - 1, es + [ReadLine(s).value.0], target)
  {
    if i <= 0 {
      assert es + [] == es;
    } else if ReadLine(s).Some? {
      var (e, rest) := ReadLine(s).value;
      if ReadLines(rest, i - 1).Some? {
        Associative(es, [e], ReadLines(rest, i - 1).value);
      }
    }
  }

  lemma ReadsFromStart(s: seq<byte>, i: int)
    ensures Reads(s, i, [], ReadLines(s, i))
  {
    if ReadLines(s, i).Some? {
      assert [] + ReadLines(s, i).value == ReadLines(s, i).value;
    }
  }

  /** Reads bytes up to the next b, or to the end of the file. */
  method ReadUntil(data: seq<byte>, start: nat, b: byte) returns (space: seq<byte>, counter: nat)
    requires start <= |data|
    ensures counter == start + Find(data[start..], b) && space == data[start..counter]
  {
    space, counter := [], start;
    while counter < |data| && data[counter] != b
      invariant start <= counter <= |data| && space == data[start..counter]
      invariant Find(data[start..], b) == counter - start + Find(data[counter..], b)
    {
      assert data[counter..][1..] == data[counter + 1..];
      space := space + [data[counter]];
      counter := counter + 1;
    }
  }

  /** The token part of a line. */
  method LoadToken(data: seq<byte>, start: nat) returns (r: Option<(Token, nat)>)
    requires start <= |data|
    ensures r.None? <==> ReadToken(data[start..]).None?
    ensures r.Some? ==> start < r.value.1 <= |data|
    ensures r.Some? ==> ReadToken(data[start..]) == Some((r.value.0, data[r.value.1..]))
  {
    if start == |data| {
      return None;
    }
    var counter := start + 1;
    assert data[start..][1..] == data[counter..];
    if data[start] == ONE {
      var space;
      space, counter := ReadUntil(data, counter, NEWLINE);
      if counter == |data| {
        return None;
      }
      var n := Find(data[start + 1..], NEWLINE);
      assert data[start..][1..1 + n] == space && data[start..][n + 2..] == data[counter + 1..];
      r := Some((space, counter + 1));
    } else {
      if counter + 3 > |data| || HexValue(data[counter]).None? || HexValue(data[counter + 1]).None? {
        return None;
      }
      var control: byte := 16 * HexValue(data[counter]).value + HexValue(data[counter + 1]).value;
      assert data[start..][4..] == data[counter + 3..];
      r := Some(([control], counter + 3));
    }
  }

  /** The body of the loop of loadBSTFromCodeBookFile. */
  method LoadLine(data: seq<byte>, start: nat) returns (r: Option<(Entry, nat)>)
    requires start <= |data|
    ensures r.None? <==> ReadLine(data[start..]).None?
    ensures r.Some? ==> r.value.1 <= |data|
    ensures r.Some? ==> ReadLine(data[start..]) == Some((r.value.0, data[r.value.1..]))
  {
    ghost var s := data[start..];
    var code, tab := ReadUntil(data, start, TAB);
    assert s[..tab - start] == code;
    if tab == |data| || !IsCode(code) {
      return None;
    }
    assert s[tab - start + 1..] == data[tab + 1..];
    var token := LoadToken(data, tab + 1);
    if token.None? {
      return None;
    }
    r := Some((Entry(code, token.value.0), token.value.1));
  }

  /** One turn of the loop over the lines. */
  method LoadNext(data: seq<byte>, start: nat, es: seq<Entry>, ghost i: int, ghost target: Option<seq<Entry>>)
    returns (next: Option<nat>, es': seq<Entry>)
    requires start <= |data| && i > 0 && Reads(data[start..], i, es, target)
    ensures next.None? ==> target == None
    ensures next.Some? ==> next.value <= |data| && Reads(data[next.value..], i - 1, es', target)
  {
    ghost var s := data[start..];
    var line := LoadLine(data, start);
    if line.None? {
      ReadsNext(s, i, es, target);
      return None, es;
    }
    ghost var rest := data[line.value.1..];
    ReadsMore(s, i, es, target, line.value.0, rest);
    next, es' := Some(line.value.1), es + [line.value.0];
  }

  /** The loop over the lines. */
  method LoadLines(data: seq<byte>, start: nat, lines: int) returns (r: Option<seq<Entry>>)
    requires start <= |data|
    ensures r == ReadLines(data[start..], lines)
  {
    var counter: nat := start;
    var es: seq<Entry> := [];
    var i := lines;
    ghost var target := ReadLines(data[counter..], lines);
    ReadsFromStart(data[counter..], lines);
    while i > 0
      invariant counter <= |data|
      invariant Reads(data[counter..], i, es, target)
    {
      var next;
      next, es := LoadNext(data, counter, es, i, target);
      if next.None? {
        return None;
      }
      counter := next.value;
      i := i - 1;
    }
    ReadsNext(data[counter..], i, es, target);
    return Some(es);
  }

  lemma BehindSpaces(rest: seq<byte>, data: seq<byte>)
    requires IsSuffix(rest, data)
    ensures |SkipSpaces(rest)| <= |data| && data[|data| - |SkipSpaces(rest)|..] == SkipSpaces(rest)
  {
    SkipSpacesSuffix(rest);
    SuffixTransitive(SkipSpaces(rest), rest, data);
  }

  lemma ReadBookFrom(data: seq<byte>, lines: int, rest: seq<byte>)
    requires ScanInt(data) == Some((lines, rest))
    ensures ReadBook(data) == ReadLines(SkipSpaces(rest), lines)
  {
  }

  /** sscanf "%d\n%n": the number of lines and the cursor behind it and all blanks. */
  method ScanCount(data: seq<byte>) returns (r: Option<(int, nat)>)
    ensures r.None? <==> ScanInt(data).None?
    ensures r.Some? ==> r.value.1 <= |data|
    ensures r.Some? ==> ReadBook(data) == ReadLines(data[r.value.1..], r.value.0)
  {
    var head := ScanInt(data);
    if head.None? {
      return None;
    }
    var lines, rest := head.value.0, head.value.1;
    ScanIntSuffix(data);
    BehindSpaces(rest, data);
    ReadBookFrom(data, lines, rest);
    r := Some((lines, |data| - |SkipSpaces(rest)|));
  }

  /** loadBSTFromCodeBookFile: None where the original would read beyond the end of the
      file, scan no number, or meet a code that is not one. */
  method LoadCodeBook(data: seq<byte>) returns (r: Option<seq<Entry>>)
    ensures r == ReadBook(data)
  {
    var head := ScanCount(data);
    if head.None? {
      return None;
    }
    r := LoadLines(data, head.value.1, head.value.0);
  }
}
