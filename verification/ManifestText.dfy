/** The text of a manifest (Asst3/common/util.c): a header line of 16 characters, the version
    of the project, and one line for each file with its Base64 name, version and hash. */
module ManifestText {
  import opened CTypes
  import opened Decimal
  import opened Base64
  import opened ManifestItems

  datatype Line = Line(filename64: seq<byte>, versionNum: int, hash: seq<byte>)

  /** "Made_By_HXX&DZZ" and a line feed. */
  const HEADER: seq<byte> := [77, 97, 100, 101, 95, 66, 121, 95, 72, 88, 88, 38, 68, 90, 90, NEWLINE]

  // ---------- Writing ----------

  function LineText(line: Line): seq<byte> {
    line.filename64 + [SPACE] + PrintInt(line.versionNum) + [SPACE] + line.hash + [NEWLINE]
  }

  function LinesText(lines: seq<Line>): seq<byte> {
    if lines == [] then [] else LinesText(lines[..|lines| - 1]) + LineText(lines[|lines| - 1])
  }

  function TextOf(version: int, lines: seq<Line>): seq<byte> {
    HEADER + PrintInt(version) + [NEWLINE] + LinesText(lines)
  }

  /** What is written for an item: its stored hash, or the new one. */
  function LineOf(item: Item, useNew: bool): Line
    reads item
  {
    Line(item.filename64, item.versionNum, if useNew then item.newhash else item.hash)
  }

  /** The lines for all items. */
  function Lines(items: seq<Item>, useNew: bool): (r: seq<Line>)
    reads items
    ensures |r| == |items|
    ensures forall i :: 0 <= i < |items| ==> r[i] == LineOf(items[i], useNew)
  {
    seq(|items|, i requires 0 <= i < |items| reads items => LineOf(items[i], useNew))
  }

  method WriteLine(item: Item, useNew: bool) returns (line: seq<byte>)
    ensures line == LineText(LineOf(item, useNew))
  {
    var hash := if useNew then item.newhash else item.hash;
    line := item.filename64 + [SPACE] + PrintInt(item.versionNum) + [SPACE] + hash + [NEWLINE];
  }

  /** The text after the first i lines. */
  function TextUpTo(front: seq<byte>, lines: seq<Line>, i: nat): seq<byte>
    requires i <= |lines|
  {
    if i == 0 then front else TextUpTo(front, lines, i - 1) + LineText(lines[i - 1])
  }

  lemma OneLineMore(front: seq<byte>, before: seq<Line>, line: Line)
    ensures front + LinesText(before) + LineText(line) == front + LinesText(before + [line])
  {
    LinesTextMore(before, line);
    Associative(front, LinesText(before), LineText(line));
  }

  lemma FirstLines(lines: seq<Line>, i: nat)
    requires 0 < i <= |lines|
    ensures lines[..i] == lines[..i - 1] + [lines[i - 1]]
  {
  }

  lemma NothingWritten(front: seq<byte>, lines: seq<Line>)
    ensures TextUpTo(front, lines, 0) == front + LinesText(lines[..0])
  {
    assert lines[..0] == [] && front + [] == front;
  }

  lemma {:induction false} TextUpToIs(front: seq<byte>, lines: seq<Line>, i: nat)
    requires i <= |lines|
    ensures TextUpTo(front, lines, i) == front + LinesText(lines[..i])
  {
    if i == 0 {
      NothingWritten(front, lines);
    } else {
      TextUpToIs(front, lines, i - 1);
      FirstLines(lines, i);
      OneLineMore(front, lines[..i - 1], lines[i - 1]);
    }
  }

  lemma TextUpToEnd(version: int, lines: seq<Line>)
    ensures TextUpTo(HEADER + PrintInt(version) + [NEWLINE], lines, |lines|) == TextOf(version, lines)
  {
    TextUpToIs(HEADER + PrintInt(version) + [NEWLINE], lines, |lines|);
    assert lines[..|lines|] == lines;
  }

  /** The loop over the items. */
  method WriteLines(front: seq<byte>, items: seq<Item>, useNew: bool, ghost lines: seq<Line>) returns (text: seq<byte>)
    requires |lines| == |items| && forall i :: 0 <= i < |items| ==> lines[i] == LineOf(items[i], useNew)
    ensures text == TextUpTo(front, lines, |items|)
  {
    text := front;
    var i := 0;
    while i < |items|
      invariant i <= |items| && text == TextUpTo(front, lines, i)
    {
      var line := WriteLine(items[i], useNew);
      assert line == LineText(lines[i]);
      text := text + line;
      i := i + 1;
    }
  }

  method WriteManifest(items: seq<Item>, version: int, useNew: bool) returns (text: seq<byte>)
    ensures text == TextOf(version, Lines(items, useNew))
  {
    ghost var lines := Lines(items, useNew);
    text := HEADER + PrintInt(version) + [NEWLINE];
    TextUpToEnd(version, lines);
    text := WriteLines(text, items, useNew, lines);
  }

  // ---------- Words ----------

  predicate IsSeparator(c: byte) {
    c == NEWLINE || c == SPACE
  }

  /** The words read so far and the one that has begun. */
  datatype Reading = Reading(words: seq<seq<byte>>, word: seq<byte>)

  function ReadChar(r: Reading, c: byte): Reading {
    if IsSeparator(c) then Reading(r.words + [r.word], []) else Reading(r.words, r.word + [c])
  }

  /** The words of a text, each ended by a line feed or a blank, and what follows the last. */
  function Words(text: seq<byte>): Reading {
    if text == [] then Reading([], [])
    else ReadChar(Words(text[..|text| - 1]), text[|text| - 1])
  }

  lemma WordsOfLonger(text: seq<byte>, c: byte)
    ensures Words(text + [c]) == ReadChar(Words(text), c)
  {
    assert (text + [c])[..|text|] == text;
  }

  predicate Solid(word: seq<byte>) {
    forall i :: 0 <= i < |word| ==> !IsSeparator(word[i])
  }

  lemma {:induction false} SolidWord(text: seq<byte>, word: seq<byte>)
    requires Solid(word)
    ensures Words(text + word) == Reading(Words(text).words, Words(text).word + word)
  {
    var r := Words(text);
    if word == [] {
      assert text + word == text;
      assert r.word + word == r.word;
    } else {
      var n := |word| - 1;
      SolidWord(text, word[..n]);
      LastOf(text, word);
      WordsOfLonger(text + word[..n], word[n]);
      LastOf(r.word, word);
    }
  }

  lemma LastOf(front: seq<byte>, word: seq<byte>)
    requires word != []
    ensures front + word == front + word[..|word| - 1] + [word[|word| - 1]]
  {
  }

  /** A word with its separator is the next word. */
  lemma NextWord(text: seq<byte>, words: seq<seq<byte>>, word: seq<byte>, c: byte)
    requires Solid(word) && IsSeparator(c) && Words(text) == Reading(words, [])
    ensures Words(text + word + [c]) == Reading(words + [word], [])
  {
    SolidWord(text, word);
    assert [] + word == word;
    WordsOfLonger(text + word, c);
  }

  /** atol: the number at the front, or 0. */
  function Atol(word: seq<byte>): int {
    var v := ScanInt(word);
    if v.None? then 0 else v.value.0
  }

  // ---------- Reading ----------

  /** Three words make a line. */
  function LinesOf(words: seq<seq<byte>>): seq<Line> {
    if |words| < 3 then []
    else [Line(words[0], Atol(words[1]), words[2])] + LinesOf(words[3..])
  }

  /** The lines behind the version number; None if the last one is not complete. */
  function ReadLines(text: seq<byte>): Option<seq<Line>> {
    var words := Words(text).words;
    if |words| % 3 != 0 then None else Some(LinesOf(words))
  }

  /** The number in the second line, and the text behind it and the blanks that follow; what
      the variable held before stays if there is no number. */
  function ReadVersion(text: seq<byte>, unset: int): (int, seq<byte>)
    requires |text| >= 16
  {
    var v := ScanInt(text[16..]);
    if v.None? then (unset, text[16..]) else (v.value.0, SkipSpaces(v.value.1))
  }

  // ---------- Reading undoes writing ----------

  /** A line whose words can be told apart again. */
  ghost predicate Plain(line: Line) {
    line.filename64 != [] && AllLetters(line.filename64) && Solid(line.hash)
  }

  lemma LettersAreSolid(t: seq<byte>)
    requires AllLetters(t)
    ensures Solid(t)
  {
  }

  lemma {:induction false} LinesAppend(words: seq<seq<byte>>, a: seq<byte>, b: seq<byte>, c: seq<byte>)
    requires |words| % 3 == 0
    ensures LinesOf(words + [a, b, c]) == LinesOf(words) + [Line(a, Atol(b), c)]
  {
    if words == [] {
      assert words + [a, b, c] == [a, b, c];
      assert [a, b, c][3..] == [];
    } else {
      assert (words + [a, b, c])[3..] == words[3..] + [a, b, c];
      LinesAppend(words[3..], a, b, c);
    }
  }

  lemma LineWords(text: seq<byte>, words: seq<seq<byte>>, line: Line)
    requires Plain(line) && Words(text) == Reading(words, [])
    ensures Words(text + LineText(line))
      == Reading(words + [line.filename64, PrintInt(line.versionNum), line.hash], [])
  {
    var a, b, c := line.filename64, PrintInt(line.versionNum), line.hash;
    LettersAreSolid(a);
    var t1 := text + a + [SPACE];
    var t2 := t1 + b + [SPACE];
    NextWord(text, words, a, SPACE);
    NextWord(t1, words + [a], b, SPACE);
    NextWord(t2, words + [a] + [b], c, NEWLINE);
    LineJoined(text, a, b, c);
    assert words + [a] + [b] + [c] == words + [a, b, c];
  }

  lemma LineJoined(text: seq<byte>, a: seq<byte>, b: seq<byte>, c: seq<byte>)
    ensures text + (a + [SPACE] + b + [SPACE] + c + [NEWLINE])
      == text + a + [SPACE] + b + [SPACE] + c + [NEWLINE]
  {
  }

  ghost predicate ReadsAs(text: seq<byte>, lines: seq<Line>) {
    match Words(text)
    case Reading(words, word) => word == [] && |words| % 3 == 0 && LinesOf(words) == lines
  }

  lemma WordsReadAs(text: seq<byte>, words: seq<seq<byte>>, lines: seq<Line>)
    requires Words(text) == Reading(words, []) && |words| % 3 == 0 && LinesOf(words) == lines
    ensures ReadsAs(text, lines)
  {
  }

  lemma ThreeMore(words: seq<seq<byte>>, more: seq<seq<byte>>)
    requires |words| % 3 == 0 && |more| == 3
    ensures |words + more| % 3 == 0
  {
  }

  lemma ReadOneMore(text: seq<byte>, lines: seq<Line>, line: Line)
    requires Plain(line) && ReadsAs(text, lines)
    ensures ReadsAs(text + LineText(line), lines + [line])
  {
    var words := Words(text).words;
    var more := [line.filename64, PrintInt(line.versionNum), line.hash];
    LineWords(text, words, line);
    LinesAppend(words, line.filename64, PrintInt(line.versionNum), line.hash);
    AtolPrinted(line.versionNum);
    ThreeMore(words, more);
    WordsReadAs(text + LineText(line), words + more, lines + [line]);
  }

  lemma LinesTextMore(front: seq<Line>, line: Line)
    ensures LinesText(front + [line]) == LinesText(front) + LineText(line)
  {
    assert (front + [line])[..|front|] == front;
  }

  lemma ReadLinesMore(front: seq<Line>, line: Line)
    requires Plain(line) && ReadsAs(LinesText(front), front)
    ensures ReadsAs(LinesText(front + [line]), front + [line])
  {
    ReadOneMore(LinesText(front), front, line);
    LinesTextMore(front, line);
  }

  lemma FrontAndLast(lines: seq<Line>)
    requires lines != []
    ensures lines == lines[..|lines| - 1] + [lines[|lines| - 1]]
  {
  }

  lemma {:induction false} ReadLinesText(lines: seq<Line>)
    requires forall i :: 0 <= i < |lines| ==> Plain(lines[i])
    ensures ReadsAs(LinesText(lines), lines)
  {
    if lines == [] {
      NothingReadsAsNothing();
    } else {
      var front, line := lines[..|lines| - 1], lines[|lines| - 1];
      FrontAndLast(lines);
      ReadLinesText(front);
      ReadLinesMore(front, line);
    }
  }

  lemma NothingReadsAsNothing()
    ensures ReadsAs([], [])
  {
  }

  /** Line k is in the words 3 * k to 3 * k + 2: name, version, hash. */
  ghost predicate InWords(words: seq<seq<byte>>, lines: seq<Line>, k: nat) {
    && k < |lines| && 3 * k + 2 < |words|
    && words[3 * k] == lines[k].filename64
    && words[3 * k + 1] == PrintInt(lines[k].versionNum)
    && words[3 * k + 2] == lines[k].hash
  }

  /** The words of a manifest behind its version. */
  lemma {:induction false} LinesAsWords(lines: seq<Line>)
    requires forall i :: 0 <= i < |lines| ==> Plain(lines[i])
    ensures Words(LinesText(lines)).word == [] && |Words(LinesText(lines)).words| == 3 * |lines|
    ensures forall k: nat :: k < |lines| ==> InWords(Words(LinesText(lines)).words, lines, k)
  {
    if lines != [] {
      var front, line := lines[..|lines| - 1], lines[|lines| - 1];
      FrontAndLast(lines);
      LinesAsWords(front);
      LinesTextMore(front, line);
      LineWords(LinesText(front), Words(LinesText(front)).words, line);
      forall k: nat | k < |lines| ensures InWords(Words(LinesText(lines)).words, lines, k) {
        assert k < |front| ==> InWords(Words(LinesText(front)).words, front, k);
      }
    }
  }

  lemma AtolPrinted(n: int)
    ensures Atol(PrintInt(n)) == n
  {
    ScanPrinted(n, []);
    assert PrintInt(n) + [] == PrintInt(n);
  }

  lemma {:induction false} LinesTextStarts(lines: seq<Line>)
    requires forall i :: 0 <= i < |lines| ==> Plain(lines[i])
    ensures LinesText(lines) != [] ==> !IsSpace(LinesText(lines)[0])
  {
    if lines != [] {
      var n := |lines| - 1;
      LinesTextStarts(lines[..n]);
      assert IsLetter(lines[n].filename64[0]);
    }
  }

  /** The number behind the header line is the version. */
  lemma ScanText(version: int, lines: seq<Line>)
    ensures var text := TextOf(version, lines);
      |text| > 16 && ScanInt(text[16..]) == Some((version, [NEWLINE] + LinesText(lines)))
  {
    BehindHeader(HEADER, PrintInt(version), [NEWLINE], LinesText(lines));
    ScanPrinted(version, [NEWLINE] + LinesText(lines));
  }

  lemma BehindHeader(h: seq<byte>, p: seq<byte>, n: seq<byte>, t: seq<byte>)
    ensures (h + p + n + t)[|h|..] == p + (n + t)
  {
  }

  /** Reading a written manifest gives the version and all lines back, in their order. */
  lemma ReadWritten(version: int, lines: seq<Line>, unset: int)
    requires forall i :: 0 <= i < |lines| ==> Plain(lines[i])
    ensures var text := TextOf(version, lines);
      && |text| >= 16 && ReadVersion(text, unset) == (version, LinesText(lines))
      && ReadLines(ReadVersion(text, unset).1) == Some(lines)
  {
    var body := LinesText(lines);
    ScanText(version, lines);
    LinesTextStarts(lines);
    assert ([NEWLINE] + body)[1..] == body;
    assert SkipSpaces(body) == body;
    ReadLinesText(lines);
  }

  // ---------- The loop that reads ----------

  /** A name that can be decoded: anything else makes the decoder read outside its buffers. */
  ghost predicate IsName(word: seq<byte>) {
    word != [] && |word| % 4 == 0 && AllLetters(word)
  }

  ghost predicate NamesDecodable(text: seq<byte>) {
    forall k: nat :: 3 * k < |Words(text).words| ==> NameAt(Words(text).words, k)
  }

  /** The first word of line k is a name. */
  ghost predicate NameAt(words: seq<seq<byte>>, k: nat) {
    3 * k < |words| && IsName(words[3 * k])
  }

  /** An item stands for a line: its fields are those of the line, and its file name is what
      the Base64 text stands for. */
  ghost predicate Stands(item: Item, line: Line)
    reads item
  {
    LineOf(item, false) == line && IsName(line.filename64) && IsDecoded(line.filename64, item.filename)
  }

  method NewItem(word: seq<byte>) returns (item: Item)
    requires IsName(word)
    ensures fresh(item) && item.filename64 == word && IsDecoded(word, item.filename)
  {
    var text := new byte[|word|](i requires 0 <= i < |word| => word[i]);
    assert text[..] == word;
    var name := Base64Decode(text);
    item := new Item(word, name.value[..]);
  }

  /** The reader's state: complete lines, and the words of the one that has begun. */
  ghost predicate Collected(list: seq<Item>, curr: Item?, done: seq<seq<byte>>, pending: seq<seq<byte>>)
    reads list, curr
  {
    && |pending| <= 2 && |done| % 3 == 0 && |list| == |LinesOf(done)|
    && (forall i :: 0 <= i < |list| ==> Stands(list[i], LinesOf(done)[i]))
    && (pending != [] ==>
        && curr != null && curr !in list && IsName(pending[0])
        && curr.filename64 == pending[0] && IsDecoded(pending[0], curr.filename))
    && (|pending| == 2 ==> curr.versionNum == Atol(pending[1]))
  }

  lemma LineOfThree(done: seq<seq<byte>>, pending: seq<seq<byte>>, word: seq<byte>)
    requires |done| % 3 == 0 && |pending| == 2
    ensures var done' := done + [pending[0], pending[1], word];
      && |done'| % 3 == 0 && done' + [] == done + pending + [word]
      && LinesOf(done') == LinesOf(done) + [Line(pending[0], Atol(pending[1]), word)]
  {
    LinesAppend(done, pending[0], pending[1], word);
  }

  /** A word has ended: it is the name, the version or the hash of a line. */
  method TakeWord(list: seq<Item>, curr: Item?, field: nat, word: seq<byte>,
                  ghost done: seq<seq<byte>>, ghost pending: seq<seq<byte>>)
    returns (list': seq<Item>, curr': Item?, field': nat, ghost done': seq<seq<byte>>, ghost pending': seq<seq<byte>>)
    requires Collected(list, curr, done, pending) && field == |pending| && (field == 0 ==> IsName(word))
    modifies if field > 0 then {curr} else {}
    ensures Collected(list', curr', done', pending') && field' == |pending'|
    ensures done' + pending' == done + pending + [word]
    ensures (field == 0 ==> fresh(curr')) && (field > 0 ==> curr' == curr)
    ensures forall x :: x in list' ==> x in list || x == curr
  {
    list', done' := list, done;
    if field == 0 {
      curr' := NewItem(word);
      field', pending' := 1, [word];
    } else if field == 1 {
      curr' := curr;
      curr.versionNum := Atol(word);
      field', pending' := 2, [pending[0], word];
    } else {
      curr' := curr;
      curr.hash := word;
      list' := list + [curr];
      LineOfThree(done, pending, word);
      field', done', pending' := 0, done + [pending[0], pending[1], word], [];
    }
  }

  method ReadItems(text: seq<byte>) returns (items: Option<seq<Item>>)
    requires NamesDecodable(text)
    ensures items.None? <==> ReadLines(text).None?
    ensures items.Some? ==> |items.value| == |ReadLines(text).value|
    ensures items.Some? ==> forall i :: 0 <= i < |items.value| ==> Stands(items.value[i], ReadLines(text).value[i])
    ensures items.Some? ==> forall x :: x in items.value ==> fresh(x)
  {
    var list: seq<Item>, curr: Item?, temporary: seq<byte>, field: nat := [], null, [], 0;
    ghost var done: seq<seq<byte>>, pending: seq<seq<byte>> := [], [];
    var tmp := 0;
    assert text[..0] == [];
    while tmp < |text|
      invariant tmp <= |text| && Words(text[..tmp]) == Reading(done + pending, temporary)
      invariant Collected(list, curr, done, pending) && field == |pending|
      invariant (curr != null ==> fresh(curr)) && forall x :: x in list ==> fresh(x)
    {
      OneMoreChar(text, tmp);
      if text[tmp] == NEWLINE || text[tmp] == SPACE {
        if field == 0 {
          assert done + pending == done;
          FirstOfLine(text, tmp + 1, done, temporary);
        }
        list, curr, field, done, pending := TakeWord(list, curr, field, temporary, done, pending);
        temporary := [];
      } else {
        temporary := temporary + [text[tmp]];
      }
      tmp := tmp + 1;
    }
    assert text[..tmp] == text;
    AllRead(text, done, pending);
    items := if field != 0 then None else Some(list);
  }

  lemma AllRead(text: seq<byte>, done: seq<seq<byte>>, pending: seq<seq<byte>>)
    requires Words(text).words == done + pending && |done| % 3 == 0 && |pending| <= 2
    ensures ReadLines(text) == if pending == [] then Some(LinesOf(done)) else None
  {
    if pending == [] {
      assert done + pending == done;
    } else {
      NotAMultiple(|done|, |pending|);
      assert |done + pending| == |done| + |pending|;
    }
  }

  lemma NotAMultiple(n: nat, k: nat)
    requires n % 3 == 0 && 0 < k < 3
    ensures (n + k) % 3 == k
  {
  }

  lemma OneMoreChar(text: seq<byte>, i: nat)
    requires i < |text|
    ensures Words(text[..i + 1]) == ReadChar(Words(text[..i]), text[i])
  {
    WordsOfLonger(text[..i], text[i]);
    assert text[..i + 1] == text[..i] + [text[i]];
  }

  lemma {:induction false} WordsGrow(text: seq<byte>, i: nat)
    requires i <= |text|
    ensures Words(text[..i]).words <= Words(text).words
    decreases |text| - i
  {
    if i == |text| {
      assert text[..i] == text;
    } else {
      assert text[..i + 1][..i] == text[..i];
      WordsGrow(text, i + 1);
    }
  }

  /** The first word of a line is a name when all of them are. */
  lemma FirstOfLine(text: seq<byte>, i: nat, done: seq<seq<byte>>, word: seq<byte>)
    requires i <= |text| && |done| % 3 == 0 && Words(text[..i]).words == done + [word]
    requires NamesDecodable(text)
    ensures IsName(word)
  {
    WordsGrow(text, i);
    assert Words(text).words[|done|] == word;
    assert 3 * (|done| / 3) == |done|;
    assert NameAt(Words(text).words, |done| / 3);
  }

  method ReadManifest(text: seq<byte>, unset: int) returns (version: int, items: Option<seq<Item>>)
    requires |text| >= 16 && NamesDecodable(ReadVersion(text, unset).1)
    ensures version == ReadVersion(text, unset).0
    ensures items.None? <==> ReadLines(ReadVersion(text, unset).1).None?
    ensures items.Some? ==> |items.value| == |ReadLines(ReadVersion(text, unset).1).value|
    ensures items.Some? ==> forall i :: 0 <= i < |items.value| ==>
      Stands(items.value[i], ReadLines(ReadVersion(text, unset).1).value[i])
    ensures items.Some? ==> forall x :: x in items.value ==> fresh(x)
  {
    var (v, rest) := ReadVersion(text, unset);
    version := v;
    items := ReadItems(rest);
  }

  // ---------- Writing and reading back ----------

  /** The items of a well-kept manifest: names with their Base64 texts, hashes without blanks. */
  ghost predicate WellKept(item: Item)
    reads item
  {
    item.filename != [] && IsEncoded(item.filename, item.filename64) && Solid(item.hash)
  }

  lemma {:induction false} WordsOfLines(lines: seq<Line>, words: seq<seq<byte>>, i: nat)
    requires LinesOf(words) == lines && |words| % 3 == 0 && 3 * i < |words|
    ensures i < |lines| && words[3 * i] == lines[i].filename64
  {
    if i > 0 {
      WordsOfLines(lines[1..], words[3..], i - 1);
    }
  }

  lemma WrittenIsReadable(lines: seq<Line>)
    requires forall i :: 0 <= i < |lines| ==> Plain(lines[i]) && IsName(lines[i].filename64)
    ensures NamesDecodable(LinesText(lines))
  {
    ReadLinesText(lines);
    var words := Words(LinesText(lines)).words;
    forall k: nat | 3 * k < |words| ensures NameAt(words, k) {
      WordsOfLines(lines, words, k);
    }
  }

  lemma EncodedIsPlain(item: Item)
    requires WellKept(item)
    ensures Plain(LineOf(item, false)) && IsName(item.filename64)
  {
    DecodeEncode(item.filename, item.filename64, item.filename);
  }

  lemma SameItem(item: Item, line: Line, item': Item)
    requires WellKept(item) && line == LineOf(item, false) && Stands(item', line)
    ensures item'.filename == item.filename && LineOf(item', false) == LineOf(item, false)
  {
    DecodeEncode(item.filename, line.filename64, item'.filename);
  }

  /** Writes a manifest and reads it back: the version, and the items in their order with
      names, versions and hashes, are the same. */
  method WriteAndRead(items: seq<Item>, version: int, unset: int)
    returns (text: seq<byte>, version': int, items': seq<Item>)
    requires forall i :: 0 <= i < |items| ==> WellKept(items[i])
    ensures text == TextOf(version, Lines(items, false))
    ensures version' == version && |items'| == |items| && forall x :: x in items' ==> fresh(x)
    ensures forall i :: 0 <= i < |items| ==>
      items'[i].filename == items[i].filename && LineOf(items'[i], false) == LineOf(items[i], false)
  {
    ghost var lines := Lines(items, false);
    forall i | 0 <= i < |items| ensures Plain(lines[i]) && IsName(lines[i].filename64) {
      EncodedIsPlain(items[i]);
    }
    text := WriteManifest(items, version, false);
    ReadWritten(version, lines, unset);
    WrittenIsReadable(lines);
    var read;
    version', read := ReadManifest(text, unset);
    items' := read.value;
    forall i | 0 <= i < |items|
      ensures items'[i].filename == items[i].filename && LineOf(items'[i], false) == LineOf(items[i], false)
    {
      SameItem(items[i], lines[i], items'[i]);
    }
  }
}
