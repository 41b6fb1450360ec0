/** Base64 as in Asst3/common/util.c, which follows section 4 of RFC 4648: three bytes become
    four letters, and '=' pads the last group. */
module Base64 {
  import opened CTypes

  const PAD: byte := 61

  /** The letter for a value below 64. */
  function Letter(x: nat): (r: byte)
    requires x < 64
    ensures r != PAD && !IsSpace(r)
  {
    if x < 26 then 65 + x
    else if x < 52 then 97 + x - 26
    else if x < 62 then ZERO + x - 52
    else if x == 62 then PLUS
    else 47
  }

  lemma LetterInjective(x: nat, y: nat)
    requires x < 64 && y < 64 && Letter(x) == Letter(y)
    ensures x == y
  {
  }

  const CAPITALS := "ABCDEFGHIJKLMNOPQRSTUVWXYZ"
  const SMALL := "abcdefghijklmnopqrstuvwxyz"
  const OTHERS := "0123456789+/"

  /** The 64 letters, written out as in table 1 of section 4 of RFC 4648. */
  const ALPHABET := CAPITALS + SMALL + OTHERS

  function AlphabetAt(x: nat): byte
    requires x < 64
  {
    (ALPHABET[x] as int) % 256
  }

  lemma LetterIsWrittenOut(x: nat)
    requires x < 64
    ensures |ALPHABET| == 64 && ALPHABET[x] as int == Letter(x) && AlphabetAt(x) == Letter(x)
  {
    if x < 26 {
      CapitalAt(x);
    } else if x < 52 {
      SmallAt(x - 26);
    } else {
      OtherAt(x - 52);
    }
  }

  lemma CapitalAt(x: nat)
    requires x < |CAPITALS|
    ensures |CAPITALS| == 26 && CAPITALS[x] as int == Letter(x)
  {
  }

  lemma SmallAt(x: nat)
    requires x < |SMALL|
    ensures |SMALL| == 26 && SMALL[x] as int == Letter(26 + x)
  {
  }

  lemma OtherAt(x: nat)
    requires x < |OTHERS|
    ensures |OTHERS| == 12 && OTHERS[x] as int == Letter(52 + x)
  {
  }

  /** A letter of the alphabet, or the padding. */
  predicate IsLetter(c: byte) {
    c == PAD || c == PLUS || 47 <= c <= NINE || 65 <= c <= 90 || 97 <= c <= 122
  }

  /** The value of a letter; padding counts as 0. */
  function Value(c: byte): (x: nat)
    requires IsLetter(c)
    ensures x < 64
    ensures c != PAD ==> Letter(x) == c
  {
    if c == PAD then 0
    else if c == PLUS then 62
    else if c == 47 then 63
    else if c <= NINE then c - ZERO + 52
    else if c <= 90 then c - 65
    else c - 97 + 26
  }

  // ---------- Groups of 24 bits ----------

  function Triple(a: byte, b: byte, c: byte): (t: nat)
    ensures t < 0x1000000
  {
    0x10000 * a + 0x100 * b + c
  }

  /** Six of the 24 bits, the highest first. */
  function Sextet(t: nat, k: nat): (x: nat)
    requires t < 0x1000000 && k < 4
    ensures x < 64
  {
    if k == 0 then t / 0x40000 else if k == 1 then t / 0x1000 % 64
    else if k == 2 then t / 64 % 64 else t % 64
  }

  function Joined(a: nat, b: nat, c: nat, d: nat): (t: nat)
    requires a < 64 && b < 64 && c < 64 && d < 64
    ensures t < 0x1000000
  {
    0x40000 * a + 0x1000 * b + 64 * c + d
  }

  /** Eight of the 24 bits, the highest first. */
  function Octet(t: nat, k: nat): (x: byte)
    requires t < 0x1000000 && k < 3
  {
    if k == 0 then t / 0x10000 else if k == 1 then t / 0x100 % 0x100 else t % 0x100
  }

  lemma Quotient256(t: nat, q: nat, r: nat)
    requires t == 256 * q + r && r < 256
    ensures t / 256 == q && t % 256 == r
  {
  }

  lemma Quotient64(t: nat, q: nat, r: nat)
    requires t == 64 * q + r && r < 64
    ensures t / 64 == q && t % 64 == r
  {
  }

  lemma OctetsOfTriple(a: byte, b: byte, c: byte)
    ensures var t := Triple(a, b, c); Octet(t, 0) == a && Octet(t, 1) == b && Octet(t, 2) == c
  {
    var high: nat, t: nat := 256 * a + b, Triple(a, b, c);
    Quotient256(t, high, c);
    Quotient256(high, a, b);
    assert t / 0x10000 == t / 256 / 256;
  }

  lemma JoinedSextets(t: nat)
    requires t < 0x1000000
    ensures Joined(Sextet(t, 0), Sextet(t, 1), Sextet(t, 2), Sextet(t, 3)) == t
  {
    var t1 := t / 64;
    var t2 := t1 / 64;
    assert t == 64 * t1 + t % 64;
    assert t1 == 64 * t2 + t1 % 64;
    assert t2 == t / 0x1000;
    assert t2 / 64 == t / 0x40000;
    assert t2 == 64 * (t2 / 64) + t2 % 64;
  }

  lemma JoinedEqual(t: nat, a: nat, b: nat, c: nat, d: nat)
    requires t < 0x1000000
    requires a == Sextet(t, 0) && b == Sextet(t, 1) && c == Sextet(t, 2) && d == Sextet(t, 3)
    ensures Joined(a, b, c, d) == t
  {
    JoinedSextets(t);
  }

  /** Where bytes are missing, the bits are zero. */
  lemma MissingBits(a: byte, b: byte)
    ensures Sextet(Triple(a, b, 0), 3) == 0
    ensures Sextet(Triple(a, 0, 0), 2) == 0
  {
    Quotient64(Triple(a, b, 0), 1024 * a + 4 * b, 0);
    Quotient64(Triple(a, 0, 0), 1024 * a, 0);
    Quotient64(1024 * a, 16 * a, 0);
  }

  // ---------- Whole texts ----------

  function Groups(n: nat): nat {
    (n + 2) / 3
  }

  /** How many letters of the last group are padding. */
  function Padding(n: nat): nat {
    if n % 3 == 1 then 2 else if n % 3 == 2 then 1 else 0
  }

  lemma GroupsAndPadding(n: nat)
    ensures 3 * Groups(n) == n + Padding(n) && Padding(n) <= 2
  {
    var q, r := n / 3, n % 3;
    assert n == 3 * q + r;
    assert Groups(n) == if r == 0 then q else q + 1;
  }

  /** Padding stands only for missing bytes. */
  lemma PaddingMeansMissing(n: nat, g: nat, k: nat)
    requires g < Groups(n) && k < 4 && 4 * g + k >= 4 * Groups(n) - Padding(n)
    ensures k >= 2 && 3 * g + k - 1 >= n
  {
    GroupsAndPadding(n);
  }

  /** Byte i of s, or zero behind its end. */
  function At(s: seq<byte>, i: nat): byte {
    if i < |s| then s[i] else 0
  }

  function GroupTriple(s: seq<byte>, g: nat): (t: nat)
    ensures t < 0x1000000
  {
    Triple(At(s, 3 * g), At(s, 3 * g + 1), At(s, 3 * g + 2))
  }

  /** Letter k of group g of the text for s. */
  function TextAt(s: seq<byte>, g: nat, k: nat): (r: byte)
    requires k < 4
    ensures IsLetter(r)
  {
    if 4 * g + k < 4 * Groups(|s|) - Padding(|s|) then Letter(Sextet(GroupTriple(s, g), k)) else PAD
  }

  /** t is the Base64 text of s. */
  ghost predicate IsEncoded(s: seq<byte>, t: seq<byte>) {
    |t| == 4 * Groups(|s|) && forall g: nat, k: nat :: g < Groups(|s|) && k < 4 ==> LetterIn(s, t, g, k)
  }

  ghost predicate LetterIn(s: seq<byte>, t: seq<byte>, g: nat, k: nat)
    requires k < 4
  {
    4 * g + k < |t| && t[4 * g + k] == TextAt(s, g, k)
  }

  ghost predicate AllLetters(t: seq<byte>) {
    forall i :: 0 <= i < |t| ==> IsLetter(t[i])
  }

  /** The 24 bits of group g. */
  function GroupBits(t: seq<byte>, g: nat): (b: nat)
    requires 4 * g + 4 <= |t| && forall i :: 0 <= i < |t| ==> IsLetter(t[i])
    ensures b < 0x1000000
  {
    Joined(Value(t[4 * g]), Value(t[4 * g + 1]), Value(t[4 * g + 2]), Value(t[4 * g + 3]))
  }

  function DecodedLength(t: seq<byte>): (n: nat)
    requires |t| % 4 == 0 && t != []
    ensures |t| / 4 * 3 - 2 <= n <= |t| / 4 * 3
  {
    |t| / 4 * 3 - (if t[|t| - 1] == PAD then 1 else 0) - (if t[|t| - 2] == PAD then 1 else 0)
  }

  /** The bytes of s from 3 * g on are the octets of the given 24 bits, as far as s goes. */
  ghost predicate OctetsAt(s: seq<byte>, g: nat, bits: nat)
    requires bits < 0x1000000
  {
    && (3 * g < |s| ==> s[3 * g] == Octet(bits, 0))
    && (3 * g + 1 < |s| ==> s[3 * g + 1] == Octet(bits, 1))
    && (3 * g + 2 < |s| ==> s[3 * g + 2] == Octet(bits, 2))
  }

  ghost predicate GroupIn(t: seq<byte>, s: seq<byte>, g: nat)
    requires AllLetters(t)
  {
    4 * g + 4 <= |t| && OctetsAt(s, g, GroupBits(t, g))
  }

  /** s is what the Base64 text t stands for. */
  ghost predicate IsDecoded(t: seq<byte>, s: seq<byte>)
    requires |t| % 4 == 0 && t != [] && AllLetters(t)
  {
    |s| == DecodedLength(t) && forall g: nat :: 4 * g < |t| ==> GroupIn(t, s, g)
  }

  /** The first g groups of letters, without padding. */
  ghost predicate FilledUpTo(s: seq<byte>, t: seq<byte>, g: nat) {
    |t| == 4 * Groups(|s|) && forall h: nat :: h < g ==> GroupFilled(s, t, h)
  }

  ghost predicate GroupFilled(s: seq<byte>, t: seq<byte>, h: nat) {
    4 * h + 4 <= |t| && LettersAt(t, h, GroupTriple(s, h))
  }

  ghost predicate LettersAt(t: seq<byte>, h: nat, bits: nat)
    requires bits < 0x1000000 && 4 * h + 4 <= |t|
  {
    && t[4 * h] == Letter(Sextet(bits, 0)) && t[4 * h + 1] == Letter(Sextet(bits, 1))
    && t[4 * h + 2] == Letter(Sextet(bits, 2)) && t[4 * h + 3] == Letter(Sextet(bits, 3))
  }

  // ---------- The bits of the text ----------

  /** Six of 16 bits, behind the first m of them, where m is 0, 2, 4 or 6. */
  function Window(bits: nat, m: nat): (x: nat)
    ensures x < 64
  {
    (if m == 0 then bits / 1024 else if m == 2 then bits / 256 else if m == 4 then bits / 64 else bits / 16) % 64
  }

  /** Bits 6 * j to 6 * j + 5 of the whole sequence, the highest bit of each byte first, and
      zeros behind its end. */
  function SixBits(s: seq<byte>, j: nat): (x: nat)
    ensures x < 64
  {
    var i := 6 * j / 8;
    Window(256 * At(s, i) + At(s, i + 1), 6 * j % 8)
  }

  /** Letter j is that of the six bits, for all bits of s; then come padding characters, up to
      a multiple of four. */
  ghost predicate SpellsBits(s: seq<byte>, t: seq<byte>) {
    && |t| % 4 == 0 && 8 * |s| <= 6 * (|t| - Padding(|s|)) < 8 * |s| + 6
    && (forall j: nat :: j < |t| - Padding(|s|) ==> SpelledAt(s, t, j))
    && (forall j :: |t| - Padding(|s|) <= j < |t| ==> t[j] == PAD)
  }

  ghost predicate SpelledAt(s: seq<byte>, t: seq<byte>, j: nat) {
    j < |t| && t[j] == AlphabetAt(SixBits(s, j))
  }

  lemma SextetParts(a: byte, b: byte, c: byte)
    ensures var t := Triple(a, b, c);
      && Sextet(t, 0) == a / 4 && Sextet(t, 1) == 16 * (a % 4) + b / 16
      && Sextet(t, 2) == 4 * (b % 16) + c / 64 && Sextet(t, 3) == c % 64
  {
    var t: nat, u: nat, v: nat := Triple(a, b, c), 1024 * a + 4 * b + c / 64, 16 * a + b / 16;
    Quotient64(t, u, c % 64);
    Quotient64(u, v, 4 * (b % 16) + c / 64);
    Quotient64(v, a / 4, 16 * (a % 4) + b / 16);
    assert t / 0x1000 == t / 64 / 64 && t / 0x40000 == t / 64 / 64 / 64;
  }

  lemma WindowParts(a: byte, b: byte)
    ensures Window(256 * a + b, 0) == a / 4
    ensures Window(256 * a + b, 6) == 16 * (a % 4) + b / 16
    ensures Window(256 * a + b, 4) == 4 * (a % 16) + b / 64
    ensures Window(256 * a + b, 2) == a % 64
  {
    var w: nat, u: nat := 256 * a + b, 16 * a + b / 16;
    Quotient256(w, a, b);
    assert w / 1024 == w / 256 / 4;
    assert w / 16 == u && w / 64 == 4 * a + b / 64;
    Quotient64(u, a / 4, 16 * (a % 4) + b / 16);
    Quotient64(4 * a + b / 64, a / 16, 4 * (a % 16) + b / 64);
  }

  lemma WhereSixBitsAre(s: seq<byte>, g: nat)
    ensures SixBits(s, 4 * g) == Window(256 * At(s, 3 * g) + At(s, 3 * g + 1), 0)
    ensures SixBits(s, 4 * g + 1) == Window(256 * At(s, 3 * g) + At(s, 3 * g + 1), 6)
    ensures SixBits(s, 4 * g + 2) == Window(256 * At(s, 3 * g + 1) + At(s, 3 * g + 2), 4)
    ensures SixBits(s, 4 * g + 3) == Window(256 * At(s, 3 * g + 2) + At(s, 3 * g + 3), 2)
  {
    Position(4 * g, 3 * g, 0);
    Position(4 * g + 1, 3 * g, 6);
    Position(4 * g + 2, 3 * g + 1, 4);
    Position(4 * g + 3, 3 * g + 2, 2);
  }

  lemma Position(j: nat, i: nat, m: nat)
    requires 6 * j == 8 * i + m && m < 8
    ensures 6 * j / 8 == i && 6 * j % 8 == m
  {
  }

  lemma SixBitsFront(s: seq<byte>, g: nat)
    ensures SixBits(s, 4 * g) == At(s, 3 * g) / 4
    ensures SixBits(s, 4 * g + 1) == 16 * (At(s, 3 * g) % 4) + At(s, 3 * g + 1) / 16
  {
    WhereSixBitsAre(s, g);
    WindowParts(At(s, 3 * g), At(s, 3 * g + 1));
  }

  lemma SixBitsBack(s: seq<byte>, g: nat)
    ensures SixBits(s, 4 * g + 2) == 4 * (At(s, 3 * g + 1) % 16) + At(s, 3 * g + 2) / 64
    ensures SixBits(s, 4 * g + 3) == At(s, 3 * g + 2) % 64
  {
    WhereSixBitsAre(s, g);
    WindowParts(At(s, 3 * g + 1), At(s, 3 * g + 2));
    WindowParts(At(s, 3 * g + 2), At(s, 3 * g + 3));
  }

  lemma SextetIsSixBits(s: seq<byte>, g: nat, k: nat)
    requires k < 4
    ensures SixBits(s, 4 * g + k) == Sextet(GroupTriple(s, g), k)
  {
    SextetParts(At(s, 3 * g), At(s, 3 * g + 1), At(s, 3 * g + 2));
    SixBitsFront(s, g);
    SixBitsBack(s, g);
  }

  lemma SpellsLength(n: nat, m: nat)
    requires m % 4 == 0 && 8 * n <= 6 * (m - Padding(n)) < 8 * n + 6
    ensures m == 4 * Groups(n)
  {
    GroupsAndPadding(n);
  }

  lemma SpelledIsLetter(s: seq<byte>, t: seq<byte>, g: nat, k: nat)
    requires |t| == 4 * Groups(|s|) && g < Groups(|s|) && k < 4 && 4 * g + k < |t| - Padding(|s|)
    ensures SpelledAt(s, t, 4 * g + k) <==> LetterIn(s, t, g, k)
  {
    SextetIsSixBits(s, g, k);
    LetterIsWrittenOut(Sextet(GroupTriple(s, g), k));
  }

  /** The Base64 text of s spells out the bits of s in the alphabet, and only it does. */
  lemma EncodedSpellsBits(s: seq<byte>, t: seq<byte>)
    ensures IsEncoded(s, t) <==> SpellsBits(s, t)
  {
    GroupsAndPadding(|s|);
    if IsEncoded(s, t) {
      forall j: nat | j < |t| - Padding(|s|) ensures SpelledAt(s, t, j) {
        assert j == 4 * (j / 4) + j % 4;
        assert LetterIn(s, t, j / 4, j % 4);
        SpelledIsLetter(s, t, j / 4, j % 4);
      }
      forall j | |t| - Padding(|s|) <= j < |t| ensures t[j] == PAD {
        assert LetterIn(s, t, j / 4, j % 4);
      }
    }
    if SpellsBits(s, t) {
      SpellsLength(|s|, |t|);
      forall g: nat, k: nat | g < Groups(|s|) && k < 4 ensures LetterIn(s, t, g, k) {
        if 4 * g + k < |t| - Padding(|s|) {
          assert SpelledAt(s, t, 4 * g + k);
          SpelledIsLetter(s, t, g, k);
        }
      }
    }
  }

  // ---------- Decoding undoes encoding ----------

  lemma EncodedLetters(s: seq<byte>, t: seq<byte>)
    requires IsEncoded(s, t)
    ensures AllLetters(t)
  {
    forall i | 0 <= i < |t| ensures IsLetter(t[i]) {
      assert LetterIn(s, t, i / 4, i % 4);
    }
  }

  lemma EncodedSextet(s: seq<byte>, t: seq<byte>, g: nat, k: nat)
    requires IsEncoded(s, t) && g < Groups(|s|) && k < 4
    ensures IsLetter(t[4 * g + k]) && Value(t[4 * g + k]) == Sextet(GroupTriple(s, g), k)
  {
    assert LetterIn(s, t, g, k);
    if 4 * g + k < 4 * Groups(|s|) - Padding(|s|) {
      LetterInjective(Value(t[4 * g + k]), Sextet(GroupTriple(s, g), k));
    } else {
      PaddingMeansMissing(|s|, g, k);
      MissingBits(At(s, 3 * g), At(s, 3 * g + 1));
    }
  }

  lemma GroupBitsAgree(s: seq<byte>, t: seq<byte>, g: nat)
    requires IsEncoded(s, t) && AllLetters(t) && g < Groups(|s|)
    ensures GroupBits(t, g) == GroupTriple(s, g)
  {
    EncodedSextet(s, t, g, 0);
    EncodedSextet(s, t, g, 1);
    EncodedSextet(s, t, g, 2);
    EncodedSextet(s, t, g, 3);
    JoinedEqual(GroupTriple(s, g), Value(t[4 * g]), Value(t[4 * g + 1]), Value(t[4 * g + 2]), Value(t[4 * g + 3]));
  }

  lemma LengthAgrees(s: seq<byte>, t: seq<byte>)
    requires IsEncoded(s, t) && s != []
    ensures |t| % 4 == 0 && t != [] && DecodedLength(t) == |s|
  {
    var n := Groups(|s|);
    GroupsAndPadding(|s|);
    assert LetterIn(s, t, n - 1, 2) && LetterIn(s, t, n - 1, 3);
  }

  lemma BytesAgree(s: seq<byte>, r: seq<byte>, g: nat)
    requires OctetsAt(r, g, GroupTriple(s, g)) && |r| == |s|
    ensures 3 * g < |s| ==> r[3 * g] == s[3 * g]
    ensures 3 * g + 1 < |s| ==> r[3 * g + 1] == s[3 * g + 1]
    ensures 3 * g + 2 < |s| ==> r[3 * g + 2] == s[3 * g + 2]
  {
    OctetsOfTriple(At(s, 3 * g), At(s, 3 * g + 1), At(s, 3 * g + 2));
  }

  lemma GroupOf(n: nat, i: nat) returns (g: nat, k: nat)
    requires i < n
    ensures i == 3 * g + k && k < 3 && g < Groups(n)
  {
    g, k := i / 3, i % 3;
    GroupsAndPadding(n);
  }

  lemma GroupAgrees(s: seq<byte>, t: seq<byte>, r: seq<byte>, g: nat)
    requires IsEncoded(s, t) && AllLetters(t) && |r| == |s| && g < Groups(|s|) && GroupIn(t, r, g)
    ensures OctetsAt(r, g, GroupTriple(s, g))
  {
    GroupBitsAgree(s, t, g);
  }

  lemma ByteAgrees(s: seq<byte>, r: seq<byte>, i: nat)
    requires |r| == |s| && i < |s|
    requires forall g: nat :: g < Groups(|s|) ==> OctetsAt(r, g, GroupTriple(s, g))
    ensures r[i] == s[i]
  {
    var g, k := GroupOf(|s|, i);
    BytesAgree(s, r, g);
    assert i == if k == 0 then 3 * g else if k == 1 then 3 * g + 1 else 3 * g + 2;
  }

  lemma EncodedIsDecoded(s: seq<byte>, t: seq<byte>)
    requires s != [] && IsEncoded(s, t) && AllLetters(t) && |t| % 4 == 0 && DecodedLength(t) == |s|
    ensures IsDecoded(t, s)
  {
    forall g: nat | 4 * g < |t| ensures GroupIn(t, s, g) {
      GroupBitsAgree(s, t, g);
      OctetsOfTriple(At(s, 3 * g), At(s, 3 * g + 1), At(s, 3 * g + 2));
    }
  }

  /** Different byte sequences have different texts. */
  lemma EncodedInjective(s: seq<byte>, r: seq<byte>, t: seq<byte>)
    requires s != [] && r != [] && IsEncoded(s, t) && IsEncoded(r, t)
    ensures s == r
  {
    DecodeEncode(s, t, r);
    DecodeEncode(r, t, r);
  }

  /** Decoding the text of a non-empty sequence of bytes gives exactly these bytes back. */
  lemma DecodeEncode(s: seq<byte>, t: seq<byte>, r: seq<byte>)
    requires s != [] && IsEncoded(s, t)
    ensures |t| % 4 == 0 && t != [] && AllLetters(t)
    ensures IsDecoded(t, r) <==> r == s
  {
    EncodedLetters(s, t);
    LengthAgrees(s, t);
    if r == s {
      EncodedIsDecoded(s, t);
    }
    if IsDecoded(t, r) {
      forall g: nat | g < Groups(|s|) ensures OctetsAt(r, g, GroupTriple(s, g)) {
        assert GroupIn(t, r, g);
        GroupAgrees(s, t, r, g);
      }
      forall i | 0 <= i < |s| ensures r[i] == s[i] {
        ByteAgrees(s, r, i);
      }
    }
  }

  // ---------- Encoding ----------

  method WriteGroup(encoded: array<byte>, j: nat, triple: nat, ghost g: nat)
    requires j == 4 * g && j + 4 <= encoded.Length && triple < 0x1000000
    modifies encoded
    ensures LettersAt(encoded[..], g, triple)
    ensures forall p :: 0 <= p < encoded.Length && !(j <= p < j + 4) ==> encoded[p] == old(encoded[p])
  {
    encoded[j] := Letter(triple / 0x40000 % 64);
    encoded[j + 1] := Letter(triple / 0x1000 % 64);
    encoded[j + 2] := Letter(triple / 64 % 64);
    encoded[j + 3] := Letter(triple % 64);
  }

  /** The encoding loop: three bytes at a time, zeros for bytes that are missing. */
  method EncodeGroups(data: array<byte>) returns (encoded: array<byte>)
    ensures fresh(encoded) && FilledUpTo(data[..], encoded[..], Groups(data.Length))
  {
    encoded := new byte[4 * ((data.Length + 2) / 3)];
    var i, j := 0, 0;
    ghost var g: nat := 0;
    GroupsAndPadding(data.Length);
    while i < data.Length
      invariant j == 4 * g && g <= Groups(data.Length)
      invariant if i < data.Length then i == 3 * g else g == Groups(data.Length)
      invariant FilledUpTo(data[..], encoded[..], g)
      decreases data.Length - i
    {
      var a, b, c: byte := data[i], 0, 0;
      i := i + 1;
      if i < data.Length {
        b := data[i];
        i := i + 1;
      }
      if i < data.Length {
        c := data[i];
        i := i + 1;
      }
      assert Triple(a, b, c) == GroupTriple(data[..], g);
      ghost var before := encoded[..];
      WriteGroup(encoded, j, 0x10000 * a + 0x100 * b + c, g);
      GroupWritten(data[..], before, encoded[..], g);
      j := j + 4;
      g := g + 1;
    }
  }

  lemma GroupWritten(s: seq<byte>, t: seq<byte>, t': seq<byte>, g: nat)
    requires FilledUpTo(s, t, g) && |t'| == |t| && GroupFilled(s, t', g)
    requires forall p :: 0 <= p < |t| && !(4 * g <= p < 4 * g + 4) ==> t'[p] == t[p]
    ensures FilledUpTo(s, t', g + 1)
  {
    forall h: nat | h < g + 1 ensures GroupFilled(s, t', h) {
      if h < g {
        assert GroupFilled(s, t, h);
        SameLetters(t, t', h, GroupTriple(s, h));
      }
    }
  }

  lemma SameLetters(t: seq<byte>, t': seq<byte>, h: nat, bits: nat)
    requires bits < 0x1000000 && 4 * h + 4 <= |t| == |t'| && LettersAt(t, h, bits)
    requires forall p :: 0 <= p < 4 * h + 4 ==> t'[p] == t[p]
    ensures LettersAt(t', h, bits)
  {
  }

  /** Encodes, and then writes the padding over the last letters. */
  method Base64Encode(data: array<byte>) returns (encoded: array<byte>)
    ensures fresh(encoded) && IsEncoded(data[..], encoded[..]) && SpellsBits(data[..], encoded[..])
  {
    encoded := EncodeGroups(data);
    ghost var full := encoded[..];
    var padding := if data.Length % 3 == 1 then 2 else if data.Length % 3 == 2 then 1 else 0;
    GroupsAndPadding(data.Length);
    var i := 0;
    while i < padding
      invariant i <= padding
      invariant forall p :: 0 <= p < encoded.Length ==>
        encoded[p] == if p < encoded.Length - i then full[p] else PAD
    {
      encoded[encoded.Length - 1 - i] := PAD;
      i := i + 1;
    }
    PaddingWritten(data[..], full, encoded[..]);
    EncodedSpellsBits(data[..], encoded[..]);
  }

  lemma PaddingWritten(s: seq<byte>, t: seq<byte>, t': seq<byte>)
    requires FilledUpTo(s, t, Groups(|s|)) && |t'| == |t|
    requires forall p :: 0 <= p < |t| ==> t'[p] == if p < |t| - Padding(|s|) then t[p] else PAD
    ensures IsEncoded(s, t')
  {
    forall g: nat, k: nat | g < Groups(|s|) && k < 4 ensures LetterIn(s, t', g, k) {
      assert GroupFilled(s, t, g);
      if k == 0 {
      } else if k == 1 {
      } else if k == 2 {
      }
    }
  }

  // ---------- Decoding ----------

  /** The table maps letters to their values; its other entries are never looked at. */
  method BuildDecodingTable() returns (table: array<byte>)
    ensures fresh(table) && table.Length == 256
    ensures forall x: nat :: x < 64 ==> table[Letter(x)] == x && table[AlphabetAt(x)] == x
  {
    table := new byte[256];
    var i := 0;
    while i < 64
      invariant i <= 64 && forall x: nat :: x < i ==> table[Letter(x)] == x
    {
      forall x: nat | x < i ensures Letter(x) != Letter(i) {
        LettersDiffer(x, i);
      }
      table[Letter(i)] := i;
      i := i + 1;
    }
    forall x: nat | x < 64 ensures table[AlphabetAt(x)] == x {
      LetterIsWrittenOut(x);
    }
  }

  lemma LettersDiffer(x: nat, y: nat)
    requires x < y < 64
    ensures Letter(x) != Letter(y)
  {
  }

  method ReadLetter(table: array<byte>, c: byte) returns (x: nat)
    requires table.Length == 256 && IsLetter(c)
    requires forall v: nat :: v < 64 ==> table[Letter(v)] == v
    ensures x == Value(c)
  {
    x := if c == PAD then 0 else table[c];
    assert c != PAD ==> table[Letter(Value(c))] == Value(c);
  }

  /** The bytes of the first g groups are there, as far as they belong to the result. */
  ghost predicate DecodedUpTo(t: seq<byte>, s: seq<byte>, g: nat)
    requires AllLetters(t)
  {
    forall h: nat :: h < g ==> GroupIn(t, s, h)
  }

  /** Writes the bytes of one group, as far as there is room. */
  method WriteBytes(data: array<byte>, j: nat, triple: nat, ghost g: nat) returns (next: nat)
    requires triple < 0x1000000 && j == if 3 * g < data.Length then 3 * g else data.Length
    modifies data
    ensures OctetsAt(data[..], g, triple)
    ensures next == if 3 * g + 3 < data.Length then 3 * g + 3 else data.Length
    ensures forall p :: 0 <= p < data.Length && p < 3 * g ==> data[p] == old(data[p])
  {
    next := j;
    if next < data.Length {
      data[next] := triple / 0x10000 % 0x100;
      next := next + 1;
    }
    if next < data.Length {
      data[next] := triple / 0x100 % 0x100;
      next := next + 1;
    }
    if next < data.Length {
      data[next] := triple % 0x100;
      next := next + 1;
    }
  }

  lemma BytesWritten(t: seq<byte>, s: seq<byte>, s': seq<byte>, g: nat)
    requires AllLetters(t) && DecodedUpTo(t, s, g) && |s'| == |s|
    requires GroupIn(t, s', g)
    requires forall p :: 0 <= p < |s| && p < 3 * g ==> s'[p] == s[p]
    ensures DecodedUpTo(t, s', g + 1)
  {
    forall h: nat | h < g + 1 ensures GroupIn(t, s', h) {
      if h < g {
        assert GroupIn(t, s, h);
        SameOctets(s, s', h, GroupBits(t, h));
      }
    }
  }

  lemma SameOctets(s: seq<byte>, s': seq<byte>, h: nat, bits: nat)
    requires bits < 0x1000000 && OctetsAt(s, h, bits) && |s'| == |s|
    requires forall p :: 0 <= p < |s| && p < 3 * h + 3 ==> s'[p] == s[p]
    ensures OctetsAt(s', h, bits)
  {
  }

  /** Decodes a text made of letters and padding; None if its length is not a multiple of
      four. */
  method Base64Decode(text: array<byte>) returns (decoded: Option<array<byte>>)
    requires text.Length > 0 && AllLetters(text[..])
    ensures decoded.None? <==> text.Length % 4 != 0
    ensures decoded.Some? ==> IsDecoded(text[..], decoded.value[..])
  {
    var table := BuildDecodingTable();
    if text.Length % 4 != 0 {
      return None;
    }
    var length := text.Length / 4 * 3;
    if text[text.Length - 1] == PAD {
      length := length - 1;
    }
    if text[text.Length - 2] == PAD {
      length := length - 1;
    }
    var data := new byte[length];
    var i, j: nat := 0, 0;
    ghost var g: nat := 0;
    while i < text.Length
      invariant i == 4 * g <= text.Length && j == if 3 * g < length then 3 * g else length
      invariant forall x: nat :: x < 64 ==> table[Letter(x)] == x
      invariant DecodedUpTo(text[..], data[..], g)
    {
      var triple := ReadGroup(text, table, i, g);
      i := i + 4;
      ghost var before := data[..];
      j := WriteBytes(data, j, triple, g);
      BytesWritten(text[..], before, data[..], g);
      g := g + 1;
    }
    decoded := Some(data);
  }

  method ReadGroup(text: array<byte>, table: array<byte>, i: nat, ghost g: nat) returns (triple: nat)
    requires AllLetters(text[..]) && i == 4 * g && i + 4 <= text.Length && table.Length == 256
    requires forall x: nat :: x < 64 ==> table[Letter(x)] == x
    ensures triple == GroupBits(text[..], g)
  {
    var a := ReadLetter(table, text[i]);
    var b := ReadLetter(table, text[i + 1]);
    var c := ReadLetter(table, text[i + 2]);
    var d := ReadLetter(table, text[i + 3]);
    triple := 0x40000 * a + 0x1000 * b + 64 * c + d;
  }
}
