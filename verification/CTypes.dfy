/** The few C-level notions every component shares: bytes, the character constants
    that matter to the text formats, and an optional value. */
module CTypes {

  type byte = b: int | 0 <= b < 256

  const TAB: byte := 9
  const NEWLINE: byte := 10
  const SPACE: byte := 32
  const MINUS: byte := 45
  const PLUS: byte := 43
  const ZERO: byte := 48
  const ONE: byte := 49
  const NINE: byte := 57

  /** The two characters a Huffman code is written with. */
  type Bit = b: byte | b == ZERO || b == ONE witness ZERO

  type Code = seq<Bit>

  /** The bytes of a string of ASCII characters. */
  function Text(s: string): (t: seq<byte>)
    ensures |t| == |s|
  {
    seq(|s|, i requires 0 <= i < |s| => (s[i] as int) % 256)
  }

  datatype Option<+T> = None | Some(value: T)

  /** isspace in the C locale: blank, or one of \t \n \v \f \r. */
  predicate IsSpace(b: byte) {
    b == SPACE || TAB <= b <= 13
  }

  predicate IsDigit(b: byte) {
    ZERO <= b <= NINE
  }

  /** Neither sequence is a prefix of the other. */
  ghost predicate Unrelated<T>(x: seq<T>, y: seq<T>) {
    !(x <= y) && !(y <= x)
  }

  function Concat<T>(parts: seq<seq<T>>): seq<T> {
    if parts == [] then [] else parts[0] + Concat(parts[1..])
  }

  lemma SamePrefixMultiset<T>(s: seq<T>, t: seq<T>, n: nat)
    requires n <= |s| == |t| && multiset(s) == multiset(t) && s[n..] == t[n..]
    ensures multiset(s[..n]) == multiset(t[..n])
  {
    assert s == s[..n] + s[n..] && t == t[..n] + t[n..];
    assert multiset(s) == multiset(s[..n]) + multiset(s[n..]);
    assert multiset(t) == multiset(t[..n]) + multiset(t[n..]);
    assert multiset(s[..n]) == multiset(s) - multiset(s[n..]);
  }

  lemma ExchangeBag<T>(s: seq<T>, i: nat, j: nat)
    requires i < |s| && j < |s|
    ensures multiset(s[i := s[j]][j := s[i]]) == multiset(s)
  {
  }

  /** Dropping the last element after writing it over the first removes the first. */
  lemma LastOverFirst<T>(s: seq<T>, n: nat)
    requires n < |s|
    ensures multiset(s[0 := s[n]][..n]) == multiset(s[..n + 1]) - multiset{s[0]}
  {
    if n == 0 {
      assert s[..1] == [s[0]];
    } else {
      assert s[..n + 1] == [s[0]] + s[1..n] + [s[n]];
      assert s[0 := s[n]][..n] == [s[n]] + s[1..n];
    }
  }

  lemma Associative<T>(a: seq<T>, b: seq<T>, c: seq<T>)
    ensures a + b + c == a + (b + c)
  {
  }
}
