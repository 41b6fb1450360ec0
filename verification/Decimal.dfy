/** Printing and scanning decimal integers, as sprintf and sscanf do with %d and %ld. */
module Decimal {
  import opened CTypes

  function Digits(n: nat): (ds: seq<byte>)
    ensures ds != [] && forall i :: 0 <= i < |ds| ==> IsDigit(ds[i])
  {
    if n < 10 then [ZERO + n] else Digits(n / 10) + [ZERO + n % 10]
  }

  function PrintInt(n: int): (s: seq<byte>)
    ensures s != [] && (IsDigit(s[0]) || s[0] == MINUS)
    ensures forall i :: 0 <= i < |s| ==> IsDigit(s[i]) || s[i] == MINUS
  {
    if n < 0 then [MINUS] + Digits(-n) else Digits(n)
  }

  // ---------- What the digits mean ----------

  function Pow10(k: nat): (p: nat)
    ensures p > 0
  {
    if k == 0 then 1 else 10 * Pow10(k - 1)
  }

  /** The sum of the digits, each times its power of ten. */
  function Weighted(ds: seq<byte>): int {
    if ds == [] then 0 else (ds[0] - ZERO) * Pow10(|ds| - 1) + Weighted(ds[1..])
  }

  lemma TenTimes(x: int, p: nat)
    ensures x * (10 * p) == 10 * (x * p)
  {
  }

  lemma {:induction false} WeightedAppend(ds: seq<byte>, d: byte)
    ensures Weighted(ds + [d]) == 10 * Weighted(ds) + (d - ZERO)
  {
    if ds == [] {
      assert [] + [d] == [d] && [d][1..] == [];
      TenTimes(d - ZERO, 0);
      assert Pow10(0) == 1;
    } else {
      assert (ds + [d])[1..] == ds[1..] + [d];
      WeightedAppend(ds[1..], d);
      TenTimes(ds[0] - ZERO, Pow10(|ds| - 1));
    }
  }

  /** A printed number is the decimal one: weighted with powers of ten the digits sum to its
      absolute value, and the first digit is zero only for the number zero. */
  lemma {:induction false} DigitsAreDecimal(n: nat)
    ensures Weighted(Digits(n)) == n
    ensures Digits(n)[0] == ZERO <==> n == 0
  {
    if n < 10 {
      WeightedAppend([], ZERO + n);
      assert [] + [ZERO + n] == Digits(n);
    } else {
      DigitsAreDecimal(n / 10);
      WeightedAppend(Digits(n / 10), ZERO + n % 10);
    }
  }

  lemma PrintedIsDecimal(n: int)
    ensures var s := PrintInt(n);
      && (s[0] == MINUS <==> n < 0)
      && (n < 0 ==> |s| > 1 && Weighted(s[1..]) == -n && s[1] != ZERO)
      && (n >= 0 ==> Weighted(s) == n && (s[0] == ZERO <==> n == 0))
  {
    DigitsAreDecimal(if n < 0 then -n else n);
  }

  function SkipSpaces(s: seq<byte>): seq<byte> {
    if s != [] && IsSpace(s[0]) then SkipSpaces(s[1..]) else s
  }

  /** The value of the digits at the front of s, continued from acc, and what follows. */
  function TakeDigits(s: seq<byte>, acc: nat): (nat, seq<byte>) {
    if s != [] && IsDigit(s[0]) then TakeDigits(s[1..], 10 * acc + (s[0] - ZERO)) else (acc, s)
  }

  /** Skips blanks, takes an optional sign and at least one digit; the number scanned and
      the rest of the text. */
  function ScanInt(s: seq<byte>): Option<(int, seq<byte>)> {
    var t := SkipSpaces(s);
    var signed := t != [] && (t[0] == MINUS || t[0] == PLUS);
    var u := if signed then t[1..] else t;
    if u == [] || !IsDigit(u[0]) then None
    else
      var (n, rest) := TakeDigits(u, 0);
      var value: int := n;
      Some((if signed && t[0] == MINUS then -value else value, rest))
  }

  lemma {:induction false} TakeDigitsAppend(a: seq<byte>, b: seq<byte>, acc: nat)
    requires forall i :: 0 <= i < |a| ==> IsDigit(a[i])
    ensures TakeDigits(a + b, acc) == TakeDigits(b, TakeDigits(a, acc).0)
  {
    if a == [] {
      assert a + b == b;
    } else {
      assert (a + b)[1..] == a[1..] + b;
      TakeDigitsAppend(a[1..], b, 10 * acc + (a[0] - ZERO));
    }
  }

  lemma {:induction false} TakeDigitsOfDigits(n: nat)
    ensures TakeDigits(Digits(n), 0).0 == n
  {
    if n < 10 {
      assert Digits(n)[1..] == [];
    } else {
      var d: byte := ZERO + n % 10;
      TakeDigitsOfDigits(n / 10);
      TakeDigitsAppend(Digits(n / 10), [d], 0);
      assert [d][1..] == [];
    }
  }

  /** Scanning what was printed gives the number back and stops right behind it. */
  lemma ScanPrinted(n: int, rest: seq<byte>)
    requires rest == [] || !IsDigit(rest[0])
    ensures ScanInt(PrintInt(n) + rest) == Some((n, rest))
  {
    var m := if n < 0 then -n else n;
    var s := PrintInt(n) + rest;
    TakeDigitsAppend(Digits(m), rest, 0);
    TakeDigitsOfDigits(m);
    assert SkipSpaces(s) == s;
    if n < 0 {
      assert s[1..] == Digits(m) + rest;
    }
  }

  lemma MoveDigit(acc: int, d: int, p: int)
    ensures (10 * acc + d) * p == acc * (10 * p) + d * p
  {
  }

  lemma {:induction false} TakeDigitsIsWeighted(ds: seq<byte>, acc: nat)
    requires forall i :: 0 <= i < |ds| ==> IsDigit(ds[i])
    ensures TakeDigits(ds, acc) == (acc * Pow10(|ds|) + Weighted(ds), [])
  {
    if ds != [] {
      var d, p := ds[0] - ZERO, Pow10(|ds| - 1);
      TakeDigitsIsWeighted(ds[1..], 10 * acc + d);
      MoveDigit(acc, d, p);
    }
  }

  lemma {:induction false} SkipSpacesAppend(blanks: seq<byte>, s: seq<byte>)
    requires (forall i :: 0 <= i < |blanks| ==> IsSpace(blanks[i])) && (s != [] ==> !IsSpace(s[0]))
    ensures SkipSpaces(blanks + s) == s
  {
    if blanks == [] {
      assert blanks + s == s;
    } else {
      assert (blanks + s)[1..] == blanks[1..] + s;
      SkipSpacesAppend(blanks[1..], s);
    }
  }

  ghost predicate IsSign(sign: seq<byte>) {
    sign == [] || sign == [PLUS] || sign == [MINUS]
  }

  function Signed(sign: seq<byte>, n: int): int {
    if sign == [MINUS] then -n else n
  }

  predicate StartsUnsigned(u: seq<byte>) {
    u != [] ==> u[0] != PLUS && u[0] != MINUS
  }

  lemma ScanSigned(s: seq<byte>, sign: seq<byte>, u: seq<byte>)
    requires SkipSpaces(s) == sign + u && IsSign(sign) && (sign == [] ==> StartsUnsigned(u))
    ensures ScanInt(s) ==
      if u == [] || !IsDigit(u[0]) then None
      else Some((Signed(sign, TakeDigits(u, 0).0), TakeDigits(u, 0).1))
  {
    if sign == [] {
      assert sign + u == u;
    } else {
      assert (sign + u)[0] == sign[0] && (sign + u)[1..] == u;
    }
  }

  lemma TakeAll(ds: seq<byte>, rest: seq<byte>)
    requires (forall i :: 0 <= i < |ds| ==> IsDigit(ds[i])) && (rest == [] || !IsDigit(rest[0]))
    ensures TakeDigits(ds + rest, 0) == (Weighted(ds), rest)
  {
    TakeDigitsAppend(ds, rest, 0);
    TakeDigitsIsWeighted(ds, 0);
  }

  lemma BehindBlanks(blanks: seq<byte>, sign: seq<byte>, ds: seq<byte>, rest: seq<byte>)
    requires (forall i :: 0 <= i < |blanks| ==> IsSpace(blanks[i])) && IsSign(sign)
    requires forall i :: 0 <= i < |ds| ==> IsDigit(ds[i])
    requires sign == [] && ds == [] ==> StartsUnsigned(rest) && (rest != [] ==> !IsSpace(rest[0]))
    ensures SkipSpaces(blanks + (sign + (ds + rest))) == sign + (ds + rest)
    ensures sign == [] ==> StartsUnsigned(ds + rest)
  {
    var t := sign + (ds + rest);
    if sign != [] {
      assert t[0] == sign[0];
    } else if ds != [] {
      assert t == ds + rest && t[0] == ds[0];
    } else {
      assert t == rest;
    }
    SkipSpacesAppend(blanks, t);
  }

  /** What scanf reads: blanks, a sign if there is one, and as many digits as there are, which
      stand for the decimal number. Without a digit there is no number. */
  lemma ScanWhole(blanks: seq<byte>, sign: seq<byte>, ds: seq<byte>, rest: seq<byte>)
    requires (forall i :: 0 <= i < |blanks| ==> IsSpace(blanks[i])) && IsSign(sign)
    requires (forall i :: 0 <= i < |ds| ==> IsDigit(ds[i])) && (rest == [] || !IsDigit(rest[0]))
    requires sign == [] && ds == [] ==> StartsUnsigned(rest) && (rest != [] ==> !IsSpace(rest[0]))
    ensures ScanInt(blanks + (sign + (ds + rest))) ==
      if ds == [] then None else Some((Signed(sign, Weighted(ds)), rest))
  {
    var u := ds + rest;
    BehindBlanks(blanks, sign, ds, rest);
    ScanSigned(blanks + (sign + u), sign, u);
    TakeAll(ds, rest);
    assert ds == [] ==> u == rest;
    assert ds != [] ==> u[0] == ds[0];
  }

  // ---------- Scanners stop at a suffix of their text ----------

  ghost predicate IsSuffix(t: seq<byte>, s: seq<byte>) {
    |t| <= |s| && t == s[|s| - |t|..]
  }

  lemma {:induction false} SkipSpacesSuffix(s: seq<byte>)
    ensures IsSuffix(SkipSpaces(s), s)
  {
    if s != [] && IsSpace(s[0]) {
      SkipSpacesSuffix(s[1..]);
    }
  }

  lemma {:induction false} TakeDigitsSuffix(s: seq<byte>, acc: nat)
    ensures IsSuffix(TakeDigits(s, acc).1, s)
  {
    if s != [] && IsDigit(s[0]) {
      TakeDigitsSuffix(s[1..], 10 * acc + (s[0] - ZERO));
    }
  }

  lemma SuffixTransitive(u: seq<byte>, t: seq<byte>, s: seq<byte>)
    requires IsSuffix(u, t) && IsSuffix(t, s)
    ensures IsSuffix(u, s)
  {
  }

  lemma ScanIntSuffix(s: seq<byte>)
    requires ScanInt(s).Some?
    ensures IsSuffix(ScanInt(s).value.1, s)
  {
    var t := SkipSpaces(s);
    var u := if t[0] == MINUS || t[0] == PLUS then t[1..] else t;
    SkipSpacesSuffix(s);
    TakeDigitsSuffix(u, 0);
    SuffixTransitive(TakeDigits(u, 0).1, u, t);
    SuffixTransitive(TakeDigits(u, 0).1, t, s);
  }
}
