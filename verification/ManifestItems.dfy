/** The items of a manifest and the order they are kept in (Asst3/common/util.c). */
module ManifestItems {
  import opened CTypes

  /** One file of a project. The hash is the one last stored, newhash that of the file as it
      is now; changecode is set when manifests are compared. */
  class Item {
    var filename64: seq<byte>
    var filename: seq<byte>
    var hash: seq<byte>
    var newhash: seq<byte>
    var versionNum: int
    var changecode: int

    constructor (filename64: seq<byte>, filename: seq<byte>)
      ensures this.filename64 == filename64 && this.filename == filename
    {
      this.filename64, this.filename := filename64, filename;
    }
  }

  /** memcmp on two sequences of the same length. */
  function MemCmp(a: seq<byte>, b: seq<byte>): int
    requires |a| == |b|
  {
    if a == [] then 0 else if a[0] != b[0] then a[0] - b[0] else MemCmp(a[1..], b[1..])
  }

  /** Shorter names come first, and names of the same length in byte order. */
  function CmpCompare(a: seq<byte>, b: seq<byte>): int {
    if |a| != |b| then |a| - |b| else MemCmp(a, b)
  }

  predicate Before(a: seq<byte>, b: seq<byte>) {
    CmpCompare(a, b) < 0
  }

  lemma {:induction false} MemCmpOrder(a: seq<byte>, b: seq<byte>)
    requires |a| == |b|
    ensures MemCmp(a, b) == 0 <==> a == b
    ensures MemCmp(b, a) == -MemCmp(a, b)
  {
    if a != [] && a[0] == b[0] {
      MemCmpOrder(a[1..], b[1..]);
      assert a == [a[0]] + a[1..] && b == [b[0]] + b[1..];
    }
  }

  lemma {:induction false} MemCmpTransitive(a: seq<byte>, b: seq<byte>, c: seq<byte>)
    requires |a| == |b| == |c| && MemCmp(a, b) < 0 && MemCmp(b, c) < 0
    ensures MemCmp(a, c) < 0
  {
    if a != [] && a[0] == b[0] && b[0] == c[0] {
      MemCmpTransitive(a[1..], b[1..], c[1..]);
    }
  }

  /** The comparison is a total order whose zero is equality of names. */
  lemma CmpIsOrder(a: seq<byte>, b: seq<byte>)
    ensures CmpCompare(a, b) == 0 <==> a == b
    ensures CmpCompare(b, a) == -CmpCompare(a, b)
  {
    if |a| == |b| {
      MemCmpOrder(a, b);
    }
  }

  lemma CmpTransitive(a: seq<byte>, b: seq<byte>, c: seq<byte>)
    requires Before(a, b) && Before(b, c)
    ensures Before(a, c)
  {
    if |a| == |b| == |c| {
      MemCmpTransitive(a, b, c);
    }
  }

  /** a and b are equal up to position i, where a has the smaller byte. */
  ghost predicate SmallerAt(a: seq<byte>, b: seq<byte>, i: nat) {
    i < |a| && i < |b| && a[..i] == b[..i] && a[i] < b[i]
  }

  lemma {:induction false} FirstDifference(a: seq<byte>, b: seq<byte>) returns (i: nat)
    requires |a| == |b| && MemCmp(a, b) < 0
    ensures SmallerAt(a, b, i)
  {
    if a[0] != b[0] {
      i := 0;
    } else {
      var k := FirstDifference(a[1..], b[1..]);
      i := k + 1;
      assert a[..i] == [a[0]] + a[1..][..k] && b[..i] == [b[0]] + b[1..][..k];
    }
  }

  lemma {:induction false} MemCmpAtDifference(a: seq<byte>, b: seq<byte>, i: nat)
    requires |a| == |b| && SmallerAt(a, b, i)
    ensures MemCmp(a, b) < 0
  {
    if i > 0 {
      assert a[0] == a[..i][0] && b[0] == b[..i][0];
      assert a[1..][..i - 1] == a[..i][1..] && b[1..][..i - 1] == b[..i][1..];
      MemCmpAtDifference(a[1..], b[1..], i - 1);
    }
  }

  /** Shorter names come first; names of the same length are in the order of the first byte
      in which they differ. */
  lemma BeforeIff(a: seq<byte>, b: seq<byte>)
    ensures Before(a, b) <==> |a| < |b| || (|a| == |b| && exists i :: SmallerAt(a, b, i))
  {
    if |a| == |b| {
      if i :| SmallerAt(a, b, i) {
        MemCmpAtDifference(a, b, i);
      }
      if Before(a, b) {
        var i := FirstDifference(a, b);
      }
    }
  }

  lemma NeverBeforeItself(a: seq<byte>, b: seq<byte>)
    requires Before(a, b)
    ensures a != b && !Before(b, a)
  {
    CmpIsOrder(a, b);
  }
}
