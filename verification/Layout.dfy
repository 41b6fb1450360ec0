/** The block structure of the 4096-byte heap of Asst1/mymalloc.c, apart from the bytes
    that encode it: a list of blocks, first fit with splitting, and freeing with merging
    on both sides. */
module Layout {

  const HEAP_SIZE: nat := 4096

  /** A block with its header: the total size in bytes and whether it is handed out. */
  datatype Block = Block(total: nat, used: bool)

  /** A block of more than 64 bytes needs the two-byte header. */
  function HeaderSize(total: nat): nat {
    if total > 64 then 2 else 1
  }

  function Payload(total: nat): nat
    requires total >= 1
  {
    total - HeaderSize(total)
  }

  /** The offset at which block k starts. */
  function Start(bs: seq<Block>, k: nat): nat
    requires k <= |bs|
  {
    if k == 0 then 0 else Start(bs, k - 1) + bs[k - 1].total
  }

  ghost predicate Positive(bs: seq<Block>) {
    forall k :: 0 <= k < |bs| ==> bs[k].total >= 1
  }

  /** The address of the payload of block k. */
  function DataAt(bs: seq<Block>, k: nat): nat
    requires k < |bs|
  {
    Start(bs, k) + HeaderSize(bs[k].total)
  }

  lemma {:induction false} StartPrefix(bs: seq<Block>, cs: seq<Block>, k: nat)
    requires k <= |bs| && k <= |cs| && forall i :: 0 <= i < k ==> bs[i] == cs[i]
    ensures Start(bs, k) == Start(cs, k)
  {
    if k > 0 {
      StartPrefix(bs, cs, k - 1);
    }
  }

  lemma {:induction false} StartMonotone(bs: seq<Block>, i: nat, k: nat)
    requires i <= k <= |bs|
    ensures Start(bs, i) <= Start(bs, k)
    ensures Positive(bs) ==> Start(bs, i) + (k - i) <= Start(bs, k)
  {
    if i < k {
      StartMonotone(bs, i, k - 1);
    }
  }

  /** Payload addresses strictly increase. */
  lemma DataIncreases(bs: seq<Block>, i: nat, k: nat)
    requires Positive(bs) && i < k < |bs|
    ensures DataAt(bs, i) <= Start(bs, i + 1) <= Start(bs, k) < DataAt(bs, k)
  {
    StartMonotone(bs, i + 1, k);
  }

  // ---------- Replacing a stretch of blocks ----------

  /** bs with the blocks i..m replaced. */
  function Splice(bs: seq<Block>, i: nat, m: nat, mid: seq<Block>): seq<Block>
    requires i <= m <= |bs|
  {
    bs[..i] + mid + bs[m..]
  }

  lemma {:induction false} StartInMiddle(bs: seq<Block>, i: nat, m: nat, mid: seq<Block>, j: nat)
    requires i <= m <= |bs| && j <= |mid|
    ensures Start(Splice(bs, i, m, mid), i + j) == Start(bs, i) + Start(mid, j)
  {
    var cs := Splice(bs, i, m, mid);
    if j == 0 {
      StartPrefix(bs, cs, i);
    } else {
      StartInMiddle(bs, i, m, mid, j - 1);
      assert cs[i + j - 1] == mid[j - 1];
    }
  }

  /** Behind a stretch replaced by one of the same size, nothing moves. */
  lemma {:induction false} StartBehind(bs: seq<Block>, i: nat, m: nat, mid: seq<Block>, k: nat)
    requires i <= m <= k <= |bs|
    requires Start(bs, i) + Start(mid, |mid|) == Start(bs, m)
    ensures Start(Splice(bs, i, m, mid), i + |mid| + (k - m)) == Start(bs, k)
  {
    var cs := Splice(bs, i, m, mid);
    if k == m {
      StartInMiddle(bs, i, m, mid, |mid|);
    } else {
      StartBehind(bs, i, m, mid, k - 1);
      assert cs[i + |mid| + (k - 1 - m)] == bs[k - 1];
    }
  }

  // ---------- First fit and splitting ----------

  predicate Fits(b: Block, size: nat) {
    !b.used && b.total >= 1 && Payload(b.total) >= size
  }

  /** The index of the first free block from k on with room for size bytes, or |bs|. */
  function FirstFit(bs: seq<Block>, k: nat, size: nat): (r: nat)
    requires k <= |bs|
    ensures k <= r <= |bs|
    ensures forall i :: k <= i < r ==> !Fits(bs[i], size)
    ensures r < |bs| ==> Fits(bs[r], size)
    decreases |bs| - k
  {
    if k == |bs| || Fits(bs[k], size) then k else FirstFit(bs, k + 1, size)
  }

  /** The size of the block handed out for a request: up to 63 bytes take a small header. */
  function TotalFor(size: nat): nat {
    if size <= 63 then size + 1 else size + 2
  }

  /** A fitting free block becomes a used block and, unless nothing is left, a free one. */
  function Split(total: nat, size: nat): seq<Block>
    requires TotalFor(size) <= total
  {
    [Block(TotalFor(size), true)]
      + if TotalFor(size) == total then [] else [Block(total - TotalFor(size), false)]
  }

  function MallocLayout(bs: seq<Block>, size: nat): seq<Block> {
    var k := FirstFit(bs, 0, size);
    if k == |bs| then bs else Splice(bs, k, k + 1, Split(bs[k].total, size))
  }

  // ---------- Freeing and merging ----------

  /** The stretch of blocks that freeing block k merges: its free neighbours on both sides. */
  function MergeFrom(bs: seq<Block>, k: nat): (i: nat)
    requires k < |bs|
    ensures i <= k
  {
    if k > 0 && !bs[k - 1].used then k - 1 else k
  }

  function MergeTo(bs: seq<Block>, k: nat): (m: nat)
    requires k < |bs|
    ensures k < m <= |bs|
  {
    if k + 1 < |bs| && !bs[k + 1].used then k + 2 else k + 1
  }

  /** One free block in place of the blocks i..m. */
  function Merged(bs: seq<Block>, i: nat, m: nat): seq<Block>
    requires i <= m <= |bs|
  {
    StartMonotone(bs, i, m);
    [Block(Start(bs, m) - Start(bs, i), false)]
  }

  lemma MergedSize(bs: seq<Block>, i: nat, m: nat)
    requires i < m <= |bs|
    ensures Start(bs, i) + Start(Merged(bs, i, m), 1) == Start(bs, m)
    ensures Positive(bs) ==> Positive(Merged(bs, i, m))
  {
    StartMonotone(bs, i, m);
    assert Start(Merged(bs, i, m), 1) == Merged(bs, i, m)[0].total;
  }

  function FreeLayout(bs: seq<Block>, k: nat): seq<Block>
    requires k < |bs|
  {
    Splice(bs, MergeFrom(bs, k), MergeTo(bs, k), Merged(bs, MergeFrom(bs, k), MergeTo(bs, k)))
  }

  // ---------- The invariant ----------

  /** The blocks tile the heap. */
  ghost predicate Tiling(bs: seq<Block>) {
    Positive(bs) && Start(bs, |bs|) == HEAP_SIZE
  }

  /** A live block has a payload and never 65 bytes in total: merging with a free neighbour
      or freeing would otherwise have to change the width of its header. */
  predicate BlockOk(b: Block) {
    b.total >= 1 && (b.used ==> b.total >= 2 && b.total != 65)
  }

  predicate NotBothFree(a: Block, b: Block) {
    a.used || b.used
  }

  /** The code takes a first byte of zero for a heap that was never initialised. */
  predicate FirstOk(b: Block) {
    b.used || b.total > 1
  }

  /** The layout of an initialised heap: the blocks tile it, no two neighbours are free, and
      the first block is not the one-byte free block that would look uninitialised. */
  ghost predicate WellFormed(bs: seq<Block>) {
    && Start(bs, |bs|) == HEAP_SIZE
    && (forall k :: 0 <= k < |bs| ==> BlockOk(bs[k]))
    && (forall k :: 0 < k < |bs| ==> NotBothFree(bs[k - 1], bs[k]))
    && (bs != [] ==> FirstOk(bs[0]))
  }

  lemma SpliceAt(bs: seq<Block>, i: nat, m: nat, mid: seq<Block>, k: nat)
    requires i <= m <= |bs| && k < |Splice(bs, i, m, mid)|
    ensures Splice(bs, i, m, mid)[k] ==
      if k < i then bs[k] else if k < i + |mid| then mid[k - i] else bs[k - i - |mid| + m]
  {
  }

  lemma SpliceBlockOk(bs: seq<Block>, i: nat, m: nat, mid: seq<Block>, k: nat)
    requires i <= m <= |bs| && k < |Splice(bs, i, m, mid)|
    requires (forall r :: 0 <= r < |bs| ==> BlockOk(bs[r])) && forall r :: 0 <= r < |mid| ==> BlockOk(mid[r])
    ensures BlockOk(Splice(bs, i, m, mid)[k])
  {
    SpliceAt(bs, i, m, mid, k);
  }

  lemma SpliceNeighbours(bs: seq<Block>, i: nat, m: nat, mid: seq<Block>, k: nat)
    requires i <= m <= |bs| && mid != [] && 0 < k < |Splice(bs, i, m, mid)|
    requires forall r :: 0 < r < |bs| ==> NotBothFree(bs[r - 1], bs[r])
    requires forall r :: 0 < r < |mid| ==> NotBothFree(mid[r - 1], mid[r])
    requires i > 0 ==> NotBothFree(bs[i - 1], mid[0])
    requires m < |bs| ==> NotBothFree(mid[|mid| - 1], bs[m])
    ensures NotBothFree(Splice(bs, i, m, mid)[k - 1], Splice(bs, i, m, mid)[k])
  {
    SpliceAt(bs, i, m, mid, k - 1);
    SpliceAt(bs, i, m, mid, k);
    if k > i + |mid| {
      assert NotBothFree(bs[k - 1 - i - |mid| + m], bs[k - i - |mid| + m]);
    }
  }

  /** A stretch may be replaced by well-formed blocks of the same size that fit in. */
  lemma SpliceKeepsWellFormed(bs: seq<Block>, i: nat, m: nat, mid: seq<Block>)
    requires WellFormed(bs) && i <= m <= |bs| && mid != []
    requires Start(bs, i) + Start(mid, |mid|) == Start(bs, m)
    requires forall k :: 0 <= k < |mid| ==> BlockOk(mid[k])
    requires forall k :: 0 < k < |mid| ==> NotBothFree(mid[k - 1], mid[k])
    requires i > 0 ==> NotBothFree(bs[i - 1], mid[0])
    requires m < |bs| ==> NotBothFree(mid[|mid| - 1], bs[m])
    requires i == 0 ==> FirstOk(mid[0])
    ensures WellFormed(Splice(bs, i, m, mid))
  {
    var cs := Splice(bs, i, m, mid);
    StartBehind(bs, i, m, mid, |bs|);
    forall k | 0 <= k < |cs| ensures BlockOk(cs[k]) {
      SpliceBlockOk(bs, i, m, mid, k);
    }
    forall k | 0 < k < |cs| ensures NotBothFree(cs[k - 1], cs[k]) {
      SpliceNeighbours(bs, i, m, mid, k);
    }
    SpliceAt(bs, i, m, mid, 0);
  }

  lemma SplitKeepsSize(total: nat, size: nat)
    requires TotalFor(size) <= total
    ensures Start(Split(total, size), |Split(total, size)|) == total
  {
    var s := Split(total, size);
    if |s| == 2 {
      assert Start(s, 2) == Start(s, 1) + s[1].total;
    }
    assert Start(s, 1) == Start(s, 0) + s[0].total;
  }

  lemma FitsTotal(b: Block, size: nat)
    requires Fits(b, size)
    ensures TotalFor(size) <= b.total
  {
  }

  lemma MallocKeepsWellFormed(bs: seq<Block>, size: nat)
    requires WellFormed(bs) && size > 0
    ensures WellFormed(MallocLayout(bs, size))
  {
    var k := FirstFit(bs, 0, size);
    if k < |bs| {
      FitsTotal(bs[k], size);
      SplitKeepsSize(bs[k].total, size);
      assert Start(bs, k + 1) == Start(bs, k) + bs[k].total;
      assert k + 1 < |bs| ==> NotBothFree(bs[k], bs[k + 1]);
      SpliceKeepsWellFormed(bs, k, k + 1, Split(bs[k].total, size));
    }
  }

  lemma MergeSize(bs: seq<Block>, k: nat)
    requires k < |bs|
    ensures var i, m := MergeFrom(bs, k), MergeTo(bs, k);
      Start(bs, m) - Start(bs, i) == bs[k].total
        + (if i < k then bs[k - 1].total else 0) + (if m > k + 1 then bs[k + 1].total else 0)
  {
    assert Start(bs, k + 1) == Start(bs, k) + bs[k].total;
  }

  lemma FreeKeepsWellFormed(bs: seq<Block>, k: nat)
    requires WellFormed(bs) && k < |bs| && bs[k].used
    ensures WellFormed(FreeLayout(bs, k))
  {
    var i, m := MergeFrom(bs, k), MergeTo(bs, k);
    MergeSize(bs, k);
    assert BlockOk(bs[k]);
    var mid := Merged(bs, i, m);
    MergedSize(bs, i, m);
    assert 0 < i < k ==> NotBothFree(bs[i - 1], bs[i]);
    assert m < |bs| && m > k + 1 ==> NotBothFree(bs[m - 1], bs[m]);
    SpliceKeepsWellFormed(bs, i, m, mid);
  }

  // ---------- Freeing undoes allocating ----------

  /** Freeing what was just allocated restores exactly the layout from before. */
  lemma FreeUndoesMalloc(bs: seq<Block>, size: nat)
    requires WellFormed(bs) && FirstFit(bs, 0, size) < |bs|
    ensures FreeLayout(MallocLayout(bs, size), FirstFit(bs, 0, size)) == bs
  {
    var k := FirstFit(bs, 0, size);
    FitsTotal(bs[k], size);
    var mid := Split(bs[k].total, size);
    var cs := MallocLayout(bs, size);
    MergesBack(bs, k, mid, cs);
    MergeSize(cs, k);
    SpliceBack(bs, k, mid, bs[k]);
  }

  /** Replacing the blocks that replaced block k by that block restores the layout. */
  lemma SpliceBack(bs: seq<Block>, k: nat, mid: seq<Block>, block: Block)
    requires k < |bs| && block == bs[k]
    ensures k + |mid| <= |Splice(bs, k, k + 1, mid)|
    ensures Splice(Splice(bs, k, k + 1, mid), k, k + |mid|, [block]) == bs
  {
    var cs := Splice(bs, k, k + 1, mid);
    assert cs[..k] == bs[..k] && cs[k + |mid|..] == bs[k + 1..];
    assert bs == bs[..k] + [bs[k]] + bs[k + 1..];
  }

  lemma MergesBack(bs: seq<Block>, k: nat, mid: seq<Block>, cs: seq<Block>)
    requires WellFormed(bs) && k < |bs| && !bs[k].used
    requires |mid| == 1 || (|mid| == 2 && !mid[1].used)
    requires cs == Splice(bs, k, k + 1, mid)
    ensures MergeFrom(cs, k) == k && MergeTo(cs, k) == k + |mid|
    ensures cs[k] == mid[0] && (|mid| == 2 ==> cs[k + 1] == mid[1])
  {
    if k > 0 {
      SpliceAt(bs, k, k + 1, mid, k - 1);
      assert NotBothFree(bs[k - 1], bs[k]);
    }
    if k + 1 < |bs| {
      SpliceAt(bs, k, k + 1, mid, k + |mid|);
      assert NotBothFree(bs[k], bs[k + 1]);
    }
  }

  /** Without live blocks the heap is one free block with a payload of 4094 bytes. */
  lemma NothingLiveIsOneBlock(bs: seq<Block>)
    requires WellFormed(bs) && forall k :: 0 <= k < |bs| ==> !bs[k].used
    ensures bs == [Block(HEAP_SIZE, false)] && Payload(bs[0].total) == 4094
  {
    assert bs != [];
    assert |bs| > 1 ==> NotBothFree(bs[0], bs[1]);
    assert Start(bs, 1) == bs[0].total;
  }

  // ---------- Live pointers ----------

  /** The payload addresses of the live blocks. */
  function Live(bs: seq<Block>): set<nat> {
    set k | 0 <= k < |bs| && bs[k].used :: DataAt(bs, k)
  }

  ghost predicate DataIs(bs: seq<Block>, k: nat, p: nat) {
    k < |bs| && DataAt(bs, k) == p
  }

  /** The index of the block whose payload starts at p, or |bs|. */
  ghost function FindData(bs: seq<Block>, p: nat): (r: nat)
    ensures r <= |bs| && (r < |bs| ==> DataAt(bs, r) == p)
    ensures r == |bs| ==> forall k: nat :: !DataIs(bs, k, p)
  {
    if exists k: nat :: DataIs(bs, k, p) then
      var k: nat :| DataIs(bs, k, p);
      k
    else |bs|
  }

  lemma FoundIsUnique(bs: seq<Block>, p: nat, k: nat)
    requires Positive(bs) && k < |bs| && DataAt(bs, k) == p
    ensures FindData(bs, p) == k
  {
    assert DataIs(bs, k, p);
    var r := FindData(bs, p);
    if r < k {
      DataIncreases(bs, r, k);
    } else if k < r {
      DataIncreases(bs, k, r);
    }
  }
}
