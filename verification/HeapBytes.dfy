/** How Asst1/mymalloc.c packs block headers into bytes: bit 0 tells whether the block is
    used, bit 1 whether the header has two bytes, and 6 or 12 further bits hold the payload
    size. The two highest bits of a second header byte are not used. */
module HeapBytes {
  import opened CTypes
  import opened Layout

  // ---------- Bit fields ----------

  predicate UsedBit(x: byte) {
    x % 2 == 1
  }

  predicate LargeBit(x: byte) {
    x / 2 % 2 == 1
  }

  function SetUsed(x: byte, used: bool): (r: byte)
    ensures UsedBit(r) == used && LargeBit(r) == LargeBit(x) && r / 4 == x / 4
  {
    x / 2 * 2 + if used then 1 else 0
  }

  function SetLarge(x: byte, large: bool): (r: byte)
    ensures LargeBit(r) == large && UsedBit(r) == UsedBit(x) && r / 4 == x / 4
  {
    x / 4 * 4 + x % 2 + if large then 2 else 0
  }

  /** The six size bits of the first byte; larger sizes lose their higher bits. */
  function SetLow(x: byte, size: nat): (r: byte)
    ensures r / 4 == size % 64 && UsedBit(r) == UsedBit(x) && LargeBit(r) == LargeBit(x)
  {
    x % 4 + 4 * (size % 64)
  }

  /** The six size bits of the second byte. */
  function SetHigh(y: byte, size: nat): (r: byte)
    ensures r % 64 == size / 64 % 64 && r / 64 == y / 64
  {
    y / 64 * 64 + size / 64 % 64
  }

  /** The size field of the header at offset `at`. */
  function SizeField(b: seq<byte>, at: nat): nat
    requires at < |b| && (LargeBit(b[at]) ==> at + 1 < |b|)
  {
    var low: int := b[at] / 4;
    if LargeBit(b[at]) then
      var high: int := b[at + 1] % 64;
      low + 64 * high
    else low
  }

  // ---------- Headers and layouts ----------

  /** The bytes at offset `at` are the header of the block, which lies within the heap. */
  ghost predicate HeaderAt(b: seq<byte>, at: nat, blk: Block) {
    && blk.total >= 1 && at + blk.total <= |b|
    && UsedBit(b[at]) == blk.used && LargeBit(b[at]) == (blk.total > 64)
    && SizeField(b, at) == Payload(blk.total)
  }

  /** A byte that holds two flags and a number below 64. */
  lemma FlagsAndNumber(x: byte, used: bool, large: bool, n: nat)
    requires n < 64
    ensures x == 4 * n + (if large then 2 else 0) + (if used then 1 else 0)
      <==> UsedBit(x) == used && LargeBit(x) == large && x / 4 == n
  {
  }

  lemma LowAndHigh(low: nat, high: nat, size: nat)
    requires low < 64
    ensures low + 64 * high == size <==> low == size % 64 && high == size / 64
  {
  }

  /** The bytes of a header, spelled out: used flag, size flag, and the payload size from its
      lowest bit on. */
  lemma HeaderSpelledOut(b: seq<byte>, at: nat, blk: Block)
    requires |b| <= HEAP_SIZE && blk.total >= 1 && at + blk.total <= |b|
    ensures HeaderAt(b, at, blk) <==>
      var size, used := Payload(blk.total), if blk.used then 1 else 0;
      if blk.total > 64 then b[at] == 4 * (size % 64) + 2 + used && b[at + 1] % 64 == size / 64
      else b[at] == 4 * size + used
  {
    var size := Payload(blk.total);
    if blk.total > 64 {
      LowAndHigh(b[at] / 4, b[at + 1] % 64, size);
      FlagsAndNumber(b[at], blk.used, true, size % 64);
    } else {
      FlagsAndNumber(b[at], blk.used, false, size);
    }
  }

  /** Header k of a layout is in place. */
  ghost predicate HeaderOf(b: seq<byte>, bs: seq<Block>, k: nat) {
    k < |bs| && HeaderAt(b, Start(bs, k), bs[k])
  }

  /** The headers found in the bytes are those of the blocks, one behind the other, from
      the first byte of the heap to the last. */
  ghost predicate Tiles(b: seq<byte>, bs: seq<Block>) {
    && |b| == HEAP_SIZE && Tiling(bs)
    && forall k :: 0 <= k < |bs| ==> HeaderOf(b, bs, k)
  }

  /** Only bytes of the stretch from lo to hi differ. */
  ghost predicate SameOutside(b: seq<byte>, b': seq<byte>, lo: nat, hi: nat) {
    |b'| == |b| && forall x :: 0 <= x < |b| && (x < lo || hi <= x) ==> b'[x] == b[x]
  }

  lemma HeaderFrame(b: seq<byte>, b': seq<byte>, at: nat, blk: Block, lo: nat, hi: nat)
    requires HeaderAt(b, at, blk) && SameOutside(b, b', lo, hi)
    requires at + blk.total <= lo || hi <= at
    ensures HeaderAt(b', at, blk)
  {
  }

  /** Block r of one layout is block k of another, at the same place. */
  ghost predicate SameBlock(bs: seq<Block>, r: nat, cs: seq<Block>, k: nat) {
    && r < |bs| && k < |cs| && cs[k] == bs[r]
    && Start(cs, k) == Start(bs, r) && Start(cs, k + 1) == Start(bs, r + 1)
    && DataAt(cs, k) == DataAt(bs, r)
  }

  /** Block r, outside the stretch i..m replaced by n blocks, becomes block k. */
  ghost predicate Becomes(i: nat, m: nat, n: nat, r: nat, k: nat) {
    if r < i then k == r else m <= r && k == i + n + (r - m)
  }

  lemma Outside(bs: seq<Block>, i: nat, m: nat, mid: seq<Block>, r: nat, k: nat)
    requires i <= m <= |bs| && r < |bs| && Becomes(i, m, |mid|, r, k)
    requires Start(bs, i) + Start(mid, |mid|) == Start(bs, m)
    ensures SameBlock(bs, r, Splice(bs, i, m, mid), k)
    ensures Start(bs, r + 1) <= Start(bs, i) || Start(bs, m) <= Start(bs, r)
  {
    var cs := Splice(bs, i, m, mid);
    SpliceAt(bs, i, m, mid, k);
    if r < i {
      StartPrefix(bs, cs, r);
      StartMonotone(bs, r + 1, i);
    } else {
      StartBehind(bs, i, m, mid, r);
      StartMonotone(bs, m, r);
    }
  }

  lemma HeaderOutside(b: seq<byte>, bs: seq<Block>, i: nat, m: nat, mid: seq<Block>, b': seq<byte>,
                      r: nat, k: nat)
    requires Tiles(b, bs) && i <= m <= |bs| && r < |bs| && Becomes(i, m, |mid|, r, k)
    requires Start(bs, i) + Start(mid, |mid|) == Start(bs, m)
    requires SameOutside(b, b', Start(bs, i), Start(bs, m))
    ensures HeaderOf(b', Splice(bs, i, m, mid), k)
  {
    assert HeaderOf(b, bs, r);
    Outside(bs, i, m, mid, r, k);
    HeaderFrame(b, b', Start(bs, r), bs[r], Start(bs, i), Start(bs, m));
  }

  lemma HeaderPlaced(b: seq<byte>, bs: seq<Block>, i: nat, m: nat, mid: seq<Block>, b': seq<byte>, k: nat)
    requires Tiles(b, bs) && i <= m <= |bs| && k < |Splice(bs, i, m, mid)|
    requires Start(bs, i) + Start(mid, |mid|) == Start(bs, m)
    requires SameOutside(b, b', Start(bs, i), Start(bs, m)) && HeadersFrom(b', Start(bs, i), mid)
    ensures HeaderOf(b', Splice(bs, i, m, mid), k)
  {
    if k < i {
      HeaderOutside(b, bs, i, m, mid, b', k, k);
    } else if k < i + |mid| {
      HeaderInside(bs, i, m, mid, b', k - i);
    } else {
      HeaderOutside(b, bs, i, m, mid, b', k - i - |mid| + m, k);
    }
  }

  /** The bytes from offset lo on are the headers of the blocks of mid. */
  ghost predicate HeadersFrom(b: seq<byte>, lo: nat, mid: seq<Block>) {
    forall j :: 0 <= j < |mid| ==> HeaderIn(b, lo, mid, j)
  }

  ghost predicate HeaderIn(b: seq<byte>, lo: nat, mid: seq<Block>, j: nat) {
    j < |mid| && HeaderAt(b, lo + Start(mid, j), mid[j])
  }

  lemma HeaderInside(bs: seq<Block>, i: nat, m: nat, mid: seq<Block>, b': seq<byte>, j: nat)
    requires i <= m <= |bs| && j < |mid| && HeadersFrom(b', Start(bs, i), mid)
    ensures HeaderOf(b', Splice(bs, i, m, mid), i + j)
  {
    SpliceAt(bs, i, m, mid, i + j);
    StartInMiddle(bs, i, m, mid, j);
    assert HeaderIn(b', Start(bs, i), mid, j);
  }

  /** A stretch of blocks whose bytes are overwritten by headers for blocks of the same size
      is replaced by those blocks. */
  lemma SpliceTiles(b: seq<byte>, bs: seq<Block>, i: nat, m: nat, mid: seq<Block>, b': seq<byte>)
    requires Tiles(b, bs) && i <= m <= |bs| && Positive(mid)
    requires Start(bs, i) + Start(mid, |mid|) == Start(bs, m)
    requires SameOutside(b, b', Start(bs, i), Start(bs, m))
    requires HeadersFrom(b', Start(bs, i), mid)
    ensures Tiles(b', Splice(bs, i, m, mid))
  {
    var cs := Splice(bs, i, m, mid);
    SpliceTiling(bs, i, m, mid);
    forall k | 0 <= k < |cs| ensures HeaderOf(b', cs, k) {
      HeaderPlaced(b, bs, i, m, mid, b', k);
    }
  }

  // ---------- What the user sees ----------

  /** The bytes of the live block whose payload starts at address p. */
  ghost function LiveAt(b: seq<byte>, bs: seq<Block>, p: nat): Option<seq<byte>>
    requires |b| == HEAP_SIZE && Tiling(bs)
  {
    var r := FindData(bs, p);
    if r < |bs| && bs[r].used then
      StartMonotone(bs, r + 1, |bs|);
      Some(b[p..Start(bs, r + 1)])
    else None
  }

  lemma LiveAtIndex(b: seq<byte>, bs: seq<Block>, k: nat)
    requires |b| == HEAP_SIZE && Tiling(bs) && k < |bs|
    ensures DataAt(bs, k) <= Start(bs, k + 1) <= |b|
    ensures LiveAt(b, bs, DataAt(bs, k)) ==
      if bs[k].used then Some(b[DataAt(bs, k)..Start(bs, k + 1)]) else None
  {
    FoundIsUnique(bs, DataAt(bs, k), k);
    StartMonotone(bs, k + 1, |bs|);
  }

  lemma SpliceTiling(bs: seq<Block>, i: nat, m: nat, mid: seq<Block>)
    requires Tiling(bs) && i <= m <= |bs| && Positive(mid)
    requires Start(bs, i) + Start(mid, |mid|) == Start(bs, m)
    ensures Tiling(Splice(bs, i, m, mid))
  {
    var cs := Splice(bs, i, m, mid);
    StartBehind(bs, i, m, mid, |bs|);
    forall k | 0 <= k < |cs| ensures cs[k].total >= 1 {
      SpliceAt(bs, i, m, mid, k);
    }
  }

  /** A block outside a replaced stretch keeps its address and its bytes. */
  lemma SameLive(b: seq<byte>, bs: seq<Block>, r: nat, b': seq<byte>, cs: seq<Block>, k: nat, lo: nat, hi: nat)
    requires |b| == HEAP_SIZE && Tiling(bs) && Tiling(cs) && SameBlock(bs, r, cs, k)
    requires SameOutside(b, b', lo, hi) && (Start(bs, r + 1) <= lo || hi <= Start(bs, r))
    ensures LiveAt(b', cs, DataAt(bs, r)) == LiveAt(b, bs, DataAt(bs, r))
  {
    LiveAtIndex(b, bs, r);
    LiveAtIndex(b', cs, k);
    SamePayload(b, b', DataAt(bs, r), Start(bs, r + 1), lo, hi);
  }

  /** Block j of mid, laid out from offset lo on, is not a live block with address q. */
  ghost predicate NotAt(mid: seq<Block>, j: nat, lo: nat, q: nat) {
    j < |mid| && mid[j].used ==> lo + DataAt(mid, j) != q
  }

  /** What is live after a stretch has been replaced: everything outside it as before, and
      else only the live blocks put in its place. */
  lemma SpliceLive(b: seq<byte>, bs: seq<Block>, i: nat, m: nat, mid: seq<Block>, b': seq<byte>, q: nat)
    requires |b| == HEAP_SIZE && Tiling(bs) && i <= m <= |bs| && Positive(mid)
    requires Start(bs, i) + Start(mid, |mid|) == Start(bs, m)
    requires SameOutside(b, b', Start(bs, i), Start(bs, m))
    requires Tiling(Splice(bs, i, m, mid))
    requires forall j: nat :: NotAt(mid, j, Start(bs, i), q)
    ensures LiveAt(b', Splice(bs, i, m, mid), q) ==
      if i <= FindData(bs, q) < m then None else LiveAt(b, bs, q)
  {
    var cs, r := Splice(bs, i, m, mid), FindData(bs, q);
    if r < i || m <= r < |bs| {
      var k: nat := if r < i then r else i + |mid| + (r - m);
      Outside(bs, i, m, mid, r, k);
      SameLive(b, bs, r, b', cs, k, Start(bs, i), Start(bs, m));
    } else {
      SpliceNotLive(bs, i, m, mid, q);
    }
  }

  lemma SpliceNotLive(bs: seq<Block>, i: nat, m: nat, mid: seq<Block>, q: nat)
    requires Positive(bs) && i <= m <= |bs|
    requires Start(bs, i) + Start(mid, |mid|) == Start(bs, m)
    requires i <= FindData(bs, q) < m || FindData(bs, q) == |bs|
    requires forall j: nat :: NotAt(mid, j, Start(bs, i), q)
    ensures var cs, k := Splice(bs, i, m, mid), FindData(Splice(bs, i, m, mid), q);
      k < |cs| ==> !cs[k].used
  {
    var cs := Splice(bs, i, m, mid);
    var k := FindData(cs, q);
    if k < i || i + |mid| <= k < |cs| {
      var r: nat := if k < i then k else k - i - |mid| + m;
      Outside(bs, i, m, mid, r, k);
      FoundIsUnique(bs, q, r);
    } else if k < |cs| {
      StartInMiddle(bs, i, m, mid, k - i);
      SpliceAt(bs, i, m, mid, k);
      assert NotAt(mid, k - i, Start(bs, i), q);
    }
  }

  lemma SamePayload(b: seq<byte>, b': seq<byte>, from: nat, to: nat, lo: nat, hi: nat)
    requires SameOutside(b, b', lo, hi) && from <= to <= |b| && (to <= lo || hi <= from)
    ensures b'[from..to] == b[from..to]
  {
  }

  // ---------- Allocating and freeing, as changes of the bytes ----------

  lemma SplitHeaders(b: seq<byte>, lo: nat, total: nat, size: nat)
    requires TotalFor(size) <= total && HeaderAt(b, lo, Block(TotalFor(size), true))
    requires TotalFor(size) < total ==>
      HeaderAt(b, lo + TotalFor(size), Block(total - TotalFor(size), false))
    ensures HeadersFrom(b, lo, Split(total, size)) && Positive(Split(total, size))
  {
    var mid := Split(total, size);
    assert Start(mid, 1) == mid[0].total;
    forall j | 0 <= j < |mid| ensures HeaderIn(b, lo, mid, j) {
    }
  }

  lemma SplitFits(bs: seq<Block>, k: nat, size: nat)
    requires Tiling(bs) && k < |bs| && k == FirstFit(bs, 0, size)
    ensures var mid := Split(bs[k].total, size);
      && Positive(mid) && mid != [] && mid[0] == Block(TotalFor(size), true)
      && Start(bs, k) + Start(mid, |mid|) == Start(bs, k + 1)
  {
    FitsTotal(bs[k], size);
    SplitKeepsSize(bs[k].total, size);
  }

  lemma MallocBlock(bs: seq<Block>, k: nat, size: nat)
    requires Tiling(bs) && k < |bs| && k == FirstFit(bs, 0, size)
    ensures var mid, cs := Split(bs[k].total, size), MallocLayout(bs, size);
      && Tiling(cs) && k < |cs| && DataAt(cs, k) == Start(bs, k) + HeaderSize(TotalFor(size))
      && cs[k] == Block(TotalFor(size), true)
      && Positive(mid) && Start(bs, k) + Start(mid, |mid|) == Start(bs, k + 1)
  {
    var mid := Split(bs[k].total, size);
    SplitFits(bs, k, size);
    SpliceTiling(bs, k, k + 1, mid);
    StartInMiddle(bs, k, k + 1, mid, 0);
    SpliceAt(bs, k, k + 1, mid, k);
  }

  /** Carving a live block out of free block k. */
  lemma MallocBytes(b: seq<byte>, bs: seq<Block>, k: nat, size: nat, b': seq<byte>)
    requires Tiles(b, bs) && k < |bs| && k == FirstFit(bs, 0, size)
    requires SameOutside(b, b', Start(bs, k), Start(bs, k + 1))
    requires HeadersFrom(b', Start(bs, k), Split(bs[k].total, size))
    ensures Tiles(b', MallocLayout(bs, size))
  {
    MallocBlock(bs, k, size);
    SpliceTiles(b, bs, k, k + 1, Split(bs[k].total, size), b');
  }

  /** No live buffer starts inside a free block. */
  lemma InsideFree(b: seq<byte>, bs: seq<Block>, k: nat, q: nat)
    requires |b| == HEAP_SIZE && Tiling(bs) && k < |bs| && !bs[k].used
    requires Start(bs, k) < q <= Start(bs, k + 1)
    ensures LiveAt(b, bs, q) == None
  {
    var r := FindData(bs, q);
    if r < k {
      DataIncreases(bs, r, k);
    } else if k < r < |bs| {
      DataIncreases(bs, k, r);
    }
  }

  lemma MallocAddressIsNew(b: seq<byte>, bs: seq<Block>, k: nat, size: nat)
    requires |b| == HEAP_SIZE && Tiling(bs) && k < |bs| && Fits(bs[k], size)
    ensures LiveAt(b, bs, Start(bs, k) + HeaderSize(TotalFor(size))) == None
  {
    FitsTotal(bs[k], size);
    HeaderFits(bs, k);
    InsideFree(b, bs, k, Start(bs, k) + HeaderSize(TotalFor(size)));
  }

  lemma MallocLiveNew(b: seq<byte>, bs: seq<Block>, k: nat, size: nat)
    requires |b| == HEAP_SIZE && Tiling(bs) && k < |bs| && k == FirstFit(bs, 0, size)
    ensures Tiling(MallocLayout(bs, size))
    ensures var buffer := LiveAt(b, MallocLayout(bs, size), Start(bs, k) + HeaderSize(TotalFor(size)));
      buffer.Some? && |buffer.value| == size
  {
    MallocBlock(bs, k, size);
    LiveLength(b, MallocLayout(bs, size), k);
  }

  lemma LiveLength(b: seq<byte>, bs: seq<Block>, k: nat)
    requires |b| == HEAP_SIZE && Tiling(bs) && k < |bs| && bs[k].used
    ensures var buffer := LiveAt(b, bs, DataAt(bs, k));
      buffer.Some? && |buffer.value| + HeaderSize(bs[k].total) == bs[k].total
  {
    LiveAtIndex(b, bs, k);
    HeaderFits(bs, k);
  }

  lemma MallocLiveOther(b: seq<byte>, bs: seq<Block>, k: nat, size: nat, b': seq<byte>, q: nat)
    requires |b| == HEAP_SIZE && Tiling(bs) && k < |bs| && k == FirstFit(bs, 0, size)
    requires SameOutside(b, b', Start(bs, k), Start(bs, k + 1))
    requires Tiling(MallocLayout(bs, size)) && q != Start(bs, k) + HeaderSize(TotalFor(size))
    ensures LiveAt(b', MallocLayout(bs, size), q) == LiveAt(b, bs, q)
  {
    MallocBlock(bs, k, size);
    var mid := Split(bs[k].total, size);
    forall j: nat ensures NotAt(mid, j, Start(bs, k), q) {
    }
    SpliceLive(b, bs, k, k + 1, mid, b', q);
    if FindData(bs, q) == k {
      assert !bs[k].used;
    }
  }

  /** Freeing block k: its stretch of free neighbours becomes one free block. */
  lemma FreeBytes(b: seq<byte>, bs: seq<Block>, k: nat, b': seq<byte>)
    requires Tiles(b, bs) && k < |bs|
    requires SameOutside(b, b', Start(bs, MergeFrom(bs, k)), Start(bs, MergeTo(bs, k)))
    requires Start(bs, MergeFrom(bs, k)) < Start(bs, MergeTo(bs, k))
    requires HeaderAt(b', Start(bs, MergeFrom(bs, k)),
                      Block(Start(bs, MergeTo(bs, k)) - Start(bs, MergeFrom(bs, k)), false))
    ensures Tiles(b', FreeLayout(bs, k))
  {
    var i, m := MergeFrom(bs, k), MergeTo(bs, k);
    var mid := Merged(bs, i, m);
    MergedSize(bs, i, m);
    forall j | 0 <= j < |mid| ensures HeaderIn(b', Start(bs, i), mid, j) {
    }
    SpliceTiles(b, bs, i, m, mid, b');
  }

  lemma FreeTiling(bs: seq<Block>, k: nat)
    requires Tiling(bs) && k < |bs| && bs[k].used
    ensures Tiling(FreeLayout(bs, k))
  {
    var i, m := MergeFrom(bs, k), MergeTo(bs, k);
    var mid := Merged(bs, i, m);
    MergedSize(bs, i, m);
    SpliceTiling(bs, i, m, mid);
  }

  /** The blocks of a merged stretch are free, but for the one freed. */
  lemma MergedAreFree(bs: seq<Block>, k: nat, q: nat)
    requires Positive(bs) && k < |bs|
    ensures var r := FindData(bs, q);
      MergeFrom(bs, k) <= r < MergeTo(bs, k) ==> if q == DataAt(bs, k) then r == k else !bs[r].used
    ensures q == DataAt(bs, k) ==> FindData(bs, q) == k
  {
    FoundIsUnique(bs, DataAt(bs, k), k);
  }

  /** Freeing takes away the freed buffer and no other. */
  lemma FreeLive(b: seq<byte>, bs: seq<Block>, k: nat, b': seq<byte>, q: nat)
    requires |b| == HEAP_SIZE && Tiling(bs) && k < |bs| && bs[k].used
    requires SameOutside(b, b', Start(bs, MergeFrom(bs, k)), Start(bs, MergeTo(bs, k)))
    requires Tiling(FreeLayout(bs, k))
    ensures LiveAt(b', FreeLayout(bs, k), q) == if q == DataAt(bs, k) then None else LiveAt(b, bs, q)
  {
    MergedAreFree(bs, k, q);
    FreeSplices(b, bs, k, b', q);
  }

  lemma FreeSplices(b: seq<byte>, bs: seq<Block>, k: nat, b': seq<byte>, q: nat)
    requires |b| == HEAP_SIZE && Tiling(bs) && k < |bs| && bs[k].used
    requires SameOutside(b, b', Start(bs, MergeFrom(bs, k)), Start(bs, MergeTo(bs, k)))
    requires Tiling(FreeLayout(bs, k))
    ensures LiveAt(b', FreeLayout(bs, k), q) ==
      if MergeFrom(bs, k) <= FindData(bs, q) < MergeTo(bs, k) then None else LiveAt(b, bs, q)
  {
    var i, m := MergeFrom(bs, k), MergeTo(bs, k);
    var mid := Merged(bs, i, m);
    MergedSize(bs, i, m);
    forall j: nat ensures NotAt(mid, j, Start(bs, i), q) {
    }
    SpliceLive(b, bs, i, m, mid, b', q);
  }

  // ---------- Writing into a buffer ----------

  /** Overwriting a byte of the payload of block k leaves all headers in place. */
  lemma WriteTiles(b: seq<byte>, bs: seq<Block>, k: nat, x: nat, v: byte)
    requires Tiles(b, bs) && k < |bs| && DataAt(bs, k) <= x < Start(bs, k + 1) <= |b|
    ensures Tiles(b[x := v], bs)
  {
    var b' := b[x := v];
    forall r | 0 <= r < |bs| ensures HeaderOf(b', bs, r) {
      assert HeaderOf(b, bs, r);
      HeaderFits(bs, r);
      if r < k {
        DataIncreases(bs, r, k);
      } else if k < r {
        StartMonotone(bs, k + 1, r);
      }
      OtherByte(b, Start(bs, r), bs[r], x, v);
    }
  }

  lemma HeaderFits(bs: seq<Block>, r: nat)
    requires r < |bs|
    ensures Start(bs, r + 1) == Start(bs, r) + bs[r].total && DataAt(bs, r) == Start(bs, r) + HeaderSize(bs[r].total)
  {
  }

  lemma OtherByte(b: seq<byte>, at: nat, blk: Block, x: nat, v: byte)
    requires HeaderAt(b, at, blk) && x < |b| && (x < at || at + HeaderSize(blk.total) <= x)
    ensures HeaderAt(b[x := v], at, blk)
  {
  }

  lemma WriteLive(b: seq<byte>, bs: seq<Block>, p: nat, i: nat, v: byte)
    requires |b| == HEAP_SIZE && Tiling(bs) && LiveAt(b, bs, p).Some? && i < |LiveAt(b, bs, p).value|
    ensures p + i < |b|
    ensures LiveAt(b[p + i := v], bs, p) == Some(LiveAt(b, bs, p).value[i := v])
  {
    var k := FindData(bs, p);
    LiveAtIndex(b, bs, k);
    var b' := b[p + i := v];
    LiveAtIndex(b', bs, k);
    assert b'[p..Start(bs, k + 1)] == b[p..Start(bs, k + 1)][i := v];
  }

  lemma WriteLiveOther(b: seq<byte>, bs: seq<Block>, p: nat, i: nat, v: byte, q: nat)
    requires |b| == HEAP_SIZE && Tiling(bs) && LiveAt(b, bs, p).Some? && i < |LiveAt(b, bs, p).value|
    requires q != p && p + i < |b|
    ensures LiveAt(b[p + i := v], bs, q) == LiveAt(b, bs, q)
  {
    var b' := b[p + i := v];
    if LiveAt(b, bs, q).Some? {
      var k := FindData(bs, q);
      LiveAtIndex(b, bs, k);
      LiveAtIndex(b', bs, k);
      if p < q {
        BuffersDisjoint(b, bs, p, q);
      } else {
        BuffersDisjoint(b, bs, q, p);
      }
      assert b'[q..Start(bs, k + 1)] == b[q..Start(bs, k + 1)];
    }
  }

  /** Every live buffer lies in the heap. */
  lemma BufferInHeap(b: seq<byte>, bs: seq<Block>, p: nat)
    requires |b| == HEAP_SIZE && Tiling(bs) && LiveAt(b, bs, p).Some?
    ensures p > 0 && p + |LiveAt(b, bs, p).value| <= HEAP_SIZE
    ensures LiveAt(b, bs, p).value == b[p..p + |LiveAt(b, bs, p).value|]
  {
    StartMonotone(bs, FindData(bs, p) + 1, |bs|);
  }

  /** A live buffer ends before the next one's header begins. */
  lemma BuffersDisjoint(b: seq<byte>, bs: seq<Block>, p: nat, q: nat)
    requires |b| == HEAP_SIZE && Tiling(bs) && p < q
    requires LiveAt(b, bs, p).Some? && LiveAt(b, bs, q).Some?
    ensures p + |LiveAt(b, bs, p).value| < q
  {
    var i, k := FindData(bs, p), FindData(bs, q);
    if k < i {
      DataIncreases(bs, k, i);
    } else {
      DataIncreases(bs, i, k);
    }
    StartMonotone(bs, i + 1, |bs|);
  }
}
