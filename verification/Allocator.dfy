/** mymalloc and myfree of Asst1/mymalloc.c on the bytes of the heap. Addresses are offsets
    into the heap; None is the null pointer. */
module Allocator {
  import opened CTypes
  import opened Layout
  import opened HeapBytes

  /** The never initialised heap reads as 4096 free blocks of one byte each. */
  function FreshLayout(): seq<Block> {
    seq(HEAP_SIZE, _ => Block(1, false))
  }

  lemma {:induction false} FreshStart(k: nat)
    requires k <= HEAP_SIZE
    ensures Start(FreshLayout(), k) == k
  {
    if k > 0 {
      FreshStart(k - 1);
    }
  }

  lemma FreshTiles(b: seq<byte>)
    requires |b| == HEAP_SIZE && forall i :: 0 <= i < |b| ==> b[i] == 0
    ensures Tiles(b, FreshLayout())
  {
    FreshStart(HEAP_SIZE);
    forall k | 0 <= k < HEAP_SIZE ensures HeaderOf(b, FreshLayout(), k) {
      FreshStart(k);
    }
  }

  /** The total size a header describes after adjust_header_size(…, size, …): a small header
      that has to become large gives one byte of the requested size up for it, but a large
      one that becomes small leaves its second byte unused. */
  function AdjustedTotal(total: nat, size: nat): nat {
    if total <= 64 || size <= 63 then size + 1 else size + 2
  }

  // ---------- The operations on layouts ----------

  /** The layout that an allocation works on. */
  function Initialised(bs: seq<Block>): seq<Block> {
    if bs == FreshLayout() then [Block(HEAP_SIZE, false)] else bs
  }

  /** The address handed out for a request, or None. */
  function MallocAddress(bs: seq<Block>, size: nat): Option<nat> {
    var cs := Initialised(bs);
    var k := FirstFit(cs, 0, size);
    if size == 0 || k == |cs| then None else Some(Start(cs, k) + HeaderSize(TotalFor(size)))
  }

  /** The layout after a request; too large a first request does not even initialise. */
  function AfterMalloc(bs: seq<Block>, size: nat): seq<Block> {
    if size == 0 || (bs == FreshLayout() && size > 4095) then bs
    else MallocLayout(Initialised(bs), size)
  }

  /** The live block whose payload starts at p, or |bs|. */
  ghost function LiveIndex(bs: seq<Block>, p: int): (k: nat)
    ensures k <= |bs| && (k < |bs| ==> p >= 0 && bs[k].used && DataAt(bs, k) == p)
  {
    if p < 0 then |bs|
    else
      var k := FindData(bs, p);
      if k < |bs| && bs[k].used then k else |bs|
  }

  /** Freeing anything but the payload address of a live block does nothing. */
  ghost function AfterFree(bs: seq<Block>, p: int): seq<Block> {
    var k := LiveIndex(bs, p);
    if k == |bs| then bs else FreeLayout(bs, k)
  }

  lemma LiveIndexFinds(bs: seq<Block>, p: int)
    requires Positive(bs)
    ensures LiveIndex(bs, p) < |bs| <==> p >= 0 && p in Live(bs)
  {
    forall k | 0 <= k < |bs| && DataAt(bs, k) == p ensures FindData(bs, p) == k {
      FoundIsUnique(bs, p, k);
    }
  }

  lemma FreeChangesLayout(bs: seq<Block>, k: nat)
    requires Positive(bs) && k < |bs| && bs[k].used
    ensures FreeLayout(bs, k) != bs
  {
    var i, m := MergeFrom(bs, k), MergeTo(bs, k);
    MergeSize(bs, k);
    var mid := Merged(bs, i, m);
    SpliceAt(bs, i, m, mid, i);
  }

  lemma StartsDiffer(bs: seq<Block>, i: nat, k: nat)
    requires Positive(bs) && k < |bs| && i <= |bs| && i != k
    ensures Start(bs, i) != Start(bs, k)
  {
    if i < k {
      StartMonotone(bs, i, k);
    } else {
      StartMonotone(bs, k, i);
    }
  }

  /** The layout when block k has been freed and merged with a free successor only. */
  lemma MergedNext(b: seq<byte>, bs: seq<Block>, k: nat, b': seq<byte>) returns (cs: seq<Block>)
    requires Tiles(b, bs) && k < |bs|
    requires SameOutside(b, b', Start(bs, k), Start(bs, MergeTo(bs, k)))
    requires Start(bs, k) < Start(bs, MergeTo(bs, k))
    requires HeaderAt(b', Start(bs, k), Block(Start(bs, MergeTo(bs, k)) - Start(bs, k), false))
    ensures Tiles(b', cs) && k < |cs| && Start(cs, k) == Start(bs, k)
    ensures !cs[k].used && Start(cs, k + 1) == Start(bs, MergeTo(bs, k))
    ensures MergeFrom(cs, k) == MergeFrom(bs, k) && Start(cs, MergeFrom(cs, k)) == Start(bs, MergeFrom(bs, k))
  {
    var m := MergeTo(bs, k);
    var mid := Merged(bs, k, m);
    cs := Splice(bs, k, m, mid);
    MergedSize(bs, k, m);
    forall j | 0 <= j < |mid| ensures HeaderIn(b', Start(bs, k), mid, j) {
    }
    SpliceTiles(b, bs, k, m, mid, b');
    StartInMiddle(bs, k, m, mid, 0);
    StartInMiddle(bs, k, m, mid, 1);
    SpliceAt(bs, k, m, mid, k);
    if k > 0 {
      Outside(bs, k, m, mid, k - 1, k - 1);
    }
  }

  /** No payload address of a live block lies outside the heap. */
  lemma AddressInHeap(bs: seq<Block>)
    requires Tiling(bs) && (WellFormed(bs) || bs == FreshLayout())
    ensures forall p: int :: p < 0 || p > 4095 ==> LiveIndex(bs, p) == |bs|
  {
    forall p: int | p > 4095 ensures LiveIndex(bs, p) == |bs| {
      var k := FindData(bs, p);
      if k < |bs| && bs[k].used {
        StartMonotone(bs, k + 1, |bs|);
        HeaderFits(bs, k);
      }
    }
  }

  lemma UntouchedIsEmpty(b: seq<byte>)
    requires |b| == HEAP_SIZE && Tiling(FreshLayout())
    ensures forall q: nat :: LiveAt(b, FreshLayout(), q) == None
  {
  }

  lemma NotFresh(bs: seq<Block>)
    requires WellFormed(bs)
    ensures bs != FreshLayout()
  {
    assert bs == FreshLayout() ==> !FirstOk(bs[0]);
  }

  lemma NoRoom(size: nat)
    requires size > 4094
    ensures FirstFit([Block(HEAP_SIZE, false)], 0, size) == 1
  {
    assert !Fits(Block(HEAP_SIZE, false), size);
  }

  /** Growing by what was merged in gives exactly the sum, except that a block of 65 bytes
      freed alone would lose one byte: no live block may have that size. */
  lemma AdjustsBySum(total: nat, extra: nat)
    requires total >= 1
    ensures AdjustedTotal(total, Payload(total) + extra) == total + extra
      <==> !(total == 65 && extra == 0)
  {
  }

  lemma HeaderWithin(from: nat, to: nat)
    requires from < to
    ensures from + HeaderSize(to - from) <= to
  {
  }

  /** Freeing block k, first forwards and then backwards, seen from the bytes. */
  lemma Released(b: seq<byte>, bs: seq<Block>, k: nat, b1: seq<byte>, b2: seq<byte>)
    requires Tiles(b, bs) && WellFormed(bs) && k < |bs| && bs[k].used
    requires SameOutside(b, b1, Start(bs, k), Start(bs, MergeTo(bs, k)))
    requires var from, to := Start(bs, MergeFrom(bs, k)), Start(bs, MergeTo(bs, k));
      from < to && SameOutside(b1, b2, from, to) && HeaderAt(b2, from, Block(to - from, false))
    ensures Tiles(b2, FreeLayout(bs, k)) && WellFormed(FreeLayout(bs, k))
    ensures forall q: nat :: LiveAt(b2, FreeLayout(bs, k), q) == if q == DataAt(bs, k) then None else LiveAt(b, bs, q)
  {
    StartMonotone(bs, MergeFrom(bs, k), k);
    SameOutsideTwice(b, b1, b2, Start(bs, k), Start(bs, MergeFrom(bs, k)), Start(bs, MergeTo(bs, k)));
    FreeBytes(b, bs, k, b2);
    FreeTiling(bs, k);
    FreeKeepsWellFormed(bs, k);
    forall q: nat ensures LiveAt(b2, FreeLayout(bs, k), q) == if q == DataAt(bs, k) then None else LiveAt(b, bs, q) {
      FreeLive(b, bs, k, b2, q);
    }
  }

  lemma SameOutsideTwice(b: seq<byte>, b1: seq<byte>, b2: seq<byte>, mid: nat, lo: nat, hi: nat)
    requires lo <= mid && SameOutside(b, b1, mid, hi) && SameOutside(b1, b2, lo, hi)
    ensures SameOutside(b, b2, lo, hi)
  {
  }

  class Heap {
    const blocks: array<byte>
    ghost var layout: seq<Block>

    ghost predicate Untouched()
      reads this, blocks
    {
      layout == FreshLayout() && forall i :: 0 <= i < blocks.Length ==> blocks[i] == 0
    }

    /** The invariant of all runs. */
    ghost predicate Valid()
      reads this, blocks
    {
      Tiles(blocks[..], layout) && (WellFormed(layout) || Untouched())
    }

    constructor ()
      ensures Valid() && Untouched() && fresh(blocks)
    {
      blocks := new byte[4096](_ => 0);
      layout := FreshLayout();
      new;
      FreshTiles(blocks[..]);
    }

    /** The user's buffer at address p. */
    ghost function Buffer(p: nat): Option<seq<byte>>
      reads this, blocks
      requires Valid()
    {
      LiveAt(blocks[..], layout, p)
    }

    // ---------- Header access ----------

    method ReadHeader(data: nat) returns (isUsed: bool, isLarge: bool, size: nat)
      requires data < blocks.Length && (LargeBit(blocks[data]) ==> data + 1 < blocks.Length)
      ensures isUsed == UsedBit(blocks[data]) && isLarge == LargeBit(blocks[data])
      ensures size == SizeField(blocks[..], data)
    {
      isUsed, isLarge := UsedBit(blocks[data]), LargeBit(blocks[data]);
      var low: nat := blocks[data] / 4;
      if isLarge {
        var high: nat := blocks[data + 1] % 64;
        size := low + 64 * high;
      } else {
        size := low;
      }
    }

    method GetDataPointer(header: nat, ghost blk: Block) returns (p: nat)
      requires HeaderAt(blocks[..], header, blk)
      ensures p == header + HeaderSize(blk.total)
    {
      var isUsed, isLarge, size := ReadHeader(header);
      p := header + if isLarge then 2 else 1;
    }

    method GetBlkSize(header: nat, ghost blk: Block) returns (n: nat)
      requires HeaderAt(blocks[..], header, blk)
      ensures n == blk.total
    {
      var isUsed, isLarge, size := ReadHeader(header);
      n := size + if isLarge then 2 else 1;
    }

    method GetNextHeaderPosition(header: nat, ghost blk: Block) returns (next: Option<nat>)
      requires HeaderAt(blocks[..], header, blk)
      ensures next == if header + blk.total > 4095 then None else Some(header + blk.total)
    {
      var n := GetBlkSize(header, blk);
      next := if header + n > 4095 then None else Some(header + n);
    }

    /** h_lg->size = size or h_sm->size = size, by the width of the header. */
    method WriteSize(data: nat, size: nat)
      requires data < blocks.Length && (LargeBit(blocks[data]) ==> data + 1 < blocks.Length)
      requires size < if LargeBit(blocks[data]) then 4096 else 64
      modifies blocks
      ensures UsedBit(blocks[data]) == old(UsedBit(blocks[data]))
      ensures LargeBit(blocks[data]) == old(LargeBit(blocks[data]))
      ensures SizeField(blocks[..], data) == size
      ensures SameOutside(old(blocks[..]), blocks[..], data, data + if LargeBit(blocks[data]) then 2 else 1)
    {
      if LargeBit(blocks[data]) {
        blocks[data + 1] := SetHigh(blocks[data + 1], size);
      }
      blocks[data] := SetLow(blocks[data], size);
    }

    /** Sets the used bit and the size, changing the width of the header when the size
        requires or allows it. The result is what the block has left over. */
    method AdjustHeaderSize(data: nat, size: nat, isUsed: bool, ghost blk: Block) returns (rest: int)
      requires blocks.Length == 4096 && HeaderAt(blocks[..], data, blk)
      requires data + AdjustedTotal(blk.total, size) <= 4096
      modifies blocks
      ensures HeaderAt(blocks[..], data, Block(AdjustedTotal(blk.total, size), isUsed))
      ensures rest == blk.total - AdjustedTotal(blk.total, size)
      ensures SameOutside(old(blocks[..]), blocks[..], data, data + HeaderSize(AdjustedTotal(blk.total, size)))
    {
      var newSize := size;
      var blkSize := GetBlkSize(data, blk);
      blocks[data] := SetUsed(blocks[data], isUsed);
      if !LargeBit(blocks[data]) {
        if newSize >= 64 {
          blocks[data] := SetLarge(blocks[data], true);
          newSize := newSize - 1;
        }
      } else {
        if newSize <= 63 {
          blocks[data] := SetLarge(blocks[data], false);
        }
      }
      WriteSize(data, newSize);
      var header := if LargeBit(blocks[data]) then 2 else 1;
      var left: int := blkSize;
      rest := left - newSize - header;
    }

    /** Writes the header of a block of the given total size, or nothing at all for none. */
    method WriteNewHeader(data: nat, isUsed: bool, blkSize: nat)
      requires blocks.Length == 4096 && data + blkSize <= 4096
      modifies blocks
      ensures blkSize > 0 ==> HeaderAt(blocks[..], data, Block(blkSize, isUsed))
      ensures SameOutside(old(blocks[..]), blocks[..], data,
                          data + if blkSize == 0 then 0 else HeaderSize(blkSize))
    {
      if blkSize == 0 {
        return;
      }
      blocks[data] := SetUsed(blocks[data], isUsed);
      if blkSize > 64 {
        blocks[data] := SetLarge(blocks[data], true);
        WriteSize(data, blkSize - 2);
      } else {
        blocks[data] := SetLarge(blocks[data], false);
        WriteSize(data, blkSize - 1);
      }
    }

    // ---------- mymalloc ----------

    /** The walk to the first free block with room for the request. */
    method FindFit(size: nat) returns (cur: Option<nat>)
      requires Tiles(blocks[..], layout)
      ensures var k := FirstFit(layout, 0, size);
        cur == if k < |layout| then Some(Start(layout, k)) else None
    {
      cur := Some(0);
      ghost var k := 0;
      assert layout != [];
      while cur.Some?
        invariant k <= |layout| && FirstFit(layout, 0, size) == FirstFit(layout, k, size)
        invariant cur == if k < |layout| then Some(Start(layout, k)) else None
        decreases |layout| - k
      {
        assert HeaderOf(blocks[..], layout, k);
        var isUsed, isLarge, blkSize := ReadHeader(cur.value);
        if !isUsed && blkSize >= size {
          return;
        }
        cur := NextInLayout(cur.value, k);
        k := k + 1;
      }
    }

    /** The header behind block k, if there is one. */
    method NextInLayout(cur: nat, ghost k: nat) returns (next: Option<nat>)
      requires Tiles(blocks[..], layout) && k < |layout| && cur == Start(layout, k)
      ensures next == if k + 1 < |layout| then Some(Start(layout, k + 1)) else None
    {
      assert HeaderOf(blocks[..], layout, k);
      StartMonotone(layout, k + 1, |layout|);
      next := GetNextHeaderPosition(cur, layout[k]);
    }

    /** Shrinks the free block at cur to the request and puts a free block behind it. */
    method Shrink(cur: nat, size: nat, ghost blk: Block) returns (p: nat)
      requires blocks.Length == 4096 && HeaderAt(blocks[..], cur, blk)
      requires Fits(blk, size) && size > 0
      modifies blocks
      ensures p == cur + HeaderSize(TotalFor(size)) && TotalFor(size) <= blk.total
      ensures HeaderAt(blocks[..], cur, Block(TotalFor(size), true))
      ensures TotalFor(size) < blk.total ==>
        HeaderAt(blocks[..], cur + TotalFor(size), Block(blk.total - TotalFor(size), false))
      ensures SameOutside(old(blocks[..]), blocks[..], cur, cur + blk.total)
    {
      FitsTotal(blk, size);
      var rest := AdjustHeaderSize(cur, size, true, blk);
      ghost var b := blocks[..];
      var next := GetNextHeaderPosition(cur, Block(TotalFor(size), true));
      if next.Some? {
        WriteNewHeader(next.value, false, rest);
      }
      HeaderFrame(b, blocks[..], cur, Block(TotalFor(size), true), cur + TotalFor(size), cur + blk.total);
      p := GetDataPointer(cur, Block(TotalFor(size), true));
    }

    /** Hands out free block k of the layout. */
    method Carve(cur: nat, size: nat, ghost k: nat) returns (p: nat)
      requires blocks.Length == 4096 && Tiles(blocks[..], layout) && size > 0
      requires k == FirstFit(layout, 0, size) < |layout| && cur == Start(layout, k)
      modifies this`layout, blocks
      ensures p == cur + HeaderSize(TotalFor(size)) && layout == MallocLayout(old(layout), size)
      ensures Tiles(blocks[..], layout)
      ensures SameOutside(old(blocks[..]), blocks[..], cur, old(Start(layout, k + 1)))
    {
      ghost var b, blk := blocks[..], layout[k];
      assert HeaderOf(b, layout, k);
      p := Shrink(cur, size, blk);
      SplitHeaders(blocks[..], cur, blk.total, size);
      SplitKeepsSize(blk.total, size);
      MallocBytes(b, layout, k, size, blocks[..]);
      layout := MallocLayout(layout, size);
    }

    /** The first allocation turns the untouched heap into one free block. */
    method Initialise()
      requires Valid() && Untouched() && blocks.Length == 4096
      modifies this`layout, blocks
      ensures Valid() && layout == [Block(HEAP_SIZE, false)]
      ensures forall q: nat :: Buffer(q) == None
    {
      WriteNewHeader(0, false, 4096);
      layout := [Block(HEAP_SIZE, false)];
      assert Start(layout, 1) == layout[0].total;
      assert HeaderOf(blocks[..], layout, 0);
    }

    /** Whether the first header reads as never written. */
    method LooksUntouched() returns (untouched: bool)
      requires Valid()
      ensures untouched == (layout == FreshLayout())
      ensures untouched ==> Untouched()
    {
      assert layout != [];
      assert HeaderOf(blocks[..], layout, 0);
      var isUsed, isLarge, blkSize := ReadHeader(0);
      untouched := !isUsed && !isLarge && blkSize == 0;
      if untouched {
        assert !FirstOk(layout[0]);
      }
    }

    /** The allocation proper, on an initialised heap: none but the returned buffer appears,
        changes or goes away. */
    method Allocate(size: nat) returns (p: Option<nat>)
      requires Valid() && WellFormed(layout) && size > 0
      modifies this`layout, blocks
      ensures Valid() && layout == MallocLayout(old(layout), size)
      ensures p == if FirstFit(old(layout), 0, size) == |old(layout)| then None
                   else Some(Start(old(layout), FirstFit(old(layout), 0, size)) + HeaderSize(TotalFor(size)))
      ensures p.Some? ==> old(Buffer(p.value)) == None
      ensures p.Some? ==> Buffer(p.value).Some? && |Buffer(p.value).value| == size
      ensures forall q: nat :: p != Some(q) ==> Buffer(q) == old(Buffer(q))
    {
      var cur := FindFit(size);
      if cur.None? {
        return None;
      }
      ghost var b, bs, k := blocks[..], layout, FirstFit(layout, 0, size);
      MallocAddressIsNew(b, bs, k, size);
      assert Buffer(Start(bs, k) + HeaderSize(TotalFor(size))) == None;
      var data := Carve(cur.value, size, k);
      MallocKeepsWellFormed(bs, size);
      MallocLiveNew(blocks[..], bs, k, size);
      forall q: nat | q != data ensures LiveAt(blocks[..], layout, q) == LiveAt(b, bs, q) {
        MallocLiveOther(b, bs, k, size, blocks[..], q);
      }
      p := Some(data);
    }

    /** Initialises the heap before the first allocation, unless that is too large. */
    method Prepare(size: nat) returns (ok: bool)
      requires Valid()
      modifies this`layout, blocks
      ensures Valid()
      ensures ok ==> WellFormed(layout) && layout == Initialised(old(layout))
      ensures !ok ==> layout == old(layout)
      ensures ok <==> !(old(layout) == FreshLayout() && size > 4095)
      ensures forall q: nat :: Buffer(q) == old(Buffer(q))
    {
      var untouched := LooksUntouched();
      if untouched {
        UntouchedIsEmpty(blocks[..]);
        if size > 4095 {
          return false;
        }
        Initialise();
      }
      ok := true;
    }

    /** Hands out the first free block with room for the request. */
    method MyMalloc(size: nat) returns (p: Option<nat>)
      requires Valid()
      modifies this`layout, blocks
      ensures Valid()
      ensures p == MallocAddress(old(layout), size) && layout == AfterMalloc(old(layout), size)
      ensures p.Some? ==> old(Buffer(p.value)) == None
      ensures p.Some? ==> Buffer(p.value).Some? && |Buffer(p.value).value| == size
      ensures forall q: nat :: p != Some(q) ==> Buffer(q) == old(Buffer(q))
    {
      if size == 0 {
        return None;
      }
      var ok := Prepare(size);
      if !ok {
        NoRoom(size);
        return None;
      }
      NotFresh(layout);
      p := Allocate(size);
    }

    // ---------- myfree ----------

    /** The walk to the live block whose payload starts at the given address. */
    method FindLive(input: nat) returns (cur: Option<nat>)
      requires Tiles(blocks[..], layout)
      ensures var k := LiveIndex(layout, input);
        cur == if k < |layout| then Some(Start(layout, k)) else None
    {
      cur := Some(0);
      ghost var k := 0;
      assert layout != [];
      while cur.Some?
        invariant k <= |layout| && forall j :: 0 <= j < k ==> !DataIs(layout, j, input)
        invariant cur == if k < |layout| then Some(Start(layout, k)) else None
        decreases |layout| - k
      {
        assert HeaderOf(blocks[..], layout, k);
        var isUsed, isLarge, size := ReadHeader(cur.value);
        var data := GetDataPointer(cur.value, layout[k]);
        if data == input {
          FoundIsUnique(layout, input, k);
          return if isUsed then cur else None;
        }
        cur := NextInLayout(cur.value, k);
        k := k + 1;
      }
    }

    /** The payload of block k, with a free block behind it added. */
    method SizeWithNext(cur: nat, ghost k: nat) returns (size: nat)
      requires Tiles(blocks[..], layout) && k < |layout| && cur == Start(layout, k)
      ensures Start(layout, k + 1) <= Start(layout, MergeTo(layout, k))
      ensures size == Payload(layout[k].total) + (Start(layout, MergeTo(layout, k)) - Start(layout, k + 1))
    {
      assert HeaderOf(blocks[..], layout, k);
      StartMonotone(layout, k + 1, MergeTo(layout, k));
      var isUsed, isLarge;
      isUsed, isLarge, size := ReadHeader(cur);
      var next := NextInLayout(cur, k);
      if next.Some? {
        assert HeaderOf(blocks[..], layout, k + 1);
        var nextUsed, nextLarge, nextSize := ReadHeader(next.value);
        if !nextUsed {
          var n := GetBlkSize(next.value, layout[k + 1]);
          size := size + n;
        }
      }
    }

    /** Marks block k as free and takes a free block behind it in. */
    method MergeNext(cur: nat, ghost k: nat)
      requires blocks.Length == 4096 && Tiles(blocks[..], layout)
      requires k < |layout| && layout[k].used && BlockOk(layout[k]) && cur == Start(layout, k)
      modifies blocks
      ensures var to := Start(layout, MergeTo(layout, k));
        cur < to && HeaderAt(blocks[..], cur, Block(to - cur, false))
        && SameOutside(old(blocks[..]), blocks[..], cur, to)
    {
      assert HeaderOf(blocks[..], layout, k);
      ghost var to := Start(layout, MergeTo(layout, k));
      var size := SizeWithNext(cur, k);
      HeaderFits(layout, k);
      AdjustsBySum(layout[k].total, to - Start(layout, k + 1));
      StartMonotone(layout, MergeTo(layout, k), |layout|);
      var rest := AdjustHeaderSize(cur, size, false, layout[k]);
      HeaderWithin(cur, to);
    }

    /** The walk to the block before the one at cur. */
    method GetPreviousHeader(cur: nat, ghost k: nat) returns (prev: Option<nat>)
      requires Tiles(blocks[..], layout) && k < |layout| && cur == Start(layout, k)
      ensures prev == if k == 0 then None else Some(Start(layout, k - 1))
    {
      prev := Some(0);
      ghost var j := 0;
      var next := NextInLayout(0, 0);
      while prev.Some? && next != Some(cur)
        invariant j <= |layout| && (k > 0 ==> j < k)
        invariant prev == if j < |layout| then Some(Start(layout, j)) else None
        invariant next == if j + 1 < |layout| then Some(Start(layout, j + 1)) else None
        decreases |layout| - j
      {
        StartsDiffer(layout, j + 1, k);
        prev := next;
        j := j + 1;
        if prev.Some? {
          next := NextInLayout(prev.value, j);
        }
      }
      if j < |layout| && j + 1 != k {
        StartsDiffer(layout, j + 1, k);
      }
    }

    /** Takes the freed block k into a free block before it. */
    method MergePrevious(cur: nat, ghost k: nat)
      requires blocks.Length == 4096 && Tiles(blocks[..], layout)
      requires k < |layout| && !layout[k].used && layout[k].total >= 2 && cur == Start(layout, k)
      modifies blocks
      ensures var from, to := Start(layout, MergeFrom(layout, k)), Start(layout, k + 1);
        from < to && HeaderAt(blocks[..], from, Block(to - from, false))
        && SameOutside(old(blocks[..]), blocks[..], from, to)
    {
      assert HeaderOf(blocks[..], layout, k);
      assert Start(layout, k + 1) == cur + layout[k].total;
      StartMonotone(layout, k + 1, |layout|);
      var prev := GetPreviousHeader(cur, k);
      if prev.Some? {
        assert HeaderOf(blocks[..], layout, k - 1);
        var isUsed, isLarge, size := ReadHeader(prev.value);
        if !isUsed {
          var n := GetBlkSize(cur, layout[k]);
          AdjustsBySum(layout[k - 1].total, n);
          var rest := AdjustHeaderSize(prev.value, size + n, false, layout[k - 1]);
        }
      }
    }

    /** Frees block k and merges it with its free neighbours. */
    method Release(cur: nat, ghost k: nat)
      requires Valid() && WellFormed(layout) && blocks.Length == 4096
      requires k < |layout| && layout[k].used && cur == Start(layout, k)
      modifies this`layout, blocks
      ensures Valid() && layout == FreeLayout(old(layout), k)
      ensures forall q: nat :: Buffer(q) == if q == DataAt(old(layout), k) then None else old(Buffer(q))
    {
      ghost var b, bs := blocks[..], layout;
      MergeNext(cur, k);
      ghost var b1 := blocks[..];
      layout := MergedNext(b, bs, k, b1);
      MergePrevious(cur, k);
      Released(b, bs, k, b1, blocks[..]);
      layout := FreeLayout(bs, k);
    }

    /** Frees the block with the given payload address if that is live, and changes nothing
        otherwise. */
    method MyFree(input: Option<int>)
      requires Valid()
      modifies this`layout, blocks
      ensures Valid()
      ensures layout == if input.None? then old(layout) else AfterFree(old(layout), input.value)
      ensures layout == old(layout) ==> blocks[..] == old(blocks[..])
      ensures forall q: nat :: Buffer(q) == if input == Some(q) then None else old(Buffer(q))
    {
      if input.None? || input.value < 0 || input.value > 4095 {
        AddressInHeap(layout);
        return;
      }
      ghost var k := LiveIndex(layout, input.value);
      var cur := FindLive(input.value);
      if cur.Some? {
        FreeChangesLayout(layout, k);
        Release(cur.value, k);
      }
    }

    // ---------- The user ----------

    /** The owner of a buffer overwrites byte i of it. */
    method UserWrite(p: nat, i: nat, v: byte)
      requires Valid() && Buffer(p).Some? && i < |Buffer(p).value|
      modifies blocks
      ensures Valid()
      ensures Buffer(p) == Some(old(Buffer(p)).value[i := v])
      ensures forall q: nat :: q != p ==> Buffer(q) == old(Buffer(q))
    {
      ghost var b, k := blocks[..], FindData(layout, p);
      StartMonotone(layout, k + 1, |layout|);
      WriteLive(b, layout, p, i, v);
      blocks[p + i] := v;
      assert blocks[..] == b[p + i := v];
      WriteTiles(b, layout, k, p + i, v);
      forall q: nat | q != p ensures LiveAt(blocks[..], layout, q) == LiveAt(b, layout, q) {
        WriteLiveOther(b, layout, p, i, v, q);
      }
    }
  }
}
