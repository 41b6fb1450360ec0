/** Whole runs of the allocator of Asst1/mymalloc.c: any sequence of allocations, frees of any
    pointer, and writes by the user into buffers it was given. */
module HeapRuns {
  import opened CTypes
  import opened Layout
  import opened HeapBytes
  import opened Allocator

  datatype Op = Malloc(size: nat) | Free(input: Option<int>) | Write(p: nat, i: nat, v: byte)

  ghost function AfterOp(bs: seq<Block>, op: Op): seq<Block> {
    match op
    case Malloc(size) => AfterMalloc(bs, size)
    case Free(input) => if input.None? then bs else AfterFree(bs, input.value)
    case Write(_, _, _) => bs
  }

  /** The user writes only inside live buffers; everything else is allowed. */
  ghost predicate Allowed(bs: seq<Block>, op: Op) {
    op.Write? ==>
      var k := LiveIndex(bs, op.p);
      k < |bs| && op.i + HeaderSize(bs[k].total) < bs[k].total
  }

  ghost function AfterAll(bs: seq<Block>, ops: seq<Op>): seq<Block>
    decreases |ops|
  {
    if ops == [] then bs else AfterAll(AfterOp(bs, ops[0]), ops[1..])
  }

  ghost predicate AllAllowed(bs: seq<Block>, ops: seq<Op>)
    decreases |ops|
  {
    ops != [] ==> Allowed(bs, ops[0]) && AllAllowed(AfterOp(bs, ops[0]), ops[1..])
  }

  ghost predicate Sound(bs: seq<Block>) {
    WellFormed(bs) || bs == FreshLayout()
  }

  lemma OpKeepsSound(bs: seq<Block>, op: Op)
    requires Sound(bs)
    ensures Sound(AfterOp(bs, op))
  {
    match op
    case Malloc(size) =>
      OneBlock();
      if size > 0 && WellFormed(Initialised(bs)) {
        MallocKeepsWellFormed(Initialised(bs), size);
      }
    case Free(input) =>
      if input.Some? && LiveIndex(bs, input.value) < |bs| {
        FreeKeepsWellFormed(bs, LiveIndex(bs, input.value));
      }
    case Write(_, _, _) =>
  }

  lemma OneBlock()
    ensures WellFormed([Block(HEAP_SIZE, false)])
  {
    assert Start([Block(HEAP_SIZE, false)], 1) == HEAP_SIZE;
  }

  /** Whatever the run, the blocks tile the heap without two free neighbours, and headers and
      sizes fit together. */
  lemma {:induction false} RunsKeepSound(bs: seq<Block>, ops: seq<Op>)
    requires Sound(bs)
    ensures Sound(AfterAll(bs, ops))
    decreases |ops|
  {
    if ops != [] {
      OpKeepsSound(bs, ops[0]);
      RunsKeepSound(AfterOp(bs, ops[0]), ops[1..]);
    }
  }

  // ---------- Null results and restored layouts ----------

  /** A request for at least one byte fails if and only if no free block has room for it. */
  lemma MallocFailsIff(bs: seq<Block>, size: nat)
    requires size > 0
    ensures MallocAddress(bs, size) == None
      <==> forall k :: 0 <= k < |Initialised(bs)| ==> !Fits(Initialised(bs)[k], size)
  {
    var k := FirstFit(Initialised(bs), 0, size);
    assert k < |Initialised(bs)| ==> Fits(Initialised(bs)[k], size);
  }

  /** Freeing what an allocation returned restores the layout it found. */
  lemma FreeRestores(bs: seq<Block>, size: nat)
    requires Sound(bs) && MallocAddress(bs, size).Some?
    ensures AfterFree(AfterMalloc(bs, size), MallocAddress(bs, size).value) == Initialised(bs)
  {
    OneBlock();
    var cs := Initialised(bs);
    var k := FirstFit(cs, 0, size);
    if bs == FreshLayout() && size > 4095 {
      NoRoom(size);
    }
    MallocBlock(cs, k, size);
    FoundIsUnique(MallocLayout(cs, size), MallocAddress(bs, size).value, k);
    FreeUndoesMalloc(cs, size);
  }

  lemma LiveIffIndexed(b: seq<byte>, bs: seq<Block>, q: nat)
    requires |b| == HEAP_SIZE && Tiling(bs)
    ensures q in Live(bs) <==> LiveAt(b, bs, q).Some?
  {
    LiveIndexFinds(bs, q);
  }

  lemma WellFormedTiles(bs: seq<Block>)
    requires WellFormed(bs)
    ensures Tiling(bs)
  {
    forall k | 0 <= k < |bs| ensures bs[k].total >= 1 {
      assert BlockOk(bs[k]);
    }
  }

  /** Freeing a live pointer takes it away from the live ones, and freeing any other leaves
      them as they are. */
  lemma FreeTakesOne(bs: seq<Block>, p: nat)
    requires WellFormed(bs)
    ensures WellFormed(AfterFree(bs, p)) && Live(AfterFree(bs, p)) == Live(bs) - {p}
  {
    WellFormedTiles(bs);
    LiveIndexFinds(bs, p);
    var k := LiveIndex(bs, p);
    if k < |bs| {
      FreeKeepsWellFormed(bs, k);
      WellFormedTiles(FreeLayout(bs, k));
      var b: seq<byte> := seq(HEAP_SIZE, _ => 0);
      forall q: nat ensures q in Live(FreeLayout(bs, k)) <==> q in Live(bs) && q != p {
        FreeLive(b, bs, k, b, q);
        LiveIffIndexed(b, bs, q);
        LiveIffIndexed(b, FreeLayout(bs, k), q);
      }
    }
  }

  lemma UsedIsLive(bs: seq<Block>, k: nat)
    requires k < |bs|
    ensures bs[k].used ==> DataAt(bs, k) in Live(bs)
  {
  }

  ghost function FreeAll(bs: seq<Block>, ps: seq<nat>): seq<Block>
    decreases |ps|
  {
    if ps == [] then bs else FreeAll(AfterFree(bs, ps[0]), ps[1..])
  }

  /** Freeing all live blocks, in any order and even more than once, leaves one free block. */
  lemma {:induction false} FreeingAllRestores(bs: seq<Block>, ps: seq<nat>)
    requires WellFormed(bs) && forall q :: q in Live(bs) ==> q in ps
    ensures FreeAll(bs, ps) == [Block(HEAP_SIZE, false)]
    decreases |ps|
  {
    if ps == [] {
      forall k | 0 <= k < |bs| ensures !bs[k].used {
        UsedIsLive(bs, k);
      }
      NothingLiveIsOneBlock(bs);
    } else {
      FreeTakesOne(bs, ps[0]);
      forall q | q in Live(AfterFree(bs, ps[0])) ensures q in ps[1..] {
        assert q in ps && q != ps[0];
      }
      FreeingAllRestores(AfterFree(bs, ps[0]), ps[1..]);
    }
  }

  // ---------- Runs on the bytes ----------

  /** The operation neither frees the buffer at q nor writes to it. */
  predicate Spares(op: Op, q: nat) {
    match op
    case Malloc(_) => true
    case Free(input) => input != Some(q)
    case Write(p, _, _) => p != q
  }

  predicate AllSpare(ops: seq<Op>, q: nat) {
    ops != [] ==> Spares(ops[0], q) && AllSpare(ops[1..], q)
  }

  lemma AllowedWrite(b: seq<byte>, bs: seq<Block>, op: Op)
    requires op.Write? && |b| == HEAP_SIZE && Tiling(bs) && Allowed(bs, op)
    ensures LiveAt(b, bs, op.p).Some? && op.i < |LiveAt(b, bs, op.p).value|
  {
    LiveLength(b, bs, LiveIndex(bs, op.p));
  }

  method Step(h: Heap, op: Op)
    requires h.Valid() && Allowed(h.layout, op)
    modifies h`layout, h.blocks
    ensures h.Valid() && h.layout == AfterOp(old(h.layout), op)
    ensures forall q: nat :: old(h.Buffer(q)).Some? && Spares(op, q) ==> h.Buffer(q) == old(h.Buffer(q))
  {
    match op
    case Malloc(size) =>
      var p := h.MyMalloc(size);
    case Free(input) =>
      h.MyFree(input);
    case Write(p, i, v) =>
      AllowedWrite(h.blocks[..], h.layout, op);
      h.UserWrite(p, i, v);
  }

  /** A run: a buffer keeps its bytes until it is freed or its owner writes to it. */
  method Run(h: Heap, ops: seq<Op>)
    requires h.Valid() && AllAllowed(h.layout, ops)
    modifies h`layout, h.blocks
    ensures h.Valid() && h.layout == AfterAll(old(h.layout), ops)
    ensures forall q: nat :: old(h.Buffer(q)).Some? && AllSpare(ops, q) ==> h.Buffer(q) == old(h.Buffer(q))
    decreases |ops|
  {
    if ops != [] {
      Step(h, ops[0]);
      Run(h, ops[1..]);
    }
  }
}
