/** kmalloc, kfree and krealloc as functions of the block list, and what holds over every run. */
module KHeapRuns {
  import opened Machine
  import opened KHeapSpec

  datatype Heap = Heap(blocks: seq<Block>, end: int)

  const INITIAL := Heap([Block(START, CHUNK - HEADER, false)], START + CHUNK)

  ghost predicate Inv(h: Heap) {
    && Tiles(h.blocks, START, h.end) && Coalesced(h.blocks)
    && START + CHUNK <= h.end <= LIMIT && (LIMIT - h.end) % CHUNK == 0
  }

  // ---------------------------------------------------------------- growth

  /** `kheap_expand`: one more chunk of free memory, coalesced. */
  function Grow(h: Heap): Heap {
    Heap(Merge(h.blocks + [Block(h.end, CHUNK - HEADER, false)]), h.end + CHUNK)
  }

  lemma GrowEnd(h: Heap)
    ensures Grow(h).end == h.end + CHUNK
  {
  }

  lemma GrowInv(h: Heap)
    requires Inv(h) && h.end < LIMIT
    ensures Inv(Grow(h)) && SameUsed(h.blocks, Grow(h).blocks)
  {
    var bs := h.blocks + [Block(h.end, CHUNK - HEADER, false)];
    assert Tiles(bs, START, h.end + CHUNK);
    MergeTiles(bs, START, h.end + CHUNK);
    forall b: Block
      ensures b in h.blocks && b.used <==> b in Merge(bs) && b.used
    {
      if b.used {
        MergeUsed(bs, b);
      }
    }
  }

  /** Bytes free at the top of the heap, header included. */
  function Trailing(bs: seq<Block>): int {
    if bs == [] || bs[|bs| - 1].used then 0 else bs[|bs| - 1].size + HEADER
  }

  /** On a coalesced list the new chunk joins the last block or stands alone. */
  lemma {:induction false} MergeAppend(bs: seq<Block>, b: Block)
    requires Coalesced(bs) && !b.used
    ensures Merge(bs + [b]) != [] && Trailing(Merge(bs + [b])) == Trailing(bs) + b.size + HEADER
    decreases |bs|
  {
    if |bs| == 0 {
      assert bs + [b] == [b];
    } else if |bs| == 1 {
      var c := Block(bs[0].addr, bs[0].size + HEADER + b.size, false);
      assert (bs + [b])[1] == b && [c] + (bs + [b])[2..] == [c];
      assert (bs + [b])[1..] == [b];
    } else {
      MergeAppend(bs[1..], b);
      assert (bs + [b])[1..] == bs[1..] + [b];
    }
  }

  // ---------------------------------------------------------------- the three calls

  /** `kmalloc` of an aligned size. None: the heap has reached FREE_KVM_START without a fit. */
  function Malloc(h: Heap, size: int): Option<(Heap, int)>
    decreases LIMIT - h.end
  {
    var k := FirstFit(h.blocks, size);
    if k < |h.blocks| then Some((h.(blocks := Carve(h.blocks, k, size)), h.blocks[k].addr + HEADER))
    else if h.end >= LIMIT then None
    else Malloc(Grow(h), size)
  }

  /** Index of the block whose payload starts at `p`. */
  function Find(bs: seq<Block>, p: int): (k: nat)
    ensures k <= |bs| && (k < |bs| ==> bs[k].addr + HEADER == p)
    ensures forall i :: 0 <= i < k ==> bs[i].addr + HEADER != p
  {
    if bs == [] || bs[0].addr + HEADER == p then 0 else 1 + Find(bs[1..], p)
  }

  /** `p` is the payload of a used block. */
  predicate Live(bs: seq<Block>, p: int) {
    Find(bs, p) < |bs| && bs[Find(bs, p)].used
  }

  function BlockOf(bs: seq<Block>, p: int): Block
    requires Live(bs, p)
  {
    bs[Find(bs, p)]
  }

  /** `kfree`. */
  function Free(h: Heap, p: int): Heap
    requires Live(h.blocks, p)
  {
    var k := Find(h.blocks, p);
    h.(blocks := Merge(h.blocks[k := h.blocks[k].(used := false)]))
  }

  lemma LiveIff(bs: seq<Block>, lo: int, hi: int, b: Block)
    requires Tiles(bs, lo, hi) && b in bs
    ensures Live(bs, b.addr + HEADER) == b.used && Find(bs, b.addr + HEADER) < |bs|
    ensures bs[Find(bs, b.addr + HEADER)] == b
  {
    var i :| 0 <= i < |bs| && bs[i] == b;
    var k := Find(bs, b.addr + HEADER);
    if k < i {
      Ordered(bs, lo, hi, k, i);
    }
  }

  /** `h'` is `h` with one more used block, of at least `size` bytes, at `p`. */
  ghost predicate Added(h: Heap, h': Heap, p: int, size: int) {
    && Inv(h') && h.end <= h'.end
    && Live(h'.blocks, p) && BlockOf(h'.blocks, p).size >= size && !Live(h.blocks, p)
    && forall b: Block :: b.used ==> (b in h'.blocks <==> b in h.blocks || b == BlockOf(h'.blocks, p))
  }

  lemma CarveAdds(h: Heap, k: nat, size: int)
    requires Inv(h) && k < |h.blocks| && Fits(h.blocks[k], size) && 0 <= size && size % 4 == 0
    ensures Added(h, h.(blocks := Carve(h.blocks, k, size)), h.blocks[k].addr + HEADER, size)
  {
    hide Tiles, Coalesced, Carve, Find;
    var bs := Carve(h.blocks, k, size);
    CarveTiles(h.blocks, START, h.end, k, size);
    CarveUsed(h.blocks, START, h.end, k, size, h.blocks[k].(used := true));
    forall b: Block | b.used
      ensures b in bs <==> b in h.blocks || b == bs[k]
    {
      CarveUsed(h.blocks, START, h.end, k, size, b);
    }
    LiveIff(bs, START, h.end, bs[k]);
    LiveIff(h.blocks, START, h.end, h.blocks[k]);
  }

  /** A successful kmalloc keeps the invariant and every used block, and adds one new block. */
  lemma {:induction false} MallocInv(h: Heap, size: int)
    requires Inv(h) && 0 <= size && size % 4 == 0
    ensures Malloc(h, size).Some? ==> Added(h, Malloc(h, size).value.0, Malloc(h, size).value.1, size)
    decreases LIMIT - h.end
  {
    hide Tiles, Coalesced, Carve, Grow;
    var k := FirstFit(h.blocks, size);
    if k < |h.blocks| {
      CarveAdds(h, k, size);
    } else if h.end < LIMIT {
      GrowInv(h);
      GrowEnd(h);
      MallocInv(Grow(h), size);
      if Malloc(h, size).Some? && Live(h.blocks, Malloc(h, size).value.1) {
        LiveIff(Grow(h).blocks, START, Grow(h).end, BlockOf(h.blocks, Malloc(h, size).value.1));
      }
    }
  }

  /** kfree keeps the invariant and every other used block. */
  lemma FreeInv(h: Heap, p: int)
    requires Inv(h) && Live(h.blocks, p)
    ensures Inv(Free(h, p)) && Free(h, p).end == h.end
    ensures forall b: Block :: b.used ==> (b in Free(h, p).blocks <==> b in h.blocks && b != BlockOf(h.blocks, p))
  {
    var k := Find(h.blocks, p);
    var bs := h.blocks[k := h.blocks[k].(used := false)];
    assert Tiles(bs, START, h.end);
    MergeTiles(bs, START, h.end);
    forall b: Block | b.used
      ensures b in Merge(bs) <==> b in h.blocks && b != h.blocks[k]
    {
      MergeUsed(bs, b);
      if b in h.blocks && b != h.blocks[k] {
        var i :| 0 <= i < |h.blocks| && h.blocks[i] == b;
        assert bs[i] == b;
      }
      if b in bs {
        var i :| 0 <= i < |bs| && bs[i] == b;
        assert i != k && h.blocks[i] == b;
        if i < k { Ordered(h.blocks, START, h.end, i, k); } else { Ordered(h.blocks, START, h.end, k, i); }
      }
    }
  }

  // ---------------------------------------------------------------- growth is bounded

  /** A request succeeds after at most `n` expansions when `n` chunks, with what is free on top, hold it. */
  lemma {:induction false} MallocWithin(h: Heap, size: int, n: nat)
    requires Inv(h) && 0 <= size
    requires Trailing(h.blocks) + n * CHUNK >= size + HEADER && h.end + n * CHUNK <= LIMIT
    ensures Malloc(h, size).Some? && Malloc(h, size).value.0.end <= h.end + n * CHUNK
    decreases n
  {
    var k := FirstFit(h.blocks, size);
    if k == |h.blocks| && n > 0 {
      GrowInv(h);
      MergeAppend(h.blocks, Block(h.end, CHUNK - HEADER, false));
      MallocWithin(Grow(h), size, n - 1);
    }
  }

  // ---------------------------------------------------------------- sizes near 2^32

  /** The rounded size covers the request except where rounding wraps past 2^32. */
  lemma RoundingCovers(size: Word)
    ensures AlignUp(size, 4) >= size <==> size <= 0xFFFF_FFFC
    ensures AlignUp(size, 4) % 4 == 0 && AlignUp(size, 4) < size + 4 && (size > 0xFFFF_FFFC ==> AlignUp(size, 4) == 0)
  {
  }

  /** The block kmalloc returns holds the request exactly when rounding does not wrap. */
  lemma KmallocCoversIff(h: Heap, size: Word)
    requires Inv(h) && Malloc(h, AlignUp(size, 4)).Some?
    ensures var (h', p) := Malloc(h, AlignUp(size, 4)).value;
            Live(h'.blocks, p) && (BlockOf(h'.blocks, p).size >= size <==> size <= 0xFFFF_FFFC)
  {
    hide Malloc, Tiles, Coalesced;
    RoundingCovers(size);
    MallocInv(h, AlignUp(size, 4));
    var (h', p) := Malloc(h, AlignUp(size, 4)).value;
    InRange(h'.blocks, START, h'.end, Find(h'.blocks, p));
  }

  /** One such request: at boot, kmalloc(0xFFFFFFFD) returns a block of no bytes. */
  lemma KmallocWraps()
    ensures Malloc(INITIAL, AlignUp(0xFFFF_FFFD, 4)).Some?
    ensures var (h, p) := Malloc(INITIAL, AlignUp(0xFFFF_FFFD, 4)).value;
            Live(h.blocks, p) && BlockOf(h.blocks, p) == Block(START, 0, true)
  {
    assert AlignUp(0xFFFF_FFFD, 4) == 0 && FirstFit(INITIAL.blocks, 0) == 0;
    var bs := Carve(INITIAL.blocks, 0, 0);
    assert bs[0] == Block(START, 0, true);
  }

  /** The size of the block that kmalloc(0) returns: nothing, unless the first free block is too small to split. */
  function ZeroFit(bs: seq<Block>): int {
    var k := FirstFit(bs, 0);
    if k < |bs| && bs[k].size <= HEADER then bs[k].size else 0
  }

  lemma {:induction false} MergeUsedOnly(bs: seq<Block>, b: Block)
    requires forall i :: 0 <= i < |bs| ==> bs[i].used
    ensures Merge(bs + [b]) == bs + [b]
    decreases |bs|
  {
    if |bs| > 0 {
      MergeUsedOnly(bs[1..], b);
      assert (bs + [b])[1..] == bs[1..] + [b];
    }
  }

  lemma ZeroFits(h: Heap)
    requires Inv(h) && Malloc(h, 0).Some?
    ensures var (h', p) := Malloc(h, 0).value; Live(h'.blocks, p) && BlockOf(h'.blocks, p).size == ZeroFit(h.blocks)
  {
    hide Tiles, Coalesced, Grow, Carve, Find;
    MallocInv(h, 0);
    var k := FirstFit(h.blocks, 0);
    if k < |h.blocks| {
      CarvedSize(h, k);
    } else {
      GrowInv(h);
      NoneFree(h);
      CarvedSize(Grow(h), |h.blocks|);
    }
  }

  /** Without a free block the heap grows by one, and that is the first free one. */
  lemma NoneFree(h: Heap)
    requires Inv(h) && FirstFit(h.blocks, 0) == |h.blocks|
    ensures Grow(h).blocks == h.blocks + [Block(h.end, CHUNK - HEADER, false)]
    ensures FirstFit(Grow(h).blocks, 0) == |h.blocks|
  {
    forall i | 0 <= i < |h.blocks|
      ensures h.blocks[i].used
    {
      assert !Fits(h.blocks[i], 0);
    }
    var b := Block(h.end, CHUNK - HEADER, false);
    MergeUsedOnly(h.blocks, b);
    assert (h.blocks + [b])[|h.blocks|] == b && Fits(b, 0);
  }

  lemma CarvedSize(h: Heap, k: nat)
    requires Inv(h) && k < |h.blocks| && Fits(h.blocks[k], 0)
    ensures var bs := Carve(h.blocks, k, 0); var p := h.blocks[k].addr + HEADER;
            Live(bs, p) && BlockOf(bs, p).size == if h.blocks[k].size > HEADER then 0 else h.blocks[k].size
  {
    hide Tiles, Coalesced;
    CarveTiles(h.blocks, START, h.end, k, 0);
    var bs := Carve(h.blocks, k, 0);
    LiveIff(bs, START, h.end, bs[k]);
  }

  /** The copy inside krealloc stays in the new block. */
  predicate CopyFits(h: Heap, p: int, newsize: Word)
    requires Live(h.blocks, p)
  {
    newsize <= 0xFFFF_FFFC || BlockOf(h.blocks, p).size <= ZeroFit(h.blocks)
  }

  /** It does exactly under that condition; otherwise it overruns the block behind. */
  lemma CopyFitsIff(h: Heap, p: int, newsize: Word)
    requires Inv(h) && Live(h.blocks, p) && BlockOf(h.blocks, p).size <= newsize
    requires Malloc(h, AlignUp(newsize, 4)).Some?
    ensures var (h', q) := Malloc(h, AlignUp(newsize, 4)).value;
            Live(h'.blocks, q) && (BlockOf(h.blocks, p).size <= BlockOf(h'.blocks, q).size <==> CopyFits(h, p, newsize))
  {
    hide Malloc, ZeroFit, Tiles, Coalesced;
    RoundingCovers(newsize);
    if newsize <= 0xFFFF_FFFC {
      MallocInv(h, AlignUp(newsize, 4));
    } else {
      ZeroFits(h);
    }
  }

  /** One such call: at boot, krealloc(kmalloc(16), 0xFFFFFFFD) copies 16 bytes into a block of none. */
  lemma KreallocOverruns()
    ensures var bs := Carve(INITIAL.blocks, 0, 16); var h := INITIAL.(blocks := bs); var p := START + HEADER;
            && Malloc(INITIAL, AlignUp(16, 4)) == Some((h, p)) && Inv(h) && Live(bs, p)
            && BlockOf(bs, p).size == 16 && !CopyFits(h, p, 0xFFFF_FFFD)
  {
    assert AlignUp(16, 4) == 16 && FirstFit(INITIAL.blocks, 16) == 0;
    assert Inv(INITIAL);
    var bs := Carve(INITIAL.blocks, 0, 16);
    CarveTiles(INITIAL.blocks, START, INITIAL.end, 0, 16);
    assert bs == [Block(START, 16, true), Block(START + 24, CHUNK - 32, false)];
    assert FirstFit(bs, 0) == 1;
  }

  // ---------------------------------------------------------------- runs

  /** A call to the heap, or a store of a word into a live block by its owner. */
  datatype Op =
    | OpMalloc(size: Word)
    | OpFree(p: int)
    | OpRealloc(p: int, size: Word)
    | OpStore(p: int, off: nat, w: Word)

  /** The heap; for each live pointer the size that was asked for; and the words its owners have stored. */
  datatype Run = Run(heap: Heap, asked: map<int, Word>, stored: map<int, Word>)

  /** The call names a live block and stays inside it. */
  ghost predicate Legal(r: Run, op: Op) {
    match op
    case OpMalloc(size) => true
    case OpFree(p) => Live(r.heap.blocks, p)
    case OpRealloc(p, size) => Live(r.heap.blocks, p) && CopyFits(r.heap, p, size)
    case OpStore(p, off, w) => Live(r.heap.blocks, p) && off % 4 == 0 && off + 4 <= BlockOf(r.heap.blocks, p).size
  }

  ghost function Forget(stored: map<int, Word>, b: Block): map<int, Word> {
    map a | a in stored && !b.Has(a) :: stored[a]
  }

  /** Where the word now at `a` of a block at `q` was in `b`. */
  function From(b: Block, q: int, a: int): int {
    b.addr + HEADER + (a - q)
  }

  /** The words stored in `b` reappear from `q` on. */
  ghost function Moved(stored: map<int, Word>, b: Block, q: int): map<int, Word> {
    Forget(stored, b) + map a | q <= a < q + b.size && From(b, q, a) in stored :: stored[From(b, q, a)]
  }

  /** One step. None: the call was not legal, or the kernel has halted. */
  ghost function Step(r: Run, op: Op): Option<Run> {
    if !Legal(r, op) then None
    else
      match op
      case OpMalloc(size) =>
        (match Malloc(r.heap, AlignUp(size, 4))
         case None => None
         case Some((h, p)) => Some(Run(h, r.asked[p := size], r.stored)))
      case OpFree(p) => Some(Run(Free(r.heap, p), r.asked - {p}, Forget(r.stored, BlockOf(r.heap.blocks, p))))
      case OpRealloc(p, size) =>
        var b := BlockOf(r.heap.blocks, p);
        if b.size > size then None
        else
          (match Malloc(r.heap, AlignUp(size, 4))
           case None => None
           case Some((h, q)) =>
             if Live(h.blocks, p) then Some(Run(Free(h, p), r.asked[q := size] - {p}, Moved(r.stored, b, q))) else None)
      case OpStore(p, off, w) => Some(r.(stored := r.stored[p + off := w]))
  }

  ghost function Perform(ops: seq<Op>): Option<Run> {
    if ops == [] then Some(Run(INITIAL, map[], map[]))
    else
      match Perform(ops[..|ops| - 1])
      case None => None
      case Some(r) => Step(r, ops[|ops| - 1])
  }

  /** Word `a` lies in the payload of a used block. */
  ghost predicate Owned(bs: seq<Block>, a: int) {
    a % 4 == 0 && exists b :: b in bs && b.used && b.Has(a)
  }

  ghost predicate AllOwned(bs: seq<Block>, stored: map<int, Word>) {
    forall a :: a in stored ==> Owned(bs, a)
  }

  /** The heap invariant; the live pointers are those handed out, each with room for what was asked;
      stored words lie in live blocks. */
  ghost predicate Good(r: Run) {
    && Inv(r.heap)
    && (forall p :: p in r.asked <==> Live(r.heap.blocks, p))
    && (forall p :: p in r.asked ==> BlockOf(r.heap.blocks, p).size >= AlignUp(r.asked[p], 4))
    && AllOwned(r.heap.blocks, r.stored)
  }

  lemma SameLive(bs: seq<Block>, cs: seq<Block>, hi: int, hi': int, p: int)
    requires Tiles(bs, START, hi) && Tiles(cs, START, hi') && Live(bs, p) && BlockOf(bs, p) in cs
    ensures Live(cs, p) && BlockOf(cs, p) == BlockOf(bs, p)
  {
    LiveIff(cs, START, hi', BlockOf(bs, p));
  }

  lemma MallocGood(r: Run, size: Word)
    requires Good(r) && Malloc(r.heap, AlignUp(size, 4)).Some?
    ensures var (h, p) := Malloc(r.heap, AlignUp(size, 4)).value;
            Good(Run(h, r.asked[p := size], r.stored)) && !Live(r.heap.blocks, p)
            && forall q :: Live(r.heap.blocks, q) ==> Live(h.blocks, q) && BlockOf(h.blocks, q) == BlockOf(r.heap.blocks, q)
  {
    hide Tiles, Coalesced, Malloc;
    RoundingCovers(size);
    MallocInv(r.heap, AlignUp(size, 4));
    var (h, p) := Malloc(r.heap, AlignUp(size, 4)).value;
    forall q | Live(r.heap.blocks, q)
      ensures Live(h.blocks, q) && BlockOf(h.blocks, q) == BlockOf(r.heap.blocks, q)
    {
      SameLive(r.heap.blocks, h.blocks, r.heap.end, h.end, q);
    }
    forall q | Live(h.blocks, q) && q != p
      ensures Live(r.heap.blocks, q)
    {
      SameLive(h.blocks, r.heap.blocks, h.end, r.heap.end, q);
    }
    StillOwned(r.heap.blocks, h.blocks, r.stored);
  }

  lemma StillOwned(bs: seq<Block>, bs': seq<Block>, stored: map<int, Word>)
    requires AllOwned(bs, stored) && forall b :: b in bs && b.used ==> b in bs'
    ensures AllOwned(bs', stored)
  {
    forall a | a in stored
      ensures Owned(bs', a)
    {
      assert Owned(bs, a);
      var b :| b in bs && b.used && b.Has(a);
      assert b in bs';
    }
  }

  lemma FreeGood(r: Run, p: int)
    requires Good(r) && Live(r.heap.blocks, p)
    ensures Good(Run(Free(r.heap, p), r.asked - {p}, Forget(r.stored, BlockOf(r.heap.blocks, p))))
  {
    hide Tiles, Coalesced, Free;
    FreeInv(r.heap, p);
    var h := Free(r.heap, p);
    forall q
      ensures Live(h.blocks, q) <==> Live(r.heap.blocks, q) && q != p
      ensures Live(h.blocks, q) ==> BlockOf(h.blocks, q) == BlockOf(r.heap.blocks, q)
    {
      if Live(h.blocks, q) {
        SameLive(h.blocks, r.heap.blocks, h.end, r.heap.end, q);
      } else if Live(r.heap.blocks, q) && q != p {
        SameLive(r.heap.blocks, h.blocks, r.heap.end, h.end, q);
      }
    }
    var gone := BlockOf(r.heap.blocks, p);
    forall a | a in Forget(r.stored, gone)
      ensures Owned(h.blocks, a)
    {
      assert Owned(r.heap.blocks, a);
      var b :| b in r.heap.blocks && b.used && b.Has(a);
      assert b in h.blocks;
    }
  }

  /** The words a krealloc has moved lie in its new block. */
  lemma MovedOwned(h: Heap, p: int, q: int, stored: map<int, Word>)
    requires Inv(h) && Live(h.blocks, p) && Live(h.blocks, q) && p != q && AllOwned(h.blocks, stored)
    requires BlockOf(h.blocks, p).size <= BlockOf(h.blocks, q).size
    ensures AllOwned(Free(h, p).blocks, Moved(stored, BlockOf(h.blocks, p), q))
  {
    hide Tiles, Coalesced, Free, Find;
    FreeInv(h, p);
    var bp, bq := BlockOf(h.blocks, p), BlockOf(h.blocks, q);
    LiveAligned(h.blocks, h.end, p);
    LiveAligned(h.blocks, h.end, q);
    assert bq in Free(h, p).blocks;
    forall a | a in Moved(stored, bp, q)
      ensures Owned(Free(h, p).blocks, a)
    {
      if a in Forget(stored, bp) {
        assert Owned(h.blocks, a);
        var b :| b in h.blocks && b.used && b.Has(a);
        assert b in Free(h, p).blocks;
      } else {
        assert Owned(h.blocks, From(bp, q, a));
        Shifted(a, p, q);
        assert bq.Has(a);
      }
    }
  }

  lemma Shifted(a: int, p: int, q: int)
    requires (p + (a - q)) % 4 == 0 && p % 4 == 0 && q % 4 == 0
    ensures a % 4 == 0
  {
  }

  lemma LiveAligned(bs: seq<Block>, end: int, p: int)
    requires Tiles(bs, START, end) && Live(bs, p)
    ensures p % 4 == 0 && p == BlockOf(bs, p).addr + HEADER && BlockOf(bs, p).used && BlockOf(bs, p) in bs
  {
    assert Aligned(bs[Find(bs, p)].addr);
  }

  lemma ReallocGood(r: Run, p: int, size: Word)
    requires Good(r) && Step(r, OpRealloc(p, size)).Some?
    ensures Good(Step(r, OpRealloc(p, size)).value)
  {
    hide Malloc, Free, Tiles, Coalesced, Find, CopyFits;
    var (h, q) := Malloc(r.heap, AlignUp(size, 4)).value;
    MallocGood(r, size);
    CopyFitsIff(r.heap, p, size);
    var r1 := Run(h, r.asked[q := size], r.stored);
    FreeGood(r1, p);
    MovedOwned(h, p, q, r.stored);
  }

  lemma StoreGood(r: Run, p: int, off: nat, w: Word)
    requires Good(r) && Legal(r, OpStore(p, off, w))
    ensures Good(r.(stored := r.stored[p + off := w]))
  {
    hide Tiles, Coalesced, Find, AlignUp;
    LiveAligned(r.heap.blocks, r.heap.end, p);
    assert BlockOf(r.heap.blocks, p).Has(p + off);
    Shifted(p + off, off, p);
  }

  lemma StepGood(r: Run, op: Op)
    requires Good(r) && Step(r, op).Some?
    ensures Good(Step(r, op).value)
  {
    hide Good, Malloc, Free, Live, CopyFits;
    match op
    case OpMalloc(size) => MallocGood(r, size);
    case OpFree(p) => FreeGood(r, p);
    case OpRealloc(p, size) => ReallocGood(r, p, size);
    case OpStore(p, off, w) => StoreGood(r, p, off, w);
  }

  /** Every run of legal calls from the boot state stays good. */
  lemma {:induction false} RunsAreGood(ops: seq<Op>)
    ensures Perform(ops).Some? ==> Good(Perform(ops).value)
    decreases |ops|
  {
    if ops == [] {
      assert Inv(INITIAL);
    } else if Perform(ops).Some? {
      RunsAreGood(ops[..|ops| - 1]);
      StepGood(Perform(ops[..|ops| - 1]).value, ops[|ops| - 1]);
    }
  }

  /** In a good state live payloads do not overlap. */
  lemma LiveDisjoint(r: Run, p: int, q: int)
    requires Good(r) && p in r.asked && q in r.asked && p < q
    ensures p + BlockOf(r.heap.blocks, p).size + HEADER <= q
    ensures START + HEADER <= p && q + BlockOf(r.heap.blocks, q).size <= r.heap.end
  {
    var i, j := Find(r.heap.blocks, p), Find(r.heap.blocks, q);
    InRange(r.heap.blocks, START, r.heap.end, i);
    InRange(r.heap.blocks, START, r.heap.end, j);
    if i < j {
      Ordered(r.heap.blocks, START, r.heap.end, i, j);
    } else {
      Ordered(r.heap.blocks, START, r.heap.end, j, i);
    }
  }

  /** The call leaves block `p` and its word `a` to their owner. */
  predicate Spares(op: Op, p: int, a: int) {
    match op
    case OpMalloc(size) => true
    case OpFree(q) => q != p
    case OpRealloc(q, size) => q != p
    case OpStore(q, off, w) => q + off != a
  }

  lemma OtherBlock(r: Run, p: int, q: int, a: int)
    requires Good(r) && Live(r.heap.blocks, p) && Live(r.heap.blocks, q) && p != q && BlockOf(r.heap.blocks, p).Has(a)
    ensures !BlockOf(r.heap.blocks, q).Has(a)
  {
    if p < q {
      LiveDisjoint(r, p, q);
    } else {
      LiveDisjoint(r, q, p);
    }
  }

  /** The block at `p` is in use and holds the word `w` at `a`. */
  ghost predicate Keeps(r: Run, p: int, a: int, w: Word) {
    Good(r) && Live(r.heap.blocks, p) && BlockOf(r.heap.blocks, p).Has(a) && a in r.stored && r.stored[a] == w
  }

  lemma FreeSpares(r: Run, q: int, p: int, a: int, w: Word)
    requires Keeps(r, p, a, w) && Live(r.heap.blocks, q) && q != p
    ensures Keeps(Run(Free(r.heap, q), r.asked - {q}, Forget(r.stored, BlockOf(r.heap.blocks, q))), p, a, w)
  {
    hide Tiles, Coalesced, Free, Find, AllOwned;
    FreeGood(r, q);
    FreeInv(r.heap, q);
    OtherBlock(r, p, q, a);
    LiveAligned(r.heap.blocks, r.heap.end, p);
    SameLive(r.heap.blocks, Free(r.heap, q).blocks, r.heap.end, r.heap.end, p);
  }

  lemma StepSpares(r: Run, op: Op, p: int, a: int, w: Word)
    requires Keeps(r, p, a, w) && Step(r, op).Some? && Spares(op, p, a)
    ensures Keeps(Step(r, op).value, p, a, w)
  {
    hide Tiles, Coalesced, Free, Find, Malloc, CopyFits, AllOwned;
    StepGood(r, op);
    match op {
      case OpMalloc(size) => MallocGood(r, size);
      case OpFree(q) => FreeSpares(r, q, p, a, w);
      case OpRealloc(q, size) =>
        var (h, q') := Malloc(r.heap, AlignUp(size, 4)).value;
        MallocGood(r, size);
        CopyFitsIff(r.heap, q, size);
        var r1 := Run(h, r.asked[q' := size], r.stored);
        OtherBlock(r1, p, q', a);
        LiveAligned(h.blocks, h.end, q');
        FreeSpares(r1, q, p, a, w);
      case OpStore(q, off, w') =>
    }
  }

  /** A load returns the last store: whatever calls and stores follow, unless they free or move the block. */
  lemma {:induction false} LastStore(before: seq<Op>, p: int, off: nat, w: Word, after: seq<Op>)
    requires Perform(before + [OpStore(p, off, w)] + after).Some?
    requires forall i :: 0 <= i < |after| ==> Spares(after[i], p, p + off)
    ensures Keeps(Perform(before + [OpStore(p, off, w)] + after).value, p, p + off, w)
    decreases |after|
  {
    hide Step, Keeps;
    var ops := before + [OpStore(p, off, w)] + after;
    RunsAreGood(ops[..|ops| - 1]);
    if after == [] {
      assert ops[..|ops| - 1] == before;
      RunsAreGood(before);
      StoreKeeps(Perform(before).value, p, off, w);
    } else {
      var after' := after[..|after| - 1];
      assert ops[..|ops| - 1] == before + [OpStore(p, off, w)] + after';
      LastStore(before, p, off, w, after');
      StepSpares(Perform(ops[..|ops| - 1]).value, ops[|ops| - 1], p, p + off, w);
    }
  }

  lemma StoreKeeps(r: Run, p: int, off: nat, w: Word)
    requires Good(r) && Step(r, OpStore(p, off, w)).Some?
    ensures Keeps(Step(r, OpStore(p, off, w)).value, p, p + off, w)
  {
    hide Tiles, Coalesced, AllOwned;
    StepGood(r, OpStore(p, off, w));
    LiveAligned(r.heap.blocks, r.heap.end, p);
  }

  /** When everything has been freed, in whatever order, one free block spans the heap. */
  lemma AllFreed(r: Run)
    requires Good(r) && r.asked == map[]
    ensures r.heap.blocks == [Block(START, r.heap.end - START - HEADER, false)]
  {
    forall b | b in r.heap.blocks
      ensures !b.used
    {
      LiveIff(r.heap.blocks, START, r.heap.end, b);
    }
    Canonical(r.heap.blocks, [Block(START, r.heap.end - START - HEADER, false)], START, r.heap.end);
  }
}
