/** What the paging code asks of the kernel heap: list nodes that stay, and copy buffers. */
module HeapUse {
  import opened Machine
  import opened KHeapSpec
  import opened KHeapRuns

  type HeapState = Heap

  const NODE := 20              // sizeof(p_block_t)
  const LARGE_PIECE := 0x40_0000
  const HEAP_PAGE := 0xC_0800   // the page of KHEAP_BASE_START

  ghost predicate HeapOk(h: HeapState) {
    Inv(h)
  }

  /** Boot size: nothing has made the heap grow yet. */
  predicate BootSize(h: HeapState) {
    h.end == START + CHUNK
  }

  lemma HeapPages(h: HeapState)
    requires HeapOk(h)
    ensures START == HEAP_PAGE * 4096 && h.end % 4096 == 0 && HEAP_PAGE + 1024 <= h.end / 4096 <= 0xE_0800
    ensures BootSize(h) ==> h.end / 4096 == HEAP_PAGE + 1024
  {
    assert LIMIT - h.end == CHUNK * ((LIMIT - h.end) / CHUNK);
  }

  /** A free block holds `size` bytes: kmalloc need not expand the heap. */
  predicate HeapFits(h: HeapState, size: int) {
    FirstFit(h.blocks, size) < |h.blocks|
  }

  /** The heap after a kmalloc that need not expand it, and the pointer it returns. */
  function HeapTake(h: HeapState, size: int): HeapState
    requires HeapFits(h, size)
  {
    h.(blocks := Carve(h.blocks, FirstFit(h.blocks, size), size))
  }

  function TakenAt(h: HeapState, size: int): int
    requires HeapFits(h, size)
  {
    h.blocks[FirstFit(h.blocks, size)].addr + HEADER
  }

  lemma TakeIsMalloc(h: HeapState, size: int)
    requires HeapFits(h, size)
    ensures Malloc(h, size) == Some((HeapTake(h, size), TakenAt(h, size)))
  {
  }

  /** The block taken is new, large enough and inside the heap, which has not grown. */
  lemma TakeAdds(h: HeapState, size: int)
    requires HeapOk(h) && HeapFits(h, size) && 0 <= size && size % 4 == 0
    ensures Added(h, HeapTake(h, size), TakenAt(h, size), size) && HeapTake(h, size).end == h.end
    ensures START < TakenAt(h, size) && TakenAt(h, size) + size <= h.end
  {
    var k := FirstFit(h.blocks, size);
    CarveAdds(h, k, size);
    InRange(h.blocks, START, h.end, k);
  }

  /** Allocating and freeing leaves the heap as it was. */
  lemma TakeThenFree(h: HeapState, size: int)
    requires HeapOk(h) && HeapFits(h, size) && 0 <= size && size % 4 == 0
    ensures Live(HeapTake(h, size).blocks, TakenAt(h, size))
    ensures Free(HeapTake(h, size), TakenAt(h, size)) == h
  {
    hide Tiles, Coalesced, Free, HeapTake, TakenAt, Find;
    TakeAdds(h, size);
    var h1, p := HeapTake(h, size), TakenAt(h, size);
    FreeInv(h1, p);
    var h2 := Free(h1, p);
    var b1 := BlockOf(h1.blocks, p);
    forall b: Block
      ensures b in h2.blocks && b.used <==> b in h.blocks && b.used
    {
      if b == b1 && b in h.blocks && b.used {
        LiveAligned(h1.blocks, h1.end, p);
        LiveIff(h.blocks, START, h.end, b);
      }
    }
    assert SameUsed(h2.blocks, h.blocks);
    Canonical(h2.blocks, h.blocks, START, h.end);
  }

  /** `kfree` of a live pointer. */
  function HeapFree(h: HeapState, p: int): HeapState {
    if Live(h.blocks, p) then Free(h, p) else h
  }

  lemma BufferTaken(h: HeapState, n: nat)
    requires HeapOk(h) && HeapFits(h, n * 4096)
    ensures HeapOk(HeapTake(h, n * 4096)) && HeapTake(h, n * 4096).end == h.end
    ensures HEAP_PAGE * 4096 < TakenAt(h, n * 4096) && TakenAt(h, n * 4096) + n * 4096 <= h.end
  {
    TakeAdds(h, n * 4096);
  }

  lemma BufferFreed(h: HeapState)
    requires HeapOk(h) && HeapFits(h, 4096)
    ensures HeapFree(HeapTake(h, 4096), TakenAt(h, 4096)) == h
  {
    TakeThenFree(h, 4096);
  }

  // ---------------------------------------------------------------- one piece of a copy

  /** The heap after copying a piece of `n` pages: a node for the physical block stays, and so does the buffer
      of a 4 MiB page. None: the heap would have to grow. */
  function AfterPiece(h: HeapState, n: nat): Option<HeapState> {
    if !HeapFits(h, NODE) then None
    else
      var h1 := HeapTake(h, NODE);
      if !HeapFits(h1, n * 4096) then None
      else if n == 1 then Some(h1)
      else Some(HeapTake(h1, n * 4096))
  }

  ghost function UsedSet(h: HeapState): set<Block> {
    set b | b in h.blocks && b.used
  }

  /** The used blocks of 4 MiB and more. */
  ghost function BigUsed(h: HeapState): set<Block> {
    set b | b in h.blocks && b.used && b.size >= LARGE_PIECE
  }

  lemma TakeUsed(h: HeapState, size: int)
    requires HeapOk(h) && HeapFits(h, size) && (size == NODE || size == LARGE_PIECE)
    ensures HeapOk(HeapTake(h, size)) && HeapTake(h, size).end == h.end
    ensures UsedSet(h) <= UsedSet(HeapTake(h, size)) && |UsedSet(HeapTake(h, size))| == |UsedSet(h)| + 1
    ensures |BigUsed(HeapTake(h, size))| == |BigUsed(h)| + if size == LARGE_PIECE then 1 else 0
  {
    hide Tiles, Coalesced, HeapTake, TakenAt, Find;
    TakeAdds(h, size);
    TakenSize(h, size);
    var h1, p := HeapTake(h, size), TakenAt(h, size);
    var b1 := BlockOf(h1.blocks, p);
    LiveAligned(h1.blocks, h1.end, p);
    if b1 in h.blocks {
      LiveIff(h.blocks, START, h.end, b1);
    }
    assert UsedSet(h1) == UsedSet(h) + {b1};
    if size == LARGE_PIECE {
      assert BigUsed(h1) == BigUsed(h) + {b1};
    } else {
      assert BigUsed(h1) == BigUsed(h);
    }
  }

  /** A block is taken whole only when its rest would not hold a header and more. */
  lemma TakenSize(h: HeapState, size: int)
    requires HeapOk(h) && HeapFits(h, size) && 0 <= size && size % 4 == 0
    ensures var h1 := HeapTake(h, size);
            && Live(h1.blocks, TakenAt(h, size))
            && size <= BlockOf(h1.blocks, TakenAt(h, size)).size <= size + HEADER
  {
    var k := FirstFit(h.blocks, size);
    CarveTiles(h.blocks, START, h.end, k, size);
    var bs := Carve(h.blocks, k, size);
    LiveIff(bs, START, h.end, bs[k]);
  }

  /** What a piece leaves in use: one block for the node, and the buffer if it was a 4 MiB page. */
  lemma PieceCost(h: HeapState, n: nat)
    requires HeapOk(h) && (n == 1 || n == 1024) && AfterPiece(h, n).Some?
    ensures var h' := AfterPiece(h, n).value;
            && HeapOk(h') && h'.end == h.end && UsedSet(h) <= UsedSet(h')
            && |UsedSet(h')| == |UsedSet(h)| + (if n == 1 then 1 else 2)
            && |BigUsed(h')| == |BigUsed(h)| + (if n == 1 then 0 else 1)
  {
    hide HeapOk, HeapTake, UsedSet, BigUsed, HeapFits;
    TakeUsed(h, NODE);
    if n == 1024 {
      TakeUsed(HeapTake(h, NODE), LARGE_PIECE);
    }
  }

  /** Whichever block is taken, one remains that holds what is left of a room that was there. */
  lemma TakeLeaves(h: HeapState, size: int, room: int)
    requires HeapFits(h, size) && HeapFits(h, room) && 0 <= size && size + HEADER < room
    ensures HeapFits(HeapTake(h, size), room - size - HEADER)
  {
    var k, i := FirstFit(h.blocks, size), FirstFit(h.blocks, room);
    var bs := Carve(h.blocks, k, size);
    var j := if i < k then i else |bs| - |h.blocks| + i;
    assert Fits(bs[j], room - size - HEADER);
  }

  /** What a piece may use up of such a room. */
  function PieceRoom(n: nat): nat {
    if n == 1 then NODE + HEADER else NODE + HEADER + n * 4096 + HEADER
  }

  lemma RoomForPiece(h: HeapState, n: nat, room: int)
    requires (n == 1 || n == 1024) && HeapFits(h, room) && room >= PieceRoom(n) + 4096
    ensures AfterPiece(h, n).Some? && HeapFits(AfterPiece(h, n).value, room - PieceRoom(n))
  {
    hide HeapFits, HeapTake;
    FitsLess(h, NODE, room);
    TakeLeaves(h, NODE, room);
    var h1, left := HeapTake(h, NODE), room - NODE - HEADER;
    FitsLess(h1, n * 4096, left);
    if n == 1024 {
      TakeLeaves(h1, n * 4096, left);
    }
  }

  lemma FitsLess(h: HeapState, size: int, room: int)
    requires HeapFits(h, room) && size <= room
    ensures HeapFits(h, size)
  {
    assert Fits(h.blocks[FirstFit(h.blocks, room)], size);
  }

  // ---------------------------------------------------------------- the boot heap is too small for a 4 MiB buffer

  /** With its boot size the heap has no block of 4 MiB, whatever is in use. */
  lemma BootTooSmall(h: HeapState)
    requires HeapOk(h) && h.end == START + CHUNK
    ensures !HeapFits(h, LARGE_PIECE)
  {
    var k := FirstFit(h.blocks, LARGE_PIECE);
    if k < |h.blocks| {
      InRange(h.blocks, START, h.end, k);
    }
  }

  // ---------------------------------------------------------------- a buffer that makes the heap grow

  /** A new chunk joins a free last block or stands behind the others; no other block changes. */
  lemma {:induction false} MergeLast(bs: seq<Block>, b: Block)
    requires Coalesced(bs) && !b.used
    ensures var m := Merge(bs + [b]);
            if |bs| > 0 && !bs[|bs| - 1].used
            then m == bs[..|bs| - 1] + [Block(bs[|bs| - 1].addr, bs[|bs| - 1].size + HEADER + b.size, false)]
            else m == bs + [b]
    decreases |bs|
  {
    if |bs| == 0 {
      assert bs + [b] == [b];
    } else if |bs| == 1 {
      var c := Block(bs[0].addr, bs[0].size + HEADER + b.size, false);
      assert (bs + [b])[1] == b && [c] + (bs + [b])[2..] == [c] && (bs + [b])[1..] == [b] && bs[..0] == [];
    } else {
      var rest := bs[1..];
      MergeLast(rest, b);
      assert (bs + [b])[1..] == rest + [b] && rest[|rest| - 1] == bs[|bs| - 1];
      assert bs[..|bs| - 1] == [bs[0]] + rest[..|rest| - 1] && bs == [bs[0]] + rest;
    }
  }

  /** A block found only after one expansion reaches past the old end of the heap. */
  lemma FitsAfterGrowth(h: HeapState, size: int)
    requires HeapOk(h) && !HeapFits(h, size) && 0 < size && HeapFits(Grow(h), size)
    ensures TakenAt(Grow(h), size) + size > h.end
  {
    hide Merge, Carve;
    var g := Grow(h);
    var k, c := FirstFit(g.blocks, size), Block(h.end, CHUNK - HEADER, false);
    MergeLast(h.blocks, c);
    assert k == |g.blocks| - 1;
    LastEnds(h);
  }

  lemma LastEnds(h: HeapState)
    requires HeapOk(h)
    ensures |h.blocks| > 0 && h.blocks[|h.blocks| - 1].After() == h.end
  {
  }
}
