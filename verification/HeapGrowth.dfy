/** `kheap_expand` with the memory behind it: it maps the new chunk in one address space after the other, and each
    mapping allocates a list node from the very heap that is about to grow (memory/kheap.c, memory/physical.c). */
module HeapGrowth {
  import opened Machine
  import opened KHeapSpec
  import opened KHeapRuns
  import opened HeapUse

  /** The heap after `k` nodes have been taken without growing. */
  function Nodes(h: HeapState, k: nat): Option<HeapState>
    decreases k
  {
    if k == 0 then Some(h)
    else if HeapFits(h, NODE) then Nodes(HeapTake(h, NODE), k - 1)
    else None
  }

  lemma {:induction false} NodesEnd(h: HeapState, k: nat)
    ensures Nodes(h, k).Some? ==> Nodes(h, k).value.end == h.end
    decreases k
  {
    if k > 0 && HeapFits(h, NODE) {
      NodesEnd(HeapTake(h, NODE), k - 1);
    }
  }

  lemma NoNodes(h: HeapState)
    ensures Nodes(h, 0) == Some(h)
  {
  }

  /** One more node. */
  lemma {:induction false} NodesNext(h: HeapState, k: nat)
    ensures Nodes(h, k + 1) ==
            match Nodes(h, k)
            case None => None
            case Some(g) => if HeapFits(g, NODE) then Some(HeapTake(g, NODE)) else None
    decreases k
  {
    hide HeapFits, HeapTake;
    if k > 0 && HeapFits(h, NODE) {
      NodesNext(HeapTake(h, NODE), k - 1);
    }
  }

  lemma {:induction false} NodesPrefix(h: HeapState, j: nat, k: nat)
    requires Nodes(h, k).Some? && j <= k
    ensures Nodes(h, j).Some?
    decreases k
  {
    if j < k {
      NodesNext(h, k - 1);
      NodesPrefix(h, j, k - 1);
    }
  }

  /** The heap with one more chunk. */
  lemma Enlarged(h: HeapState)
    requires HeapOk(h) && h.end < LIMIT
    ensures HeapOk(Grow(h)) && Grow(h).end == h.end + CHUNK && h.end + CHUNK <= LIMIT && h.end % CHUNK == 0
  {
    GrowInv(h);
    GrowEnd(h);
    assert LIMIT - h.end == CHUNK * ((LIMIT - h.end) / CHUNK);
  }

  /** kmalloc as the source runs it, with physical memory at hand and `spaces` address spaces to map a chunk in,
      to a depth of `fuel` calls. */
  function Kmalloc(h: HeapState, size: int, spaces: nat, fuel: nat): Option<(HeapState, int)>
    decreases fuel, 1, 0
  {
    if fuel == 0 then None
    else if HeapFits(h, size) then Some((HeapTake(h, size), TakenAt(h, size)))
    else if h.end >= LIMIT then None
    else
      match MapChunk(h, spaces, spaces, fuel - 1)
      case None => None
      case Some(g) => Kmalloc(Grow(g), size, spaces, fuel - 1)
  }

  /** The calls of map_memory in kheap_expand, `left` of them to go. */
  function MapChunk(h: HeapState, spaces: nat, left: nat, fuel: nat): Option<HeapState>
    decreases fuel, 2, left
  {
    if left == 0 then Some(h)
    else
      match Kmalloc(h, NODE, spaces, fuel)
      case None => None
      case Some((g, p)) => MapChunk(g, spaces, left - 1, fuel)
  }

  /** Without a block for the node the recursion never comes to an end. */
  lemma {:induction false} NodeNever(h: HeapState, spaces: nat, fuel: nat)
    requires 0 < spaces && !HeapFits(h, NODE)
    ensures Kmalloc(h, NODE, spaces, fuel) == None
    decreases fuel
  {
    if fuel > 0 {
      NodeNever(h, spaces, fuel - 1);
    }
  }

  lemma {:induction false} ChunkNodes(h: HeapState, spaces: nat, left: nat, fuel: nat)
    requires 0 < spaces && MapChunk(h, spaces, left, fuel).Some?
    ensures Nodes(h, left) == MapChunk(h, spaces, left, fuel)
    decreases left
  {
    if left > 0 {
      if !HeapFits(h, NODE) {
        NodeNever(h, spaces, fuel);
      }
      ChunkNodes(HeapTake(h, NODE), spaces, left - 1, fuel);
    }
  }

  /** kmalloc comes back: the block is there, or there are nodes for a further chunk and it comes back then. */
  ghost predicate Returns(h: HeapState, size: int, spaces: nat)
    decreases LIMIT - h.end
  {
    || HeapFits(h, size)
    || (h.end < LIMIT && Nodes(h, spaces).Some? && Larger(h, spaces) && Returns(Grow(Nodes(h, spaces).value), size, spaces))
  }

  /** The heap with its nodes taken and a chunk added ends higher. */
  predicate Larger(h: HeapState, spaces: nat)
    requires Nodes(h, spaces).Some?
  {
    Grow(Nodes(h, spaces).value).end > h.end
  }

  lemma AlwaysLarger(h: HeapState, spaces: nat)
    requires Nodes(h, spaces).Some?
    ensures Larger(h, spaces)
  {
    NodesEnd(h, spaces);
    GrowEnd(Nodes(h, spaces).value);
  }

  lemma {:induction false} ReturnsOnly(h: HeapState, size: int, spaces: nat, fuel: nat)
    requires 0 < spaces && Kmalloc(h, size, spaces, fuel).Some?
    ensures Returns(h, size, spaces)
    decreases fuel
  {
    hide Grow, HeapFits, HeapTake, TakenAt;
    if !HeapFits(h, size) {
      ChunkNodes(h, spaces, spaces, fuel - 1);
      AlwaysLarger(h, spaces);
      ReturnsOnly(Grow(Nodes(h, spaces).value), size, spaces, fuel - 1);
    }
  }

  lemma {:induction false} MapsNodes(h: HeapState, spaces: nat, left: nat, fuel: nat)
    requires Nodes(h, left).Some? && 0 < fuel
    ensures MapChunk(h, spaces, left, fuel) == Nodes(h, left)
    decreases left
  {
    if left > 0 {
      MapsNodes(HeapTake(h, NODE), spaces, left - 1, fuel);
    }
  }

  lemma {:induction false} MoreFuel(h: HeapState, size: int, spaces: nat, fuel: nat)
    requires 0 < spaces && Kmalloc(h, size, spaces, fuel).Some?
    ensures Kmalloc(h, size, spaces, fuel + 1) == Kmalloc(h, size, spaces, fuel)
    decreases fuel
  {
    hide Grow, HeapFits, HeapTake, TakenAt;
    if !HeapFits(h, size) {
      ChunkNodes(h, spaces, spaces, fuel - 1);
      MapsNodes(h, spaces, spaces, fuel);
      MapsNodes(h, spaces, spaces, fuel - 1);
      MoreFuel(Grow(Nodes(h, spaces).value), size, spaces, fuel - 1);
    }
  }

  lemma {:induction false} ReturnsEnough(h: HeapState, size: int, spaces: nat) returns (fuel: nat)
    requires 0 < spaces && Returns(h, size, spaces)
    ensures Kmalloc(h, size, spaces, fuel).Some?
    decreases LIMIT - h.end
  {
    hide Grow, HeapFits, HeapTake, TakenAt;
    if HeapFits(h, size) {
      fuel := 1;
    } else {
      var g := Grow(Nodes(h, spaces).value);
      var f := ReturnsEnough(g, size, spaces);
      MoreFuel(g, size, spaces, f);
      MapsNodes(h, spaces, spaces, f + 1);
      fuel := f + 2;
    }
  }

  /** kmalloc comes back, at some depth of recursion, exactly under that condition on the heap before the call. */
  lemma ReturnsIff(h: HeapState, size: int, spaces: nat)
    requires 0 < spaces
    ensures Returns(h, size, spaces) <==> exists fuel: nat :: Kmalloc(h, size, spaces, fuel).Some?
  {
    if Returns(h, size, spaces) {
      var fuel := ReturnsEnough(h, size, spaces);
    }
    if fuel: nat :| Kmalloc(h, size, spaces, fuel).Some? {
      ReturnsOnly(h, size, spaces, fuel);
    }
  }

  /** A heap of one used block, as full as it can be: no request ever comes back, though memory is at hand. */
  lemma FullHeapHangs(size: int, spaces: nat)
    requires 0 < spaces && 0 <= size
    ensures var h := Heap([Block(START, CHUNK - HEADER, true)], START + CHUNK);
            HeapOk(h) && !Returns(h, size, spaces)
  {
    var h := Heap([Block(START, CHUNK - HEADER, true)], START + CHUNK);
    assert FirstFit(h.blocks, size) == 1 && FirstFit(h.blocks, NODE) == 1;
    assert !HeapFits(h, NODE);
  }

  // ---------------------------------------------------------------- where a block lies for which the heap grew

  lemma TakeFitsLess(h: HeapState, size: int, other: int)
    requires HeapFits(h, size) && 0 <= size && HeapFits(HeapTake(h, size), other)
    ensures HeapFits(h, other)
  {
    var k, bs := FirstFit(h.blocks, size), HeapTake(h, size).blocks;
    var i := FirstFit(bs, other);
    var j := if i < k then i else if |bs| > |h.blocks| then i - 1 else i;
    assert Fits(h.blocks[j], other);
  }

  lemma {:induction false} NodesFit(h: HeapState, k: nat, size: int)
    requires HeapOk(h) && Nodes(h, k).Some?
    ensures HeapOk(Nodes(h, k).value) && Nodes(h, k).value.end == h.end
    ensures HeapFits(Nodes(h, k).value, size) ==> HeapFits(h, size)
    decreases k
  {
    hide HeapOk, HeapFits, HeapTake;
    if k > 0 {
      TakeUsed(h, NODE);
      NodesFit(HeapTake(h, NODE), k - 1, size);
      if HeapFits(HeapTake(h, NODE), size) {
        TakeFitsLess(h, NODE, size);
      }
    }
  }

  /** A block for which the heap has to grow, list nodes and all, reaches past the old end of the heap. */
  lemma {:induction false} GrowsPastEnd(h: HeapState, size: int, spaces: nat, fuel: nat)
    requires HeapOk(h) && !HeapFits(h, size) && 0 < size && size % 4 == 0 && 0 < spaces
    requires Kmalloc(h, size, spaces, fuel).Some?
    ensures START < Kmalloc(h, size, spaces, fuel).value.1
    ensures h.end < Kmalloc(h, size, spaces, fuel).value.1 + size <= LIMIT
    decreases fuel
  {
    hide HeapFits, HeapTake, TakenAt, Merge;
    ChunkNodes(h, spaces, spaces, fuel - 1);
    var g := Nodes(h, spaces).value;
    NodesFit(h, spaces, size);
    GrowInv(g);
    if HeapFits(Grow(g), size) {
      FitsAfterGrowth(g, size);
      TakeAdds(Grow(g), size);
    } else {
      GrowsPastEnd(Grow(g), size, spaces, fuel - 1);
    }
  }
}
