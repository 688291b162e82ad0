/** The kernel heap (memory/kheap.c) as a list of blocks: first fit, splitting, coalescing, growth. */
module KHeapSpec {
  import opened Machine

  const HEADER := 8               // sizeof(block_header_t)
  const START := 0xC080_0000      // KHEAP_BASE_START
  const CHUNK := 0x40_0000        // KHEAP_BASE_SIZE, and what one expansion adds
  const LIMIT := 0xE080_0000      // FREE_KVM_START

  /** A header at `addr` followed by `size` payload bytes. */
  datatype Block = Block(addr: int, size: int, used: bool) {
    function After(): int {
      addr + HEADER + size
    }

    /** Byte `a` belongs to the payload. */
    predicate Has(a: int) {
      addr + HEADER <= a < After()
    }
  }

  predicate Aligned(x: int) {
    x % 4 == 0
  }

  lemma AlignedSums(x: int, y: int)
    requires Aligned(x) && Aligned(y)
    ensures Aligned(x + y) && Aligned(x - y) && Aligned(x + HEADER + y) && Aligned(x - y - HEADER)
  {
    var a, b := x / 4, y / 4;
    assert x == 4 * a && y == 4 * b;
    hide Aligned;
    Multiple(x + y, a + b);
    Multiple(x - y, a - b);
    Multiple(x + HEADER + y, a + b + 2);
    Multiple(x - y - HEADER, a - b - 2);
  }

  lemma Multiple(x: int, k: int)
    requires x == 4 * k
    ensures Aligned(x)
  {
  }

  /** The blocks lie end to end from `lo` to `hi`, on 4-byte boundaries. */
  ghost predicate Tiles(bs: seq<Block>, lo: int, hi: int) {
    && (|bs| == 0 ==> lo == hi)
    && (|bs| > 0 ==> bs[0].addr == lo && bs[|bs| - 1].After() == hi)
    && (forall i :: 0 <= i < |bs| ==> 0 <= bs[i].size && Aligned(bs[i].size) && Aligned(bs[i].addr))
    && (forall i :: 0 <= i < |bs| - 1 ==> bs[i].After() == bs[i + 1].addr)
  }

  /** No two adjacent blocks are free. */
  ghost predicate Coalesced(bs: seq<Block>) {
    forall i :: 0 < i < |bs| ==> bs[i - 1].used || bs[i].used
  }

  lemma {:induction false} Ordered(bs: seq<Block>, lo: int, hi: int, i: nat, j: nat)
    requires Tiles(bs, lo, hi) && i < j < |bs|
    ensures bs[i].After() <= bs[j].addr
    decreases j
  {
    if i < j - 1 {
      Ordered(bs, lo, hi, i, j - 1);
    }
  }

  lemma InRange(bs: seq<Block>, lo: int, hi: int, i: nat)
    requires Tiles(bs, lo, hi) && i < |bs|
    ensures lo <= bs[i].addr && bs[i].After() <= hi
  {
    if 0 < i {
      Ordered(bs, lo, hi, 0, i);
    }
    if i < |bs| - 1 {
      Ordered(bs, lo, hi, i, |bs| - 1);
    }
  }

  lemma TilesTail(bs: seq<Block>, lo: int, hi: int)
    requires Tiles(bs, lo, hi) && |bs| > 0
    ensures Tiles(bs[1..], bs[0].After(), hi) && (Coalesced(bs) ==> Coalesced(bs[1..]))
  {
    hide Aligned;
  }

  // ---------------------------------------------------------------- first fit and splitting

  predicate Fits(b: Block, size: int) {
    !b.used && b.size >= size
  }

  function FirstFit(bs: seq<Block>, size: int): (k: nat)
    ensures k <= |bs| && (k < |bs| ==> Fits(bs[k], size))
    ensures forall i :: 0 <= i < k ==> !Fits(bs[i], size)
  {
    FirstThat(bs, (b: Block) => Fits(b, size))
  }

  /** Block `k` becomes used; a rest of more than a header is split off as a free block. */
  function Carve(bs: seq<Block>, k: nat, size: int): (r: seq<Block>)
    requires k < |bs|
    ensures |bs| <= |r| <= |bs| + 1
  {
    var b := bs[k];
    if b.size - size > HEADER then
      bs[..k] + [Block(b.addr, size, true), Block(b.addr + HEADER + size, b.size - size - HEADER, false)] + bs[k + 1..]
    else
      bs[k := b.(used := true)]
  }

  /** The two blocks that a split leaves in place of block `k`. */
  lemma SplitTiles(bs: seq<Block>, lo: int, hi: int, k: nat, x: Block, y: Block)
    requires Tiles(bs, lo, hi) && k < |bs| && Tiles([x, y], bs[k].addr, bs[k].After())
    ensures Tiles(bs[..k] + [x, y] + bs[k + 1..], lo, hi)
  {
    var bs' := bs[..k] + [x, y] + bs[k + 1..];
    assert [x, y][0] == x && [x, y][1] == y;
    forall i | 0 <= i < |bs'|
      ensures bs'[i] == if i < k then bs[i] else if i == k then x else if i == k + 1 then y else bs[i - 1]
    {
    }
    forall i | 0 <= i < |bs'| - 1
      ensures bs'[i].After() == bs'[i + 1].addr
    {
    }
  }

  lemma SplitCoalesced(bs: seq<Block>, k: nat, x: Block, y: Block)
    requires Coalesced(bs) && k < |bs| && !bs[k].used && x.used && !y.used
    ensures Coalesced(bs[..k] + [x, y] + bs[k + 1..])
  {
    var bs' := bs[..k] + [x, y] + bs[k + 1..];
    forall i | 0 < i < |bs'|
      ensures bs'[i - 1].used || bs'[i].used
    {
      assert i > k + 2 ==> bs'[i] == bs[i - 1] && bs'[i - 1] == bs[i - 2];
    }
  }

  lemma CarveTiles(bs: seq<Block>, lo: int, hi: int, k: nat, size: int)
    requires Tiles(bs, lo, hi) && Coalesced(bs) && k < |bs| && Fits(bs[k], size) && 0 <= size && size % 4 == 0
    ensures Tiles(Carve(bs, k, size), lo, hi) && Coalesced(Carve(bs, k, size))
  {
    hide Tiles, Coalesced, Aligned;
    var b := bs[k];
    if b.size - size > HEADER {
      SplitParts(bs, lo, hi, k, size);
      var x, y := Block(b.addr, size, true), Block(b.addr + HEADER + size, b.size - size - HEADER, false);
      SplitTiles(bs, lo, hi, k, x, y);
      SplitCoalesced(bs, k, x, y);
    } else {
      TakeWhole(bs, lo, hi, k);
    }
  }

  lemma SplitParts(bs: seq<Block>, lo: int, hi: int, k: nat, size: int)
    requires Tiles(bs, lo, hi) && k < |bs| && 0 <= size && size % 4 == 0 && bs[k].size - size > HEADER
    ensures var b := bs[k];
            Tiles([Block(b.addr, size, true), Block(b.addr + HEADER + size, b.size - size - HEADER, false)],
                  b.addr, b.After())
  {
    var b := bs[k];
    assert Aligned(b.size) && Aligned(b.addr) && Aligned(size) && 0 <= b.size;
    hide Aligned;
    AlignedSums(b.addr, size);
    AlignedSums(b.size, size);
  }

  lemma TakeWhole(bs: seq<Block>, lo: int, hi: int, k: nat)
    requires Tiles(bs, lo, hi) && Coalesced(bs) && k < |bs|
    ensures Tiles(bs[k := bs[k].(used := true)], lo, hi) && Coalesced(bs[k := bs[k].(used := true)])
  {
    hide Aligned;
    var bs' := bs[k := bs[k].(used := true)];
    assert forall i :: 0 <= i < |bs| ==> bs'[i].addr == bs[i].addr && bs'[i].size == bs[i].size;
  }

  /** Carving keeps every used block and adds exactly one. */
  lemma CarveUsed(bs: seq<Block>, lo: int, hi: int, k: nat, size: int, b: Block)
    requires Tiles(bs, lo, hi) && k < |bs| && Fits(bs[k], size) && b.used
    ensures b in Carve(bs, k, size) <==> b in bs || b == Carve(bs, k, size)[k]
    ensures Carve(bs, k, size)[k].addr == bs[k].addr && Carve(bs, k, size)[k].used && Carve(bs, k, size)[k].size >= size
  {
    var bs' := Carve(bs, k, size);
    if b in bs {
      var i :| 0 <= i < |bs| && bs[i] == b;
      assert bs'[if i < k then i else |bs'| - |bs| + i] == b;
    }
    if b in bs' {
      var i :| 0 <= i < |bs'| && bs'[i] == b;
      assert i == k || b in bs;
    }
  }

  // ---------------------------------------------------------------- coalescing

  /** What `merge_free_blocks` leaves: each run of free blocks has become one. */
  function Merge(bs: seq<Block>): seq<Block>
    decreases |bs|
  {
    if |bs| <= 1 then bs
    else if !bs[0].used && !bs[1].used then
      Merge([Block(bs[0].addr, bs[0].size + HEADER + bs[1].size, false)] + bs[2..])
    else [bs[0]] + Merge(bs[1..])
  }

  lemma {:induction false} MergeTiles(bs: seq<Block>, lo: int, hi: int)
    requires Tiles(bs, lo, hi)
    ensures Tiles(Merge(bs), lo, hi) && Coalesced(Merge(bs))
    ensures |bs| > 0 ==> |Merge(bs)| > 0 && (bs[0].used ==> Merge(bs)[0] == bs[0]) && (!bs[0].used ==> !Merge(bs)[0].used)
    decreases |bs|
  {
    hide Aligned;
    if |bs| > 1 {
      if !bs[0].used && !bs[1].used {
        hide Tiles;
        JoinFirst(bs, lo, hi);
        MergeTiles([Block(bs[0].addr, bs[0].size + HEADER + bs[1].size, false)] + bs[2..], lo, hi);
      } else {
        hide Tiles, Coalesced;
        TilesTail(bs, lo, hi);
        MergeTiles(bs[1..], bs[0].After(), hi);
        var m := Merge(bs[1..]);
        PutFirst(bs, m, lo, hi);
      }
    }
  }

  /** Two neighbours taken as one block. */
  lemma JoinFirst(bs: seq<Block>, lo: int, hi: int)
    requires Tiles(bs, lo, hi) && |bs| > 1
    ensures Tiles([Block(bs[0].addr, bs[0].size + HEADER + bs[1].size, false)] + bs[2..], lo, hi)
  {
    hide Aligned;
    AlignedSums(bs[0].size, bs[1].size);
  }

  lemma PutFirst(bs: seq<Block>, m: seq<Block>, lo: int, hi: int)
    requires Tiles(bs, lo, hi) && |bs| > 0 && |m| > 0 && Tiles(m, bs[0].After(), hi)
    requires Coalesced(m) && (bs[0].used || m[0].used)
    ensures Tiles([bs[0]] + m, lo, hi) && Coalesced([bs[0]] + m)
  {
    hide Aligned;
    var r := [bs[0]] + m;
    assert forall i :: 0 < i < |r| ==> r[i] == m[i - 1];
  }

  lemma {:induction false} MergeUsed(bs: seq<Block>, b: Block)
    requires b.used
    ensures b in Merge(bs) <==> b in bs
    decreases |bs|
  {
    if |bs| > 1 {
      if !bs[0].used && !bs[1].used {
        var c := [Block(bs[0].addr, bs[0].size + HEADER + bs[1].size, false)] + bs[2..];
        MergeUsed(c, b);
        assert bs == [bs[0], bs[1]] + bs[2..];
      } else {
        MergeUsed(bs[1..], b);
        assert bs == [bs[0]] + bs[1..];
      }
    }
  }

  ghost predicate SameUsed(bs: seq<Block>, cs: seq<Block>) {
    forall b :: b in bs && b.used <==> b in cs && b.used
  }

  /** A used block that starts where the list starts is the first block. */
  lemma AtStart(bs: seq<Block>, lo: int, hi: int, b: Block)
    requires Tiles(bs, lo, hi) && b in bs
    ensures lo <= b.addr && b.After() <= hi && (b.addr == lo ==> b == bs[0]) && (b != bs[0] ==> bs[0].After() <= b.addr)
  {
    var i :| 0 <= i < |bs| && bs[i] == b;
    InRange(bs, lo, hi, i);
    if 0 < i {
      Ordered(bs, lo, hi, 0, i);
    }
  }

  lemma SameHead(bs: seq<Block>, cs: seq<Block>, lo: int, hi: int)
    requires Tiles(bs, lo, hi) && Tiles(cs, lo, hi) && Coalesced(bs) && Coalesced(cs) && SameUsed(bs, cs)
    requires |bs| > 0 && |cs| > 0
    ensures bs[0].used == cs[0].used && bs[0].After() <= cs[0].After()
  {
    if bs[0].used {
      AtStart(cs, lo, hi, bs[0]);
    } else if cs[0].used {
      AtStart(bs, lo, hi, cs[0]);
    } else if |cs| > 1 {
      assert cs[1].used && cs[1] in bs;
      AtStart(bs, lo, hi, cs[1]);
    } else {
      AtStart(bs, lo, hi, bs[0]);
    }
  }

  /** History does not matter: the used blocks and the end of the heap determine every block. */
  lemma {:induction false} Canonical(bs: seq<Block>, cs: seq<Block>, lo: int, hi: int)
    requires Tiles(bs, lo, hi) && Tiles(cs, lo, hi) && Coalesced(bs) && Coalesced(cs) && SameUsed(bs, cs)
    ensures bs == cs
    decreases |bs|
  {
    if |bs| == 0 {
      if |cs| > 0 {
        AtStart(cs, lo, hi, cs[0]);
      }
    } else if |cs| == 0 {
      AtStart(bs, lo, hi, bs[0]);
    } else {
      hide Tiles, Coalesced, SameUsed, Aligned;
      SameHead(bs, cs, lo, hi);
      SameHead(cs, bs, lo, hi);
      TilesTail(bs, lo, hi);
      TilesTail(cs, lo, hi);
      SameTail(bs, cs, lo, hi);
      Canonical(bs[1..], cs[1..], bs[0].After(), hi);
      assert bs == [bs[0]] + bs[1..] && cs == [cs[0]] + cs[1..];
    }
  }

  lemma SameTail(bs: seq<Block>, cs: seq<Block>, lo: int, hi: int)
    requires Tiles(bs, lo, hi) && Tiles(cs, lo, hi) && SameUsed(bs, cs) && |bs| > 0 && |cs| > 0 && bs[0] == cs[0]
    ensures SameUsed(bs[1..], cs[1..])
  {
    hide Tiles;
    forall b: Block
      ensures b in bs[1..] && b.used <==> b in cs[1..] && b.used
    {
      TailMember(bs, lo, hi, b);
      TailMember(cs, lo, hi, b);
    }
  }

  lemma TailMember(bs: seq<Block>, lo: int, hi: int, b: Block)
    requires Tiles(bs, lo, hi) && |bs| > 0
    ensures b in bs[1..] <==> b in bs && b != bs[0]
  {
    if b in bs[1..] {
      TilesTail(bs, lo, hi);
      AtStart(bs[1..], bs[0].After(), hi, b);
    }
    assert bs == [bs[0]] + bs[1..];
  }
}
