/** The kernel heap in memory: headers inside the managed words, walked and rewritten in place. */
module KHeap {
  import opened Machine
  import opened KHeapSpec
  import opened KHeapRuns

  const MAGIC := 0xB1

  /** The mapped words of the kernel, by address. */
  type Memory = map<int, Word>

  /** The second word of a header: magic below, status above. */
  function Mark(used: bool): Word {
    if used then 0x1_0000 + MAGIC else MAGIC
  }

  ghost predicate Encoded(mem: Memory, b: Block) {
    && b.addr in mem && mem[b.addr] == b.size
    && b.addr + 4 in mem && mem[b.addr + 4] == Mark(b.used)
  }

  ghost predicate AllEncoded(mem: Memory, bs: seq<Block>) {
    forall i :: 0 <= i < |bs| ==> Encoded(mem, bs[i])
  }

  /** The words of `m` in [lo, hi). */
  function Window(m: Memory, lo: int, hi: int): Memory {
    map a | a in m && lo <= a < hi :: m[a]
  }

  ghost predicate Mapped(mem: Memory, end: int) {
    forall a :: START <= a < end && a % 4 == 0 ==> a in mem
  }

  ghost predicate SameWord(mem: Memory, mem': Memory, a: int) {
    (a in mem <==> a in mem') && (a in mem ==> mem'[a] == mem[a])
  }

  /** Only words in [lo, hi) may differ. */
  ghost predicate DiffersIn(mem: Memory, mem': Memory, lo: int, hi: int) {
    forall a :: !(lo <= a < hi) ==> SameWord(mem, mem', a)
  }

  /** The payload of `b` is untouched. */
  ghost predicate KeptBlock(mem: Memory, mem': Memory, b: Block) {
    forall a :: b.addr + HEADER <= a < b.After() ==> SameWord(mem, mem', a)
  }

  ghost predicate LiveKept(bs: seq<Block>, mem: Memory, mem': Memory) {
    forall b :: b in bs && b.used ==> KeptBlock(mem, mem', b)
  }

  /** Blocks in use before and after keep their payload. */
  ghost predicate SurvivorsKept(bs: seq<Block>, mem: Memory, bs': seq<Block>, mem': Memory) {
    forall b :: b in bs && b in bs' && b.used ==> KeptBlock(mem, mem', b)
  }

  /** Writing inside block `k` leaves the headers and payloads of the other blocks alone. */
  lemma WriteKeeps(mem: Memory, mem': Memory, bs: seq<Block>, lo: int, hi: int, k: nat, i: nat)
    requires Tiles(bs, lo, hi) && k < |bs| && i < |bs| && i != k
    requires DiffersIn(mem, mem', bs[k].addr, bs[k].After())
    ensures Encoded(mem, bs[i]) ==> Encoded(mem', bs[i])
    ensures KeptBlock(mem, mem', bs[i])
  {
    if i < k {
      Ordered(bs, lo, hi, i, k);
    } else {
      Ordered(bs, lo, hi, k, i);
    }
    assert SameWord(mem, mem', bs[i].addr) && SameWord(mem, mem', bs[i].addr + 4);
  }

  /** Block `k` is replaced by the blocks `new`, encoded by writes inside it. */
  lemma ReplaceBlock(mem: Memory, mem': Memory, bs: seq<Block>, lo: int, hi: int, k: nat, new_: seq<Block>)
    requires Tiles(bs, lo, hi) && k < |bs| && AllEncoded(mem, bs) && AllEncoded(mem', new_)
    requires DiffersIn(mem, mem', bs[k].addr, bs[k].After())
    ensures AllEncoded(mem', bs[..k] + new_ + bs[k + 1..])
    ensures !bs[k].used ==> LiveKept(bs, mem, mem')
  {
    var bs' := bs[..k] + new_ + bs[k + 1..];
    forall i | 0 <= i < |bs'|
      ensures Encoded(mem', bs'[i])
    {
      if i < k {
        WriteKeeps(mem, mem', bs, lo, hi, k, i);
      } else if i < k + |new_| {
        assert bs'[i] == new_[i - k];
      } else {
        var i' := i - |new_| + 1;
        assert bs'[i] == bs[i'];
        WriteKeeps(mem, mem', bs, lo, hi, k, i');
      }
    }
    forall b | b in bs && b.used && !bs[k].used
      ensures KeptBlock(mem, mem', b)
    {
      var i :| 0 <= i < |bs| && bs[i] == b;
      WriteKeeps(mem, mem', bs, lo, hi, k, i);
    }
  }

  lemma LiveSurvive(bs: seq<Block>, mem: Memory, bs': seq<Block>, mem': Memory)
    requires LiveKept(bs, mem, mem') || LiveKept(bs', mem, mem')
    ensures SurvivorsKept(bs, mem, bs', mem')
  {
  }

  lemma KeptTrans(bs: seq<Block>, cs: seq<Block>, m0: Memory, m1: Memory, m2: Memory)
    requires LiveKept(bs, m0, m1) && LiveKept(cs, m1, m2) && SameUsed(bs, cs)
    ensures LiveKept(bs, m0, m2)
  {
    forall b | b in bs && b.used
      ensures KeptBlock(m0, m2, b)
    {
      assert b in cs;
      forall a | b.addr + HEADER <= a < b.After()
        ensures SameWord(m0, m2, a)
      {
        assert SameWord(m0, m1, a) && SameWord(m1, m2, a);
      }
    }
  }

  // ---------------------------------------------------------------- merging step by step

  /** Blocks `d` and `d + 1` joined. */
  function Join(bs: seq<Block>, d: nat): seq<Block>
    requires d + 1 < |bs|
  {
    bs[..d] + [Block(bs[d].addr, bs[d].size + HEADER + bs[d + 1].size, false)] + bs[d + 2..]
  }

  lemma JoinTiles(bs: seq<Block>, lo: int, hi: int, d: nat)
    requires Tiles(bs, lo, hi) && d + 1 < |bs|
    ensures Tiles(Join(bs, d), lo, hi)
  {
    hide Aligned;
    AlignedSums(bs[d].size, bs[d + 1].size);
    var bs' := Join(bs, d);
    forall i | 0 <= i < |bs'|
      ensures bs'[i] == if i < d then bs[i] else if i == d then bs'[d] else bs[i + 1]
    {
    }
  }

  lemma JoinMerges(bs: seq<Block>, d: nat)
    requires d + 1 < |bs| && !bs[d].used && !bs[d + 1].used
    ensures Merge(bs[d..]) == Merge(Join(bs, d)[d..]) && Join(bs, d)[..d] == bs[..d]
    ensures SameUsed(bs, Join(bs, d))
  {
    var c := Block(bs[d].addr, bs[d].size + HEADER + bs[d + 1].size, false);
    assert bs[d..][2..] == bs[d + 2..];
    assert Join(bs, d)[d..] == [c] + bs[d + 2..];
    assert bs == bs[..d] + [bs[d], bs[d + 1]] + bs[d + 2..];
  }

  lemma PassMerges(bs: seq<Block>, d: nat)
    requires d < |bs| && (bs[d].used || d + 1 == |bs| || bs[d + 1].used)
    ensures bs[..d] + Merge(bs[d..]) == bs[..d + 1] + Merge(bs[d + 1..])
  {
    assert bs[d..][1..] == bs[d + 1..];
  }

  // ---------------------------------------------------------------- the heap

  class KernelHeap {
    const backing: Memory     // what each word of the heap range holds when it is first mapped
    var mem: Memory
    var end: int              // KHEAP_BASE_END
    ghost var blocks: seq<Block>

    ghost function H(): Heap
      reads this
    {
      Heap(blocks, end)
    }

    /** The headers found from KHEAP_BASE_START on are exactly `blocks`. */
    ghost predicate Laid()
      reads this
    {
      && Tiles(blocks, START, end) && AllEncoded(mem, blocks) && Mapped(mem, end) && START < end <= LIMIT
      && Mapped(backing, LIMIT)
    }

    ghost predicate Valid()
      reads this
    {
      Inv(H()) && Laid()
    }

    /** `kheap_install`, over memory with any contents. */
    constructor (m: Memory)
      requires Mapped(m, LIMIT)
      ensures Valid() && H() == INITIAL
    {
      end := START + CHUNK;
      backing := m;
      mem := Window(m, START, START + CHUNK)[START := CHUNK - HEADER][START + 4 := Mark(false)];
      blocks := INITIAL.blocks;
    }

    function SizeAt(a: int): Word
      requires a in mem
      reads this
    {
      mem[a]
    }

    function StatusAt(a: int): int
      requires a + 4 in mem
      reads this
    {
      mem[a + 4] / 0x1_0000
    }

    function MagicAt(a: int): int
      requires a + 4 in mem
      reads this
    {
      mem[a + 4] % 0x1_0000
    }

    /** The blocks before `d` are final, and nothing live has been touched since `bs` and `m`. */
    ghost predicate Merging(bs: seq<Block>, m: Memory, d: nat)
      reads this
    {
      && Laid() && d <= |blocks|
      && blocks[..d] + Merge(blocks[d..]) == Merge(bs)
      && SameUsed(bs, blocks) && LiveKept(bs, m, mem)
    }

    /** One round of the inner loop of `merge_free_blocks`: the block at `cur` takes in the free block at `next`. */
    method Absorb(cur: int, next: int, ghost d: nat, ghost bs: seq<Block>, ghost m: Memory) returns (after: int)
      requires Merging(bs, m, d) && d + 1 < |blocks| && cur == blocks[d].addr && next == blocks[d + 1].addr
      requires !blocks[d].used && !blocks[d + 1].used
      modifies this`mem, this`blocks
      ensures Merging(bs, m, d) && |blocks| == old(|blocks|) - 1 && cur == blocks[d].addr && !blocks[d].used
      ensures after == blocks[d].After()
    {
      hide Tiles, AllEncoded, Mapped, KeptBlock, SameUsed, Merge;
      NextAt(mem, blocks, end, d);
      NextAt(mem, blocks, end, d + 1);
      assert MagicAt(next) == MAGIC;
      JoinMemory(mem, blocks, end, d);
      JoinMerges(blocks, d);
      ghost var m1, b1 := mem, blocks;
      mem := mem[cur := SizeAt(cur) + SizeAt(next) + HEADER];
      blocks := Join(blocks, d);
      KeptTrans(bs, b1, m, m1, mem);
      UsedTrans(bs, b1, blocks);
      after := next + SizeAt(next) + HEADER;
    }

    /** `merge_free_blocks`. */
    method MergeFreeBlocks()
      requires Laid()
      modifies this`mem, this`blocks
      ensures Laid() && blocks == Merge(old(blocks)) && LiveKept(old(blocks), old(mem), mem)
    {
      hide Tiles, AllEncoded, Mapped, LiveKept, SameUsed, Merge;
      var cur := START;
      ghost var d := 0;
      assert blocks == blocks[0..] && blocks[..0] + Merge(blocks) == Merge(blocks);
      FirstAt(blocks, end);
      StartKept(blocks, mem);
      while cur < end
        invariant Merging(old(blocks), old(mem), d)
        invariant if d < |blocks| then cur == blocks[d].addr else cur == end
        decreases |blocks| - d
      {
        NextAt(mem, blocks, end, d);
        assert MagicAt(cur) == MAGIC;
        if StatusAt(cur) == 0 {
          var next := cur + SizeAt(cur) + HEADER;
          if next >= end {
            break;
          }
          NextAt(mem, blocks, end, d + 1);
          while StatusAt(next) == 0
            invariant Merging(old(blocks), old(mem), d)
            invariant d + 1 < |blocks| && cur == blocks[d].addr && next == blocks[d + 1].addr && !blocks[d].used
            invariant Encoded(mem, blocks[d]) && Encoded(mem, blocks[d + 1])
            invariant |blocks| - d <= old(|blocks|)
            decreases |blocks|
          {
            next := Absorb(cur, next, d, old(blocks), old(mem));
            NextAt(mem, blocks, end, d);
            if next >= end {
              break;
            }
            NextAt(mem, blocks, end, d + 1);
          }
          if next >= end {
            break;
          }
        }
        PassMerges(blocks, d);
        NextAt(mem, blocks, end, d);
        cur, d := cur + SizeAt(cur) + HEADER, d + 1;
      }
      if d < |blocks| {
        NextAt(mem, blocks, end, d);
        PassMerges(blocks, d);
        assert blocks[..d + 1] == blocks;
        MergeNone();
        assert blocks[d + 1..] == [];
      } else {
        assert blocks[..d] == blocks && blocks[d..] == [];
        MergeNone();
      }
    }

    /** `kheap_expand`. False is the fatal exit. */
    method Expand() returns (ok: bool)
      requires Valid()
      modifies this`mem, this`blocks, this`end
      ensures Valid() && ok == (old(end) < LIMIT)
      ensures ok ==> H() == Grow(old(H()))
      ensures !ok ==> H() == old(H()) && mem == old(mem)
      ensures LiveKept(old(blocks), old(mem), mem)
    {
      hide Tiles, AllEncoded, Mapped, Merge, SameUsed, LiveKept;
      StartKept(blocks, mem);
      if end >= LIMIT {
        return false;
      }
      ghost var b := Block(end, CHUNK - HEADER, false);
      ChunkMemory(mem, backing, blocks, end);
      mem := mem + Window(backing, end, end + CHUNK);
      mem := mem[end := CHUNK - HEADER][end + 4 := Mark(false)];
      GrowInv(H());
      blocks := blocks + [b];
      end := end + CHUNK;
      ghost var m1, b1 := mem, blocks;
      MergeFreeBlocks();
      KeptTrans(old(blocks), b1, old(mem), m1, mem);
      ok := true;
    }

    /** The tail of `kmalloc`: the free block at `i` is taken, and split when it is big. */
    method Take(i: int, size: Word, ghost k: nat) returns (p: int)
      requires Valid() && k < |blocks| && i == blocks[k].addr && Fits(blocks[k], size) && size % 4 == 0
      modifies this`mem, this`blocks
      ensures Valid() && H() == old(H()).(blocks := Carve(old(blocks), k, size)) && p == i + HEADER
      ensures LiveKept(old(blocks), old(mem), mem)
    {
      hide Tiles, Coalesced, AllEncoded, Mapped, LiveKept, Carve;
      NextAt(mem, blocks, end, k);
      CarveTiles(blocks, START, end, k, size);
      var oldSize := SizeAt(i);
      if oldSize - size <= HEADER {
        TakeMemory(mem, blocks, end, k, size);
      } else {
        SplitMemory(mem, blocks, end, k, size);
        mem := mem[i := size];
        var newblock := i + HEADER + SizeAt(i);
        mem := mem[newblock + 4 := MAGIC];
        mem := mem[newblock := oldSize - size - HEADER];
      }
      mem := mem[i + 4 := MagicAt(i) + 0x1_0000];
      blocks := Carve(blocks, k, size);
      p := i + HEADER;
    }

    /** `kmalloc`. None: the kernel heap is full, the fatal exit. */
    method Kmalloc(size: Word) returns (r: Option<int>)
      requires Valid()
      modifies this`mem, this`blocks, this`end
      ensures Valid()
      ensures match Malloc(old(H()), AlignUp(size, 4))
              case None => r == None
              case Some((h, p)) => r == Some(p) && H() == h
      ensures LiveKept(old(blocks), old(mem), mem) && SurvivorsKept(old(blocks), old(mem), blocks, mem)
      decreases LIMIT - end
    {
      hide Tiles, Coalesced, AllEncoded, Mapped, LiveKept, SurvivorsKept, Carve, Merge, SameUsed;
      var sz := AlignUp(size, 4);
      RoundingCovers(size);
      StartKept(blocks, mem);
      FirstAt(blocks, end);
      var i := START;
      ghost var k := 0;
      while i < end
        invariant mem == old(mem) && blocks == old(blocks) && end == old(end)
        invariant 0 <= k <= |blocks| && (if k < |blocks| then i == blocks[k].addr else i == end)
        invariant forall j :: 0 <= j < k ==> !Fits(blocks[j], sz)
        decreases |blocks| - k
      {
        NextAt(mem, blocks, end, k);
        assert MagicAt(i) == MAGIC;
        if StatusAt(i) == 0 && SizeAt(i) >= sz {
          var p := Take(i, sz, k);
          LiveSurvive(old(blocks), old(mem), blocks, mem);
          return Some(p);
        }
        i, k := i + SizeAt(i) + HEADER, k + 1;
      }
      if k < |blocks| {
        NextAt(mem, blocks, end, k);
      }
      var ok := Expand();
      LiveSurvive(old(blocks), old(mem), blocks, mem);
      if !ok {
        return None;
      }
      GrowInv(old(H()));
      ghost var m1, b1 := mem, blocks;
      r := Kmalloc(sz);
      KeptTrans(old(blocks), b1, old(mem), m1, mem);
      LiveSurvive(old(blocks), old(mem), blocks, mem);
    }

    /** `kfree` of a live pointer. */
    method Kfree(p: int)
      requires Valid() && Live(blocks, p)
      modifies this`mem, this`blocks
      ensures Valid() && H() == Free(old(H()), p)
      ensures LiveKept(blocks, old(mem), mem) && SurvivorsKept(old(blocks), old(mem), blocks, mem)
    {
      hide Tiles, Coalesced, AllEncoded, Mapped, LiveKept, Merge;
      ghost var k := Find(blocks, p);
      NextAt(mem, blocks, end, k);
      FreeInv(H(), p);
      var a := p - HEADER;
      assert MagicAt(a) == MAGIC;
      MarkMemory(mem, blocks, end, k, false);
      MarkTiles(blocks, end, k, false);
      mem := mem[a + 4 := MagicAt(a)];
      blocks := blocks[k := blocks[k].(used := false)];
      ghost var m1, b1 := mem, blocks;
      MergeFreeBlocks();
      FreedKept(old(blocks), k, b1, blocks, old(mem), m1, mem);
      LiveSurvive(old(blocks), old(mem), blocks, mem);
    }

    /** `memcpy` of whole words. */
    method CopyWords(dst: int, src: int, n: int)
      requires dst % 4 == 0 && src % 4 == 0 && 0 <= n && n % 4 == 0
      requires dst + n <= src || src + n <= dst
      requires forall a :: 0 <= a < n && a % 4 == 0 ==> src + a in mem && dst + a in mem
      modifies this`mem
      ensures DiffersIn(old(mem), mem, dst, dst + n) && mem.Keys == old(mem.Keys)
      ensures forall a :: 0 <= a < n && a % 4 == 0 ==> mem[dst + a] == old(mem)[src + a]
    {
      var c := 0;
      while c < n
        invariant 0 <= c <= n && c % 4 == 0 && mem.Keys == old(mem.Keys)
        invariant DiffersIn(old(mem), mem, dst, dst + n)
        invariant forall a :: 0 <= a < c && a % 4 == 0 ==> mem[dst + a] == old(mem)[src + a]
      {
        assert SameWord(old(mem), mem, src + c);
        ghost var m1 := mem;
        mem := mem[dst + c := mem[src + c]];
        forall a | !(dst <= a < dst + n)
          ensures SameWord(old(mem), mem, a)
        {
          assert SameWord(old(mem), m1, a);
        }
        c := c + 4;
      }
    }

    /** `krealloc` of a live pointer. None is one of the fatal exits. */
    method Krealloc(p: int, newsize: Word) returns (r: Option<int>)
      requires Valid() && Live(blocks, p) && CopyFits(H(), p, newsize)
      modifies this`mem, this`blocks, this`end
      ensures Valid()
      ensures BlockOf(old(blocks), p).size > newsize ==> r == None
      ensures BlockOf(old(blocks), p).size <= newsize ==>
                match Malloc(old(H()), AlignUp(newsize, 4))
                case None => r == None
                case Some((h, q)) => r == Some(q) && Live(h.blocks, p) && H() == Free(h, p)
      ensures r.Some? ==> forall a :: 0 <= a < BlockOf(old(blocks), p).size && a % 4 == 0 ==>
                            p + a in old(mem) && r.value + a in mem && mem[r.value + a] == old(mem)[p + a]
      ensures r.Some? ==> forall b :: b in old(blocks) && b.used && b != BlockOf(old(blocks), p) ==>
                            KeptBlock(old(mem), mem, b)
      ensures r.Some? ==> SurvivorsKept(old(blocks), old(mem), blocks, mem)
    {
      hide Tiles, Coalesced, AllEncoded, Mapped, LiveKept, Merge, KeptBlock, Malloc, CopyFits;
      ghost var m0 := mem;
      NextAt(mem, blocks, end, Find(blocks, p));
      var size := SizeAt(p - HEADER);
      if size > newsize {
        return None;
      }
      RoundingCovers(newsize);
      MallocInv(H(), AlignUp(newsize, 4));
      if Malloc(H(), AlignUp(newsize, 4)).Some? {
        CopyFitsIff(H(), p, newsize);
      }
      r := Kmalloc(newsize);
      if r.None? {
        return;
      }
      var q := r.value;
      ghost var h1, m1 := H(), mem;
      ReallocRoom(old(H()), H(), m0, m1, p, q, AlignUp(newsize, 4));
      CopyWords(q, p, SizeAt(p - HEADER));
      ghost var m2 := mem;
      PayloadWrite(m1, m2, blocks, end, Find(blocks, q), size);
      Kfree(p);
      ReallocKept(old(H()), h1, p, q, AlignUp(newsize, 4), m0, m1, m2, mem);
      FreeInv(h1, p);
      LiveInside(h1.blocks, h1.end, q);
      forall a | 0 <= a < size && a % 4 == 0
        ensures p + a in m0 && q + a in mem && mem[q + a] == m0[p + a]
      {
        assert SameWord(m0, m1, p + a) && SameWord(m2, mem, q + a);
      }
    }
  }

  // ---------------------------------------------------------------- whole runs

  /** Every word an owner has stored is in memory. */
  ghost predicate Remembers(mem: Memory, stored: map<int, Word>) {
    forall a :: a in stored ==> a in mem && mem[a] == stored[a]
  }

  /** Stored words whose blocks are kept are still there. */
  lemma KeptRemembers(bs: seq<Block>, mem: Memory, mem': Memory, stored: map<int, Word>)
    requires Remembers(mem, stored) && AllOwned(bs, stored) && LiveKept(bs, mem, mem')
    ensures Remembers(mem', stored)
  {
    forall a | a in stored
      ensures a in mem' && mem'[a] == stored[a]
    {
      assert Owned(bs, a);
      var b :| b in bs && b.used && b.Has(a);
      assert KeptBlock(mem, mem', b) && SameWord(mem, mem', a);
    }
  }

  lemma ForgetRemembers(mem: Memory, stored: map<int, Word>, b: Block)
    requires Remembers(mem, stored)
    ensures Remembers(mem, Forget(stored, b))
  {
  }

  lemma MovedRemembers(bs: seq<Block>, b: Block, q: int, mem: Memory, mem': Memory, stored: map<int, Word>)
    requires Remembers(mem, stored) && AllOwned(bs, stored) && (b.addr + HEADER) % 4 == 0
    requires forall c :: c in bs && c.used && c != b ==> KeptBlock(mem, mem', c)
    requires forall a :: 0 <= a < b.size && a % 4 == 0 ==>
               b.addr + HEADER + a in mem && q + a in mem' && mem'[q + a] == mem[b.addr + HEADER + a]
    ensures Remembers(mem', Moved(stored, b, q))
  {
    var p := b.addr + HEADER;
    forall a | a in Moved(stored, b, q)
      ensures a in mem' && mem'[a] == Moved(stored, b, q)[a]
    {
      if q <= a < q + b.size && From(b, q, a) in stored {
        assert Owned(bs, From(b, q, a));
        var d := a - q;
        Offset(p, d);
        assert mem'[q + d] == mem[p + d];
      } else {
        assert Owned(bs, a);
        var c :| c in bs && c.used && c.Has(a);
        assert KeptBlock(mem, mem', c) && SameWord(mem, mem', a);
      }
    }
  }

  lemma Offset(p: int, d: int)
    requires p % 4 == 0 && (p + d) % 4 == 0
    ensures d % 4 == 0
  {
  }

  /** A store into block `k` touches no header and no other payload. */
  lemma StoreInside(mem: Memory, bs: seq<Block>, end: int, p: int, off: nat, w: Word)
    requires Tiles(bs, START, end) && AllEncoded(mem, bs) && Mapped(mem, end)
    requires Live(bs, p) && off % 4 == 0 && off + 4 <= BlockOf(bs, p).size
    ensures p + off in mem && AllEncoded(mem[p + off := w], bs) && Mapped(mem[p + off := w], end)
  {
    hide Tiles, AllEncoded;
    LiveInside(bs, end, p);
    LiveAligned(bs, end, p);
    BothAligned(p, off);
    PayloadWrite(mem, mem[p + off := w], bs, end, Find(bs, p), off + 4);
  }

  /** One call or store. False: the kernel halts, as the run says. */
  method Do(heap: KernelHeap, op: Op, ghost r: Run) returns (ok: bool)
    requires heap.Valid() && Good(r) && heap.H() == r.heap && Remembers(heap.mem, r.stored) && Legal(r, op)
    modifies heap
    ensures ok == Step(r, op).Some?
    ensures ok ==> heap.Valid() && heap.H() == Step(r, op).value.heap && Remembers(heap.mem, Step(r, op).value.stored)
  {
    hide Tiles, Coalesced, AllEncoded, Mapped, LiveKept, Malloc, Free, CopyFits, Good, Remembers, Moved, Forget, Inv,
         KeptBlock, SurvivorsKept;
    ghost var m0 := heap.mem;
    GoodOwned(r);
    if Step(r, op).Some? {
      StepGood(r, op);
      GoodOwned(Step(r, op).value);
    }
    match op {
      case OpMalloc(size) =>
        var p := heap.Kmalloc(size);
        ok := p.Some?;
        KeptRemembers(r.heap.blocks, m0, heap.mem, r.stored);
      case OpFree(p) =>
        heap.Kfree(p);
        ok := true;
        ForgetRemembers(m0, r.stored, BlockOf(r.heap.blocks, p));
        KeptRemembers(heap.blocks, m0, heap.mem, Step(r, op).value.stored);
      case OpRealloc(p, size) =>
        LiveAligned(heap.blocks, heap.end, p);
        var q := heap.Krealloc(p, size);
        ok := q.Some?;
        if ok {
          MovedRemembers(r.heap.blocks, BlockOf(r.heap.blocks, p), q.value, m0, heap.mem, r.stored);
        }
      case OpStore(p, off, w) =>
        StoreInside(heap.mem, heap.blocks, heap.end, p, off, w);
        heap.mem := heap.mem[p + off := w];
        ok := true;
        StoreRemembers(m0, r.stored, p + off, w);
    }
  }

  lemma GoodOwned(r: Run)
    requires Good(r)
    ensures AllOwned(r.heap.blocks, r.stored)
  {
  }

  lemma StoreRemembers(mem: Memory, stored: map<int, Word>, a: int, w: Word)
    requires Remembers(mem, stored)
    ensures Remembers(mem[a := w], stored[a := w])
  {
  }

  /** The calls made while the kernel runs are legal. */
  ghost predicate LegalRun(ops: seq<Op>) {
    forall k :: 0 <= k < |ops| && Perform(ops[..k]).Some? ==> Legal(Perform(ops[..k]).value, ops[k])
  }

  /** Every run of calls and stores on the heap in memory: the headers are those of the run, and every
      word reads as its owner last stored it, through whatever else was allocated, freed, merged or moved. */
  method Execute(m: Memory, ops: seq<Op>) returns (heap: KernelHeap, ok: bool)
    requires Mapped(m, LIMIT) && LegalRun(ops)
    ensures ok == Perform(ops).Some?
    ensures ok ==> heap.Valid() && heap.H() == Perform(ops).value.heap && Remembers(heap.mem, Perform(ops).value.stored)
  {
    hide Good, Step, Legal, Inv, Mapped;
    heap := new KernelHeap(m);
    ok := true;
    assert ops[..0] == [];
    for k := 0 to |ops|
      invariant fresh(heap) && ok && Perform(ops[..k]).Some?
      invariant heap.Valid() && heap.H() == Perform(ops[..k]).value.heap
      invariant Remembers(heap.mem, Perform(ops[..k]).value.stored)
    {
      RunsAreGood(ops[..k]);
      PerformNext(ops, k);
      ok := Do(heap, ops[k], Perform(ops[..k]).value);
      if !ok {
        HaltedStays(ops, k + 1);
        return;
      }
    }
    assert ops[..|ops|] == ops;
  }

  lemma PerformNext(ops: seq<Op>, k: nat)
    requires k < |ops|
    ensures Perform(ops[..k + 1]) == if Perform(ops[..k]).Some? then Step(Perform(ops[..k]).value, ops[k]) else None
  {
    assert ops[..k + 1][..k] == ops[..k];
  }

  lemma {:induction false} HaltedStays(ops: seq<Op>, k: nat)
    requires k <= |ops| && Perform(ops[..k]) == None
    ensures Perform(ops) == None
    decreases |ops| - k
  {
    if k < |ops| {
      PerformNext(ops, k);
      HaltedStays(ops, k + 1);
    } else {
      assert ops[..k] == ops;
    }
  }

  /** Two live blocks lie apart, on word boundaries, inside the heap. */
  lemma LiveApart(bs: seq<Block>, end: int, p: int, q: int)
    requires Tiles(bs, START, end) && Live(bs, p) && Live(bs, q) && p != q
    ensures p + BlockOf(bs, p).size <= q || q + BlockOf(bs, q).size <= p
    ensures START <= p - HEADER && p + BlockOf(bs, p).size <= end && p % 4 == 0
    ensures 0 <= BlockOf(bs, p).size && BlockOf(bs, p).size % 4 == 0
  {
    var i, j := Find(bs, p), Find(bs, q);
    assert i != j;
    if i < j {
      Ordered(bs, START, end, i, j);
    } else {
      Ordered(bs, START, end, j, i);
    }
    InRange(bs, START, end, i);
  }

  /** After the allocation inside krealloc, old and new block are both there, apart, and mapped. */
  lemma ReallocRoom(h: Heap, h': Heap, m0: Memory, m1: Memory, p: int, q: int, size: int)
    requires Inv(h) && Live(h.blocks, p) && Added(h, h', q, size) && BlockOf(h.blocks, p).size <= BlockOf(h'.blocks, q).size
    requires AllEncoded(m1, h'.blocks) && Mapped(m0, h.end) && Mapped(m1, h'.end) && LiveKept(h.blocks, m0, m1)
    ensures Live(h'.blocks, p) && BlockOf(h'.blocks, p) == BlockOf(h.blocks, p) && p != q
    ensures var n := BlockOf(h.blocks, p).size;
            && 0 <= n && n % 4 == 0 && p % 4 == 0 && q % 4 == 0 && (p + n <= q || q + n <= p)
            && p - HEADER in m1 && m1[p - HEADER] == n
            && forall a :: 0 <= a < n && a % 4 == 0 ==> p + a in m0 && p + a in m1 && q + a in m1 && SameWord(m0, m1, p + a)
  {
    hide Tiles, Coalesced, Find;
    SameLive(h.blocks, h'.blocks, h.end, h'.end, p);
    var b := BlockOf(h.blocks, p);
    LiveApart(h'.blocks, h'.end, p, q);
    LiveApart(h'.blocks, h'.end, q, p);
    LiveInside(h.blocks, h.end, p);
    assert Encoded(m1, h'.blocks[Find(h'.blocks, p)]);
    assert KeptBlock(m0, m1, b);
    forall a | 0 <= a < b.size && a % 4 == 0
      ensures p + a in m0 && p + a in m1 && q + a in m1 && SameWord(m0, m1, p + a)
    {
      BothAligned(p, a);
      BothAligned(q, a);
    }
  }

  lemma BothAligned(x: int, y: int)
    requires x % 4 == 0 && y % 4 == 0
    ensures (x + y) % 4 == 0
  {
  }

  lemma LiveInside(bs: seq<Block>, end: int, p: int)
    requires Tiles(bs, START, end) && Live(bs, p)
    ensures START <= p - HEADER && p + BlockOf(bs, p).size <= end
    ensures p == BlockOf(bs, p).addr + HEADER
  {
    InRange(bs, START, end, Find(bs, p));
  }

  /** Writing the first `n` payload bytes of block `k`. */
  lemma PayloadWrite(mem: Memory, mem': Memory, bs: seq<Block>, end: int, k: nat, n: int)
    requires Tiles(bs, START, end) && AllEncoded(mem, bs) && Mapped(mem, end) && k < |bs| && n <= bs[k].size
    requires DiffersIn(mem, mem', bs[k].addr + HEADER, bs[k].addr + HEADER + n) && mem'.Keys == mem.Keys
    ensures AllEncoded(mem', bs) && Mapped(mem', end)
    ensures forall b :: b in bs && b != bs[k] ==> KeptBlock(mem, mem', b)
  {
    forall i | 0 <= i < |bs|
      ensures Encoded(mem', bs[i]) && (i != k ==> KeptBlock(mem, mem', bs[i]))
    {
      assert Encoded(mem, bs[i]);
      if i != k {
        WriteKeeps(mem, mem', bs, START, end, k, i);
      } else {
        assert SameWord(mem, mem', bs[k].addr) && SameWord(mem, mem', bs[k].addr + 4);
      }
    }
  }

  lemma ReallocKept(h: Heap, h1: Heap, p: int, q: int, size: int, m0: Memory, m1: Memory, m2: Memory, m3: Memory)
    requires Inv(h) && Live(h.blocks, p) && Added(h, h1, q, size) && Live(h1.blocks, p) && p != q
    requires BlockOf(h1.blocks, p) == BlockOf(h.blocks, p)
    requires LiveKept(h.blocks, m0, m1) && LiveKept(Free(h1, p).blocks, m2, m3)
    requires forall b :: b in h1.blocks && b != BlockOf(h1.blocks, q) ==> KeptBlock(m1, m2, b)
    ensures forall b :: b in h.blocks && b.used && b != BlockOf(h.blocks, p) ==> KeptBlock(m0, m3, b)
    ensures forall a :: q <= a < q + BlockOf(h1.blocks, q).size ==> SameWord(m2, m3, a)
  {
    hide Tiles, Coalesced, Find, Free;
    FreeInv(h1, p);
    var b1 := BlockOf(h1.blocks, q);
    LiveInside(h1.blocks, h1.end, p);
    LiveInside(h1.blocks, h1.end, q);
    assert KeptBlock(m2, m3, b1);
    forall b | b in h.blocks && b.used && b != BlockOf(h.blocks, p)
      ensures KeptBlock(m0, m3, b)
    {
      LiveIff(h.blocks, START, h.end, b);
      assert b != b1;
      forall a | b.addr + HEADER <= a < b.After()
        ensures SameWord(m0, m3, a)
      {
        assert SameWord(m0, m1, a) && SameWord(m1, m2, a) && SameWord(m2, m3, a);
      }
    }
  }

  lemma MarkTiles(bs: seq<Block>, end: int, k: nat, used: bool)
    requires Tiles(bs, START, end) && k < |bs|
    ensures Tiles(bs[k := bs[k].(used := used)], START, end)
  {
  }

  lemma FreedKept(bs: seq<Block>, k: nat, cs: seq<Block>, ds: seq<Block>, m0: Memory, m1: Memory, m2: Memory)
    requires k < |bs| && cs == bs[k := bs[k].(used := false)] && ds == Merge(cs)
    requires LiveKept(bs, m0, m1) && LiveKept(cs, m1, m2)
    ensures LiveKept(ds, m0, m2)
  {
    forall b | b in ds && b.used
      ensures KeptBlock(m0, m2, b)
    {
      MergeUsed(cs, b);
      assert b in bs;
      forall a | b.addr + HEADER <= a < b.After()
        ensures SameWord(m0, m2, a)
      {
        assert SameWord(m0, m1, a) && SameWord(m1, m2, a);
      }
    }
  }

  lemma MergeNone()
    ensures Merge([]) == []
  {
  }

  // ---------------------------------------------------------------- facts the walks need

  lemma FirstAt(bs: seq<Block>, end: int)
    requires Tiles(bs, START, end) && START < end
    ensures |bs| > 0 && bs[0].addr == START
  {
  }

  lemma StartKept(bs: seq<Block>, mem: Memory)
    ensures LiveKept(bs, mem, mem) && SameUsed(bs, bs)
  {
  }

  lemma UsedTrans(a: seq<Block>, b: seq<Block>, c: seq<Block>)
    requires SameUsed(a, b) && SameUsed(b, c)
    ensures SameUsed(a, c)
  {
  }

  /** Following the size of block `d` leads to block `d + 1`, or to the end. */
  lemma NextAt(mem: Memory, bs: seq<Block>, end: int, d: nat)
    requires Tiles(bs, START, end) && AllEncoded(mem, bs) && d < |bs|
    ensures Encoded(mem, bs[d]) && 0 <= bs[d].size && START <= bs[d].addr < end
    ensures bs[d].After() == (if d + 1 < |bs| then bs[d + 1].addr else end)
    ensures bs[d].After() >= end <==> d + 1 == |bs|
  {
    InRange(bs, START, end, d);
    if d + 1 < |bs| {
      InRange(bs, START, end, d + 1);
    }
  }

  lemma JoinMemory(mem: Memory, bs: seq<Block>, end: int, d: nat)
    requires Tiles(bs, START, end) && AllEncoded(mem, bs) && Mapped(mem, end) && d + 1 < |bs| && end <= LIMIT
    requires !bs[d].used && !bs[d + 1].used
    ensures 0 <= bs[d].size + HEADER + bs[d + 1].size < TWO32
    ensures var mem': Memory := mem[bs[d].addr := bs[d].size + HEADER + bs[d + 1].size];
            && Tiles(Join(bs, d), START, end) && AllEncoded(mem', Join(bs, d)) && Mapped(mem', end)
            && LiveKept(bs, mem, mem')
            && Encoded(mem', bs[d + 1])
  {
    InRange(bs, START, end, d);
    InRange(bs, START, end, d + 1);
    JoinTiles(bs, START, end, d);
    var c := Block(bs[d].addr, bs[d].size + HEADER + bs[d + 1].size, false);
    var mem': Memory := mem[bs[d].addr := c.size];
    ReplaceBlock(mem, mem', bs, START, end, d, [c]);
    var cs := bs[..d] + [c] + bs[d + 1..];
    forall i | 0 <= i < |Join(bs, d)|
      ensures Encoded(mem', Join(bs, d)[i])
    {
      assert Join(bs, d)[i] == if i <= d then cs[i] else cs[i + 1];
    }
    assert cs[d + 1] == bs[d + 1];
  }

  /** A freshly mapped chunk with its header becomes one more block. */
  lemma ChunkMemory(mem: Memory, backing: Memory, bs: seq<Block>, end: int)
    requires Tiles(bs, START, end) && AllEncoded(mem, bs) && Mapped(mem, end) && Mapped(backing, LIMIT)
    requires START < end < LIMIT && (LIMIT - end) % CHUNK == 0
    ensures var mem': Memory := (mem + Window(backing, end, end + CHUNK))[end := CHUNK - HEADER][end + 4 := Mark(false)];
            var bs' := bs + [Block(end, CHUNK - HEADER, false)];
            && Tiles(bs', START, end + CHUNK) && AllEncoded(mem', bs') && Mapped(mem', end + CHUNK)
            && end + CHUNK <= LIMIT && LiveKept(bs, mem, mem') && SameUsed(bs, bs')
  {
    hide Tiles, Window, Mapped;
    var b := Block(end, CHUNK - HEADER, false);
    var mem': Memory := (mem + Window(backing, end, end + CHUNK))[end := CHUNK - HEADER][end + 4 := Mark(false)];
    ChunkTiles(bs, end);
    ChunkMapped(mem, backing, end);
    forall i | 0 <= i < |bs|
      ensures Encoded(mem', bs[i]) && KeptBlock(mem, mem', bs[i])
    {
      InRange(bs, START, end, i);
      assert Encoded(mem, bs[i]);
      WindowAbove(backing, end, end + CHUNK);
    }
    assert Encoded(mem', b);
  }

  lemma WindowAbove(m: Memory, lo: int, hi: int)
    ensures forall a :: a in Window(m, lo, hi) ==> lo <= a < hi
  {
  }

  lemma ChunkTiles(bs: seq<Block>, end: int)
    requires Tiles(bs, START, end) && START < end < LIMIT && (LIMIT - end) % CHUNK == 0
    ensures end + CHUNK <= LIMIT && Tiles(bs + [Block(end, CHUNK - HEADER, false)], START, end + CHUNK)
  {
    assert end % 4 == 0 by {
      assert LIMIT - end == CHUNK * ((LIMIT - end) / CHUNK);
    }
  }

  lemma ChunkMapped(mem: Memory, backing: Memory, end: int)
    requires Mapped(mem, end) && Mapped(backing, LIMIT) && START < end && end + CHUNK <= LIMIT
    ensures Mapped((mem + Window(backing, end, end + CHUNK))[end := CHUNK - HEADER][end + 4 := Mark(false)], end + CHUNK)
  {
  }

  /** The words after `kmalloc` has split block `k` encode the carved list. */
  lemma SplitMemory(mem: Memory, bs: seq<Block>, end: int, k: nat, size: Word)
    requires Tiles(bs, START, end) && AllEncoded(mem, bs) && Mapped(mem, end) && end <= LIMIT
    requires k < |bs| && Fits(bs[k], size) && size % 4 == 0 && bs[k].size - size > HEADER
    ensures 0 <= bs[k].size - size - HEADER < TWO32
    ensures var i, rest := bs[k].addr, bs[k].size - size - HEADER;
            var mem': Memory := mem[i := size][i + HEADER + size + 4 := MAGIC][i + HEADER + size := rest][i + 4 := Mark(true)];
            && AllEncoded(mem', Carve(bs, k, size)) && Mapped(mem', end) && LiveKept(bs, mem, mem')
  {
    hide Tiles;
    NextAt(mem, bs, end, k);
    InRange(bs, START, end, k);
    var i, rest := bs[k].addr, bs[k].size - size - HEADER;
    var mem': Memory := mem[i := size][i + HEADER + size + 4 := MAGIC][i + HEADER + size := rest][i + 4 := Mark(true)];
    RestFits(bs, end, k, size);
    var two := [Block(i, size, true), Block(i + HEADER + size, rest, false)];
    assert Encoded(mem', two[0]) && Encoded(mem', two[1]);
    ReplaceBlock(mem, mem', bs, START, end, k, two);
  }

  lemma RestFits(bs: seq<Block>, end: int, k: nat, size: Word)
    requires Tiles(bs, START, end) && k < |bs| && size % 4 == 0 && bs[k].size - size > HEADER
    ensures bs[k].size - size - HEADER >= 4
  {
    assert Aligned(bs[k].size);
  }

  lemma TakeMemory(mem: Memory, bs: seq<Block>, end: int, k: nat, size: Word)
    requires Tiles(bs, START, end) && AllEncoded(mem, bs) && Mapped(mem, end)
    requires k < |bs| && Fits(bs[k], size) && bs[k].size - size <= HEADER
    ensures var mem': Memory := mem[bs[k].addr + 4 := Mark(true)];
            && AllEncoded(mem', Carve(bs, k, size)) && Mapped(mem', end) && LiveKept(bs, mem, mem')
  {
    MarkMemory(mem, bs, end, k, true);
    assert Carve(bs, k, size) == bs[k := bs[k].(used := true)];
  }

  /** Rewriting the status of block `k`. */
  lemma MarkMemory(mem: Memory, bs: seq<Block>, end: int, k: nat, used: bool)
    requires Tiles(bs, START, end) && AllEncoded(mem, bs) && Mapped(mem, end) && k < |bs|
    ensures var mem': Memory := mem[bs[k].addr + 4 := Mark(used)];
            && AllEncoded(mem', bs[k := bs[k].(used := used)]) && Mapped(mem', end) && LiveKept(bs, mem, mem')
  {
    var mem': Memory := mem[bs[k].addr + 4 := Mark(used)];
    ReplaceBlock(mem, mem', bs, START, end, k, [bs[k].(used := used)]);
    assert bs[k := bs[k].(used := used)] == bs[..k] + [bs[k].(used := used)] + bs[k + 1..];
    forall b | b in bs && b.used
      ensures KeptBlock(mem, mem', b)
    {
      var i :| 0 <= i < |bs| && bs[i] == b;
      if i != k {
        WriteKeeps(mem, mem', bs, START, end, k, i);
      }
    }
  }
}
