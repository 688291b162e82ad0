/** What the address spaces see of a chunk that `kheap_expand` adds to the kernel heap. */
module HeapViews {
  import opened Machine
  import opened PageTables
  import opened Physical
  import opened Paging
  import opened HeapUse
  import opened ForkSpec
  import opened Fork
  import HeapGrowth
  import KHeapRuns

  const CHUNK_SIZE := 0x40_0000

  /** Directory `d` has the chunk of 1024 pages from `v` in the frames from `f`. */
  ghost predicate ChunkIn(t: Tables, d: nat, v: nat, f: nat) {
    forall p :: v <= p < v + 1024 ==> Lookup(t, d, p).Some? && Lookup(t, d, p).value.frame == f + (p - v)
  }

  /** The directories `ls` have the chunk, each in frames `fs` of its own that are no longer free. */
  ghost predicate Views(t: Tables, bs: seq<PBlock>, ls: seq<nat>, fs: seq<nat>, v: nat) {
    && |fs| == |ls|
    && (forall i :: 0 <= i < |ls| ==> ChunkIn(t, ls[i], v, fs[i]))
    && (forall i, f :: 0 <= i < |ls| && fs[i] <= f < fs[i] + 1024 ==> !FrameFree(bs, f))
    && (forall i, j :: 0 <= i < j < |ls| ==> fs[i] + 1024 <= fs[j] || fs[j] + 1024 <= fs[i])
  }

  /** No directory but those in `ls` has anything in the slot. */
  ghost predicate OthersEmpty(t: Tables, dirs: set<nat>, ls: seq<nat>, slot: nat) {
    forall d :: d in dirs && d !in ls ==> Entry(t, d, slot) == 0
  }

  /** Two runs of 1024 frames, one free and the other not, lie apart. */
  lemma RunsApart(bs: seq<PBlock>, a: nat, b: nat)
    requires forall f :: a <= f < a + 1024 ==> !FrameFree(bs, f)
    requires forall f :: b <= f < b + 1024 ==> FrameFree(bs, f)
    ensures a + 1024 <= b || b + 1024 <= a
  {
    hide FrameFree;
    assert FrameFree(bs, b) && !FrameFree(bs, a);
  }

  /** Mapping the chunk in one more directory gives it other frames, and moves it nowhere else. */
  lemma OneMore(t: Tables, t': Tables, bs: seq<PBlock>, bs': seq<PBlock>, dirs: set<nat>, ls: seq<nat>, fs: seq<nat>,
                d: nat, v: nat, f: nat, access: int)
    requires Views(t, bs, ls, fs, v) && (forall l :: l in ls ==> l in dirs) && d in dirs && d !in ls
    requires OthersEmpty(t, dirs, ls, v / 1024) && v % 1024 == 0 && v + 1024 <= PAGES && f + 1024 <= PAGES
    requires Progress(t, t', dirs, d, v, 1024, f, access) && Aside(t, t', dirs, d) && Taken(bs, bs', f, 1024)
    ensures Views(t', bs', ls + [d], fs + [f], v) && OthersEmpty(t', dirs, ls + [d], v / 1024)
  {
    hide Lookup, FrameFree;
    var ls', fs' := ls + [d], fs + [f];
    forall i | 0 <= i < |ls'|
      ensures ChunkIn(t', ls'[i], v, fs'[i])
    {
      if i < |ls| {
        KeepsChunk(t, t', dirs, ls[i], d, v, fs[i]);
      } else {
        forall p | v <= p < v + 1024
          ensures Lookup(t', d, p).Some? && Lookup(t', d, p).value.frame == f + (p - v)
        {
          assert Off(p, v) == p - v;
        }
      }
    }
    forall i | 0 <= i < |ls|
      ensures fs[i] + 1024 <= f || f + 1024 <= fs[i]
    {
      RunsApart(bs, fs[i], f);
    }
    forall e | e in dirs && e !in ls'
      ensures Entry(t', e, v / 1024) == 0
    {
      assert d in ls' && e !in ls;
    }
  }

  lemma KeepsChunk(t: Tables, t': Tables, dirs: set<nat>, l: nat, d: nat, v: nat, f: nat)
    requires ChunkIn(t, l, v, f) && Aside(t, t', dirs, d) && l in dirs && l != d && Entry(t, d, v / 1024) == 0
    requires v % 1024 == 0 && v + 1024 <= PAGES
    ensures ChunkIn(t', l, v, f)
  {
    hide Lookup;
    forall p | v <= p < v + 1024
      ensures Lookup(t', l, p) == Lookup(t, l, p)
    {
      DivideBy(p, 1024, v / 1024, p - v);
      assert !SharesTable(t, l, d, p / 1024);
    }
  }

  /** The physical list after `k` chunks have been reserved: the first for the kernel's directory, then one for each
      process. None: one of them could not be had. */
  function Chunks(bs: seq<PBlock>, k: nat): Option<seq<PBlock>> {
    if k == 0 then Some(bs)
    else
      match Chunks(bs, k - 1)
      case None => None
      case Some(b) =>
        NextChunk(b, if k == 1 then KERNELF else USER)
  }

  lemma {:induction false} ChunksPrefix(bs: seq<PBlock>, j: nat, k: nat)
    requires Chunks(bs, k).Some? && j <= k
    ensures Chunks(bs, j).Some?
    decreases k
  {
    if j < k {
      ChunksPrefix(bs, j, k - 1);
    }
  }

  /** Memory, list nodes and page-heap frames for a chunk in each of `k` address spaces. */
  ghost predicate ChunksAmple(bs: seq<PBlock>, heap: HeapState, used: seq<bool>, k: nat) {
    Chunks(bs, k).Some? && HeapGrowth.Nodes(heap, k).Some? && |FreeSet(used)| >= k
  }

  /** An empty slot takes a chunk if a frame is there for its table. */
  lemma ChunkMappable(t: Tables, used: seq<bool>, bs: seq<PBlock>, d: nat, v: nat)
    requires v % 1024 == 0 && v + 1024 <= PAGES && Entry(t, d, v / 1024) == 0 && ListOk(bs) && Room(bs, CHUNK_SIZE)
    ensures Mappable(t, used, d, FitBase(bs, CHUNK_SIZE), v, 1024) <==> |FreeSet(used)| > 0
    ensures TailNeed(t, d, v, 1024) == {v / 1024} && |TailNeed(t, d, v, 1024)| == 1 && LargePages(v, 1024) == 0
  {
    hide Touches;
    forall i: nat
      ensures Touches(v, 1024, i) <==> i == v / 1024
    {
      ChunkTouches(v, i);
    }
    assert TailNeed(t, d, v, 1024) == {v / 1024};
    forall p: nat | p < PAGES && Off(p, v) < 1024
      ensures Lookup(t, d, p) == None
    {
      DivideBy(p, 1024, v / 1024, p - v);
    }
  }

  lemma ChunkTouches(v: nat, i: nat)
    requires v % 1024 == 0 && v + 1024 <= PAGES
    ensures Touches(v, 1024, i) <==> i == v / 1024
  {
    if i == v / 1024 {
      assert Off(v, v) == 0;
    }
    if p: nat :| p < PAGES && Off(p, v) < 1024 && p / 1024 == i {
      DivideBy(p, 1024, v / 1024, p - v);
    }
  }

  /** Nothing outside the chunk has moved in any directory. */
  ghost predicate ChunkOnly(t: Tables, t': Tables, dirs: set<nat>, v: nat) {
    forall d, p :: d in dirs && 0 <= p < PAGES && !(v <= p < v + 1024) ==> Lookup(t', d, p) == Lookup(t, d, p)
  }

  /** The frames were free in `bs`. */
  ghost predicate WereFree(bs: seq<PBlock>, fs: seq<nat>) {
    forall i, f :: 0 <= i < |fs| && fs[i] <= f < fs[i] + 1024 ==> FrameFree(bs, f)
  }

  lemma OneMoreKept(t0: Tables, t: Tables, t': Tables, bs0: seq<PBlock>, bs: seq<PBlock>, bs': seq<PBlock>, dirs: set<nat>,
                    fs: seq<nat>, d: nat, v: nat, f: nat, access: int)
    requires ChunkOnly(t0, t, dirs, v) && WereFree(bs0, fs) && Shrunk(bs0, bs) && v + 1024 <= PAGES
    requires Progress(t, t', dirs, d, v, 1024, f, access) && Taken(bs, bs', f, 1024)
    ensures ChunkOnly(t0, t', dirs, v) && WereFree(bs0, fs + [f]) && Shrunk(bs0, bs')
  {
    hide Lookup, FrameFree;
    forall e, p | e in dirs && 0 <= p < PAGES && !(v <= p < v + 1024)
      ensures Lookup(t', e, p) == Lookup(t0, e, p)
    {
      if Off(p, v) >= 1024 {
        assert Lookup(t', e, p) == Lookup(t, e, p);
      }
    }
  }

  /** The list once one more chunk is reserved, or None. */
  function NextChunk(bs: seq<PBlock>, kind: int): Option<seq<PBlock>> {
    if Room(bs, CHUNK_SIZE) then Some(Carve(bs, FirstFit(bs, CHUNK_SIZE), CHUNK_SIZE, kind)) else None
  }

  lemma ChunksNext(bs: seq<PBlock>, k: nat)
    requires Chunks(bs, k).Some?
    ensures Chunks(bs, k + 1) == NextChunk(Chunks(bs, k).value, if k == 0 then KERNELF else USER)
  {
  }

  /** A chunk for one address space that has nothing in the slot. */
  method MapView(m: Mmu, end: Word, d: nat) returns (ok: bool, ghost first: nat)
    requires m.Valid() && end % CHUNK_SIZE == 0 && end + CHUNK_SIZE < TWO32
    requires d in m.dirs && Entry(m.tables, d, end / CHUNK_SIZE) == 0
    modifies m`tables, m`used, m`blocks, m`heap
    ensures m.Valid() && m.tables.Keys == old(m.tables.Keys)
    ensures ok == (NextChunk(old(m.blocks), if d == m.kernelDir then KERNELF else USER).Some?
                   && HeapFits(old(m.heap), NODE) && |FreeSet(old(m.used))| > 0)
    ensures ok ==> Some(m.blocks) == NextChunk(old(m.blocks), if d == m.kernelDir then KERNELF else USER)
    ensures ok ==> HeapFits(old(m.heap), NODE) && m.heap == HeapTake(old(m.heap), NODE)
    ensures ok ==> |FreeSet(m.used)| == |FreeSet(old(m.used))| - 1 && first + 1024 <= PAGES
    ensures ok ==> Progress(old(m.tables), m.tables, m.dirs, d, end / 4096, 1024, first, Access(d == m.kernelDir))
    ensures ok ==> Aside(old(m.tables), m.tables, m.dirs, d) && Taken(old(m.blocks), m.blocks, first, 1024)
    ensures ok ==> SlotOnly(old(m.tables), m.tables, m.dirs, end / CHUNK_SIZE)
  {
    hide Sound, Lookup, FrameFree, ListOk, KernelHeld, HeapOk, Aside, Progress, Taken, Mappable, FreeSet, TailNeed, Room,
         HeapFits, HeapTake, Occupied, Misaligned, LargePages, AllBacked, LargeHead, SmallTail, SlotsKept, UntouchedSame,
         FilledTo, SlotOnly, FirstFit, Carve, Usable;
    ghost var v := end / 4096;
    ChunkNumbers(end);
    if Room(m.blocks, CHUNK_SIZE) {
      ChunkMappable(m.tables, m.used, m.blocks, d, v);
    }
    ghost var t := m.tables;
    ok, first := m.MapMemory(CHUNK_SIZE, end, d);
    if ok {
      SlotsAround(t, m.tables, m.dirs, d, v, first, Access(d == m.kernelDir));
    }
  }

  /** Only slot `slot` of the directories may have changed. */
  ghost predicate SlotOnly(t: Tables, t': Tables, dirs: set<nat>, slot: nat) {
    forall d, i :: d in dirs && 0 <= i < 1024 && i != slot ==> Entry(t', d, i) == Entry(t, d, i)
  }

  lemma SlotOnlyTwice(t0: Tables, t: Tables, t': Tables, dirs: set<nat>, slot: nat)
    requires SlotOnly(t0, t, dirs, slot) && SlotOnly(t, t', dirs, slot)
    ensures SlotOnly(t0, t', dirs, slot)
  {
    hide Entry;
  }

  /** The mapping part of `kheap_expand`: the kernel's directory first, then every process. Each address space gets
      frames of its own for the same heap addresses, and a space not listed (a child in the making) gets none. */
  method MapChunk(m: Mmu, end: Word, others: seq<nat>) returns (ok: bool, ghost fs: seq<nat>)
    requires m.Valid() && end % CHUNK_SIZE == 0 && end + CHUNK_SIZE < TWO32
    requires forall d :: d in m.dirs ==> Entry(m.tables, d, end / CHUNK_SIZE) == 0
    requires (forall i :: 0 <= i < |others| ==> others[i] in m.dirs && others[i] != m.kernelDir)
             && (forall i, j :: 0 <= i < j < |others| ==> others[i] != others[j])
    modifies m`tables, m`used, m`blocks, m`heap
    ensures m.Valid() && m.tables.Keys == old(m.tables.Keys)
    ensures ok == ChunksAmple(old(m.blocks), old(m.heap), old(m.used), 1 + |others|)
    ensures ok ==> Chunks(old(m.blocks), 1 + |others|) == Some(m.blocks)
    ensures ok ==> HeapGrowth.Nodes(old(m.heap), 1 + |others|) == Some(m.heap)
    ensures ok ==> |FreeSet(m.used)| == |FreeSet(old(m.used))| - 1 - |others|
    ensures ok ==> Views(m.tables, m.blocks, [m.kernelDir] + others, fs, end / 4096)
    ensures ok ==> OthersEmpty(m.tables, m.dirs, [m.kernelDir] + others, end / CHUNK_SIZE)
    ensures ok ==> ChunkOnly(old(m.tables), m.tables, m.dirs, end / 4096) && WereFree(old(m.blocks), fs)
    ensures ok ==> Shrunk(old(m.blocks), m.blocks)
    ensures ok ==> SlotOnly(old(m.tables), m.tables, m.dirs, end / CHUNK_SIZE)
  {
    hide Sound, Lookup, FrameFree, ListOk, KernelHeld, HeapOk, Aside, Progress, Taken, FreeSet, Room, HeapFits, HeapTake,
         AllBacked, Views, OthersEmpty, ChunkOnly, WereFree, Shrunk, HeapGrowth.Nodes, Chunks, NextChunk, SlotOnly, Entry, Usable;
    ghost var t0, bs0, h0 := m.tables, m.blocks, m.heap;
    ghost var v, slot := end / 4096, end / CHUNK_SIZE;
    ChunkNumbers(end);
    var spaces := [m.kernelDir] + others;
    fs := [];
    ok := true;
    ghost var first;
    StartViews(m.tables, m.blocks, m.dirs, v);
    HeapGrowth.NoNodes(h0);
    for i := 0 to |spaces|
      invariant m.Valid() && ok && m.tables.Keys == old(m.tables.Keys)
      invariant Chunks(bs0, i) == Some(m.blocks) && HeapGrowth.Nodes(h0, i) == Some(m.heap)
      invariant |FreeSet(m.used)| == |FreeSet(old(m.used))| - i
      invariant Views(m.tables, m.blocks, spaces[..i], fs, v) && OthersEmpty(m.tables, m.dirs, spaces[..i], slot)
      invariant ChunkOnly(t0, m.tables, m.dirs, v) && WereFree(bs0, fs) && Shrunk(bs0, m.blocks)
      invariant SlotOnly(t0, m.tables, m.dirs, slot)
    {
      ghost var t, bs := m.tables, m.blocks;
      assert spaces[..i + 1] == spaces[..i] + [spaces[i]];
      Newcomer(spaces, others, m.kernelDir, i);
      StillEmpty(t, m.dirs, spaces[..i], slot, spaces[i]);
      HeapGrowth.NodesNext(h0, i);
      ChunksNext(bs0, i);
      ok, first := MapView(m, end, spaces[i]);
      if !ok {
        NotAmple(bs0, h0, old(m.used), i, |spaces|);
        return;
      }
      OneMore(t, m.tables, bs, m.blocks, m.dirs, spaces[..i], fs, spaces[i], v, first, Access(spaces[i] == m.kernelDir));
      OneMoreKept(t0, t, m.tables, bs0, bs, m.blocks, m.dirs, fs, spaces[i], v, first, Access(spaces[i] == m.kernelDir));
      SlotOnlyTwice(t0, t, m.tables, m.dirs, slot);
      fs := fs + [first];
    }
    assert spaces[..|spaces|] == spaces;
  }

  /** What stops one chunk stops them all. */
  lemma NotAmple(bs: seq<PBlock>, h: HeapState, used: seq<bool>, i: nat, k: nat)
    requires i < k && (Chunks(bs, i + 1).None? || HeapGrowth.Nodes(h, i + 1).None? || |FreeSet(used)| <= i)
    ensures !ChunksAmple(bs, h, used, k)
  {
    hide Chunks, HeapGrowth.Nodes, FreeSet;
    if Chunks(bs, k).Some? {
      ChunksPrefix(bs, i + 1, k);
    }
    if HeapGrowth.Nodes(h, k).Some? {
      HeapGrowth.NodesPrefix(h, i + 1, k);
    }
  }

  lemma StartViews(t: Tables, bs: seq<PBlock>, dirs: set<nat>, v: nat)
    requires forall d :: d in dirs ==> Entry(t, d, v / 1024) == 0
    ensures Views(t, bs, [], [], v) && OthersEmpty(t, dirs, [], v / 1024)
    ensures ChunkOnly(t, t, dirs, v) && WereFree(bs, []) && Shrunk(bs, bs) && Chunks(bs, 0) == Some(bs)
    ensures SlotOnly(t, t, dirs, v / 1024)
  {
  }

  lemma Newcomer(spaces: seq<nat>, others: seq<nat>, kernel: nat, i: nat)
    requires spaces == [kernel] + others && i < |spaces| && forall k :: 0 <= k < |others| ==> others[k] != kernel
    requires forall j, k :: 0 <= j < k < |others| ==> others[j] != others[k]
    ensures spaces[i] !in spaces[..i] && (spaces[i] == kernel <==> i == 0)
  {
    assert forall j :: 0 <= j < i ==> spaces[j] != spaces[i];
  }

  lemma StillEmpty(t: Tables, dirs: set<nat>, ls: seq<nat>, slot: nat, d: nat)
    requires OthersEmpty(t, dirs, ls, slot) && d in dirs && d !in ls
    ensures Entry(t, d, slot) == 0
  {
  }

  /** Mapping a chunk writes one slot of one directory. */
  lemma SlotsAround(t: Tables, t': Tables, dirs: set<nat>, d: nat, v: nat, f: nat, access: int)
    requires Progress(t, t', dirs, d, v, 1024, f, access) && FilledTo(t, t', d, v, 1024) && v % 1024 == 0 && v + 1024 <= PAGES
    ensures SlotOnly(t, t', dirs, v / 1024)
  {
    hide Lookup, Touches;
    forall e, k: nat | e in dirs && k < 1024 && k != v / 1024
      ensures Entry(t', e, k) == Entry(t, e, k)
    {
      ChunkTouches(v, k);
    }
  }

  lemma ChunkNumbers(end: Word)
    requires end % CHUNK_SIZE == 0 && end + CHUNK_SIZE < TWO32
    ensures FirstPage(end) == end / 4096 && PageCount(CHUNK_SIZE, end) == 1024
    ensures end / 4096 % 1024 == 0 && end / 4096 + 1024 <= PAGES && end / 4096 / 1024 == end / CHUNK_SIZE
  {
    var c := end / CHUNK_SIZE;
    assert end == c * CHUNK_SIZE;
    DivideBy(end, 4096, c * 1024, 0);
    DivideBy(c * 1024, 1024, c, 0);
  }

  /** So no two address spaces see the new part of the heap alike: what one writes there the other does not read. */
  lemma ViewsDiffer(t: Tables, bs: seq<PBlock>, ls: seq<nat>, fs: seq<nat>, v: nat, i: nat, j: nat, p: nat, q: nat)
    requires Views(t, bs, ls, fs, v) && i < |ls| && j < |ls| && i != j && v <= p < v + 1024 && v <= q < v + 1024
    ensures Lookup(t, ls[i], p).Some? && Lookup(t, ls[j], q).Some?
    ensures Lookup(t, ls[i], p).value.frame != Lookup(t, ls[j], q).value.frame
  {
    hide Lookup, FrameFree;
    assert ChunkIn(t, ls[i], v, fs[i]) && ChunkIn(t, ls[j], v, fs[j]);
  }

  // ---------------------------------------------------------------- growth of the heap

  /** The frames of all views of the chunk. */
  ghost function ChunkFrames(fs: seq<nat>): set<nat> {
    set f: nat | f < PAGES && InViews(fs, f)
  }

  ghost predicate InViews(fs: seq<nat>, f: nat) {
    exists i :: 0 <= i < |fs| && fs[i] <= f < fs[i] + 1024
  }

  /** No directory has anything in the slots that the heap may still grow into. */
  ghost predicate TopEmpty(t: Tables, dirs: set<nat>, end: int) {
    forall d, i :: d in dirs && end / CHUNK_SIZE <= i < 898 ==> Entry(t, d, i) == 0
  }

  /** `others` lists the directories besides the kernel's. */
  ghost predicate Lists(others: seq<nat>, dirs: set<nat>, kernel: nat) {
    && (forall i :: 0 <= i < |others| ==> others[i] in dirs && others[i] != kernel)
    && (forall i, j :: 0 <= i < j < |others| ==> others[i] != others[j])
    && (forall d :: d in dirs ==> d == kernel || d in others)
  }

  /** After the expansion every space has the whole heap, page by page in frames of the kernel. */
  lemma GrownViews(t: Tables, t': Tables, bs: seq<PBlock>, bs': seq<PBlock>, dirs: set<nat>, ls: seq<nat>, fs: seq<nat>,
                   v: nat, kf: set<nat>)
    requires HeapViewed(t, dirs, v * 4096, kf) && ChunkOnly(t, t', dirs, v) && HEAP_PAGE <= v && v + 1024 <= PAGES
    requires Views(t', bs', ls, fs, v) && WereFree(bs, fs) && KernelHeld(kf, bs) && forall d :: d in dirs ==> d in ls
    ensures HeapViewed(t', dirs, (v + 1024) * 4096, kf + ChunkFrames(fs))
  {
    hide Lookup, FrameFree, ChunkFrames;
    forall d, p | d in dirs && HEAP_PAGE <= p < v + 1024
      ensures Lookup(t', d, p).Some? && Lookup(t', d, p).value.frame in kf + ChunkFrames(fs)
      ensures p < v ==> Lookup(t', d, p) == Lookup(t, d, p) && Lookup(t', d, p).value.frame in kf
      ensures v <= p ==> InViews(fs, Lookup(t', d, p).value.frame)
    {
      if v <= p {
        var i := InList(ls, d);
        ChunkPage(t', ls, fs, bs', v, i, p);
      }
    }
    forall d, e, p, q | d in dirs && e in dirs && HEAP_PAGE <= p < q < v + 1024
      ensures Elsewhere(t', d, p, e, q)
    {
      if q < v {
        assert Elsewhere(t, d, p, e, q);
      } else if p < v {
        ViewsFresh(kf, bs, fs, Lookup(t', e, q).value.frame);
      } else {
        var i := InList(ls, d);
        var j := InList(ls, e);
        ChunkPage(t', ls, fs, bs', v, i, p);
        ChunkPage(t', ls, fs, bs', v, j, q);
        if i != j {
          ViewsDiffer(t', bs', ls, fs, v, i, j, p, q);
        }
      }
    }
  }

  lemma InList(ls: seq<nat>, d: nat) returns (i: nat)
    requires d in ls
    ensures i < |ls| && ls[i] == d
  {
    i :| 0 <= i < |ls| && ls[i] == d;
  }

  lemma ChunkPage(t: Tables, ls: seq<nat>, fs: seq<nat>, bs: seq<PBlock>, v: nat, i: nat, p: nat)
    requires Views(t, bs, ls, fs, v) && i < |ls| && v <= p < v + 1024
    ensures |fs| == |ls|
    ensures Lookup(t, ls[i], p).Some? && Lookup(t, ls[i], p).value.frame == fs[i] + (p - v)
    ensures InViews(fs, fs[i] + (p - v)) && fs[i] + (p - v) in ChunkFrames(fs)
  {
    hide Lookup, FrameFree;
    assert ChunkIn(t, ls[i], v, fs[i]);
    FrameBound(t, ls[i], p);
  }

  lemma ViewsFresh(kf: set<nat>, bs: seq<PBlock>, fs: seq<nat>, f: nat)
    requires KernelHeld(kf, bs) && WereFree(bs, fs) && InViews(fs, f)
    ensures f !in kf && FrameFree(bs, f)
  {
    hide FrameFree;
  }

  lemma GrownHeld(kf: set<nat>, bs: seq<PBlock>, bs': seq<PBlock>, t': Tables, ls: seq<nat>, fs: seq<nat>, v: nat)
    requires KernelHeld(kf, bs) && Shrunk(bs, bs') && Views(t', bs', ls, fs, v)
    ensures KernelHeld(kf + ChunkFrames(fs), bs')
  {
    hide FrameFree, Lookup;
  }

  lemma GrownBacked(t: Tables, t': Tables, dirs: set<nat>, kf: set<nat>, bs: seq<PBlock>, bs': seq<PBlock>, fs: seq<nat>, v: nat)
    requires AllBacked(t, dirs, kf, bs) && ChunkOnly(t, t', dirs, v) && USER_PAGES <= v && Shrunk(bs, bs') && WereFree(bs, fs)
    ensures AllBacked(t', dirs, kf + ChunkFrames(fs), bs')
  {
    hide FrameFree, Lookup;
    forall d, p | d in dirs && 0 <= p < USER_PAGES && Lookup(t', d, p).Some?
      ensures UserFrame(kf + ChunkFrames(fs), bs', Lookup(t', d, p).value.frame)
    {
      assert Lookup(t', d, p) == Lookup(t, d, p);
      assert UserFrame(kf, bs, Lookup(t, d, p).value.frame);
    }
  }

  /** `kheap_expand`, with every process in the list. Afterwards all spaces have the larger heap, the kernel's frames
      include those of the new chunk, and the processes that were there see the chunk in other frames than the
      kernel's directory: they no longer see the heap alike, while a space that is cloned later will. */
  method ExpandHeap(m: Mmu, others: seq<nat>) returns (ok: bool)
    requires m.Valid() && m.Backed() && m.HeapMapped() && Lists(others, m.dirs, m.kernelDir)
    requires TopEmpty(m.tables, m.dirs, m.heap.end)
    modifies m`tables, m`used, m`blocks, m`heap, m`kernelFrames
    ensures ok == (old(m.heap.end) < 0xE080_0000
                   && ChunksAmple(old(m.blocks), old(m.heap), old(m.used), 1 + |others|))
    ensures ok ==> m.Valid() && m.Backed() && m.HeapMapped() && TopEmpty(m.tables, m.dirs, m.heap.end)
    ensures ok ==> m.tables.Keys == old(m.tables.Keys) && old(m.kernelFrames) <= m.kernelFrames
    ensures ok ==> HeapGrowth.Nodes(old(m.heap), 1 + |others|).Some?
                   && m.heap == KHeapRuns.Grow(HeapGrowth.Nodes(old(m.heap), 1 + |others|).value)
                   && m.heap.end == old(m.heap.end) + CHUNK_SIZE
    ensures ok ==> Chunks(old(m.blocks), 1 + |others|) == Some(m.blocks) && Shrunk(old(m.blocks), m.blocks)
    ensures ok ==> |FreeSet(m.used)| == |FreeSet(old(m.used))| - 1 - |others|
    ensures ok ==> ChunkOnly(old(m.tables), m.tables, m.dirs, old(m.heap.end) / 4096)
    ensures ok ==> forall d, i :: d in m.dirs && 0 <= i < KERNEL_SLOT ==> Entry(m.tables, d, i) == Entry(old(m.tables), d, i)
    ensures ok ==> forall d, p :: d in others && old(m.heap.end) / 4096 <= p < m.heap.end / 4096 ==>
                     Lookup(m.tables, d, p).Some? && Lookup(m.tables, m.kernelDir, p).Some?
                     && Lookup(m.tables, d, p).value.frame != Lookup(m.tables, m.kernelDir, p).value.frame
    ensures ok ==> forall f :: f in m.kernelFrames && f !in old(m.kernelFrames) ==> FrameFree(old(m.blocks), f)
    ensures ok ==> forall d, p :: d in m.dirs && old(m.heap.end) / 4096 <= p < m.heap.end / 4096 ==>
                     Lookup(m.tables, d, p).Some? && Lookup(m.tables, d, p).value.frame !in old(m.kernelFrames)
  {
    hide Sound, Lookup, FrameFree, ListOk, KernelHeld, HeapOk, FreeSet, Room, HeapFits, HeapTake, AllBacked, Views,
         OthersEmpty, ChunkOnly, WereFree, Shrunk, HeapGrowth.Nodes, Chunks, HeapViewed, TopEmpty, ChunkFrames, Lists,
         HeapGrowth.Kmalloc, Usable;
    ghost var t0, bs0, h0, kf0 := m.tables, m.blocks, m.heap, m.kernelFrames;
    if m.heap.end >= 0xE080_0000 {
      return false;
    }
    HeapGrowth.Enlarged(m.heap);
    HeapPages(m.heap);
    EndSlot(m.tables, m.dirs, m.heap.end);
    ListParts(others, m.dirs, m.kernelDir);
    ghost var fs;
    ok, fs := MapChunk(m, m.heap.end, others);
    if !ok {
      return;
    }
    ghost var v, k := h0.end / 4096, 1 + |others|;
    HeapGrowth.NodesFit(h0, k, 0);
    HeapGrowth.Enlarged(m.heap);
    assert m.heap.end == h0.end == v * 4096;
    m.heap := KHeapRuns.Grow(m.heap);
    m.kernelFrames := m.kernelFrames + ChunkFrames(fs);
    assert m.heap.end == (v + 1024) * 4096;
    GrownViews(t0, m.tables, bs0, m.blocks, m.dirs, [m.kernelDir] + others, fs, v, kf0);
    GrownHeld(kf0, bs0, m.blocks, m.tables, [m.kernelDir] + others, fs, v);
    GrownBacked(t0, m.tables, m.dirs, kf0, bs0, m.blocks, fs, v);
    TopStays(t0, m.tables, m.dirs, h0.end);
    SpacesDiffer(m.tables, m.blocks, m.kernelDir, others, fs, v);
    NewFree(kf0, bs0, fs);
    NewFrames(m.tables, bs0, m.blocks, m.dirs, [m.kernelDir] + others, fs, v, kf0);
  }

  lemma NewFrames(t: Tables, bs: seq<PBlock>, bs': seq<PBlock>, dirs: set<nat>, ls: seq<nat>, fs: seq<nat>, v: nat, kf: set<nat>)
    requires Views(t, bs', ls, fs, v) && WereFree(bs, fs) && KernelHeld(kf, bs) && forall d :: d in dirs ==> d in ls
    ensures forall d, p: nat :: d in dirs && v <= p < v + 1024 ==>
              Lookup(t, d, p).Some? && Lookup(t, d, p).value.frame !in kf
  {
    hide Lookup, Views, WereFree, KernelHeld, Usable;
    forall d, p: nat | d in dirs && v <= p < v + 1024
      ensures Lookup(t, d, p).Some? && Lookup(t, d, p).value.frame !in kf
    {
      var i := InList(ls, d);
      ChunkPage(t, ls, fs, bs', v, i, p);
      ViewsFresh(kf, bs, fs, fs[i] + (p - v));
    }
  }

  /** One free block that holds all chunks is enough. */
  lemma {:induction false} ChunksSuffice(bs: seq<PBlock>, k: nat, total: int)
    requires Room(bs, total) && k * CHUNK_SIZE <= total
    ensures Chunks(bs, k).Some? && Room(Chunks(bs, k).value, total - k * CHUNK_SIZE)
    decreases k
  {
    hide Room, FirstFit;
    if k > 0 {
      ChunksSuffice(bs, k - 1, total);
      var b, left := Chunks(bs, k - 1).value, total - (k - 1) * CHUNK_SIZE;
      RoomMono(b, left, CHUNK_SIZE);
      ChunkCarved(b, if k == 1 then KERNELF else USER);
      CarveRoom(b, Carve(b, FirstFit(b, CHUNK_SIZE), CHUNK_SIZE, if k == 1 then KERNELF else USER),
                FitBase(b, CHUNK_SIZE), CHUNK_SIZE, if k == 1 then KERNELF else USER, left);
    }
  }

  lemma ChunkCarved(bs: seq<PBlock>, kind: int)
    requires Room(bs, CHUNK_SIZE)
    ensures FirstFit(bs, CHUNK_SIZE) < |bs|
    ensures CarvedFirst(bs, Carve(bs, FirstFit(bs, CHUNK_SIZE), CHUNK_SIZE, kind), FitBase(bs, CHUNK_SIZE), CHUNK_SIZE, kind)
  {
  }

  lemma NewFree(kf: set<nat>, bs: seq<PBlock>, fs: seq<nat>)
    requires WereFree(bs, fs)
    ensures forall f :: f in kf + ChunkFrames(fs) && f !in kf ==> FrameFree(bs, f)
  {
    hide FrameFree;
  }

  lemma EndSlot(t: Tables, dirs: set<nat>, end: int)
    requires TopEmpty(t, dirs, end) && 0 <= end < 0xE080_0000 && end % CHUNK_SIZE == 0
    ensures forall d :: d in dirs ==> Entry(t, d, end / CHUNK_SIZE) == 0
    ensures end + CHUNK_SIZE < TWO32
  {
  }

  lemma ListParts(others: seq<nat>, dirs: set<nat>, kernel: nat)
    requires Lists(others, dirs, kernel)
    ensures (forall i :: 0 <= i < |others| ==> others[i] in dirs && others[i] != kernel)
            && (forall i, j :: 0 <= i < j < |others| ==> others[i] != others[j])
    ensures forall d :: d in dirs ==> d in [kernel] + others
  {
  }

  lemma TopStays(t: Tables, t': Tables, dirs: set<nat>, end: int)
    requires TopEmpty(t, dirs, end) && 0 <= end && end % CHUNK_SIZE == 0
    requires SlotOnly(t, t', dirs, end / CHUNK_SIZE)
    ensures TopEmpty(t', dirs, end + CHUNK_SIZE)
  {
    assert (end + CHUNK_SIZE) / CHUNK_SIZE == end / CHUNK_SIZE + 1;
  }

  lemma SpacesDiffer(t: Tables, bs: seq<PBlock>, kernel: nat, others: seq<nat>, fs: seq<nat>, v: nat)
    requires Views(t, bs, [kernel] + others, fs, v)
    ensures forall d, p: nat :: d in others && v <= p < v + 1024 ==>
              Lookup(t, d, p).Some? && Lookup(t, kernel, p).Some?
              && Lookup(t, d, p).value.frame != Lookup(t, kernel, p).value.frame
  {
    hide Lookup, Views;
    forall d, p: nat | d in others && v <= p < v + 1024
      ensures Lookup(t, d, p).Some? && Lookup(t, kernel, p).Some?
      ensures Lookup(t, d, p).value.frame != Lookup(t, kernel, p).value.frame
    {
      var i := InList(others, d);
      assert ([kernel] + others)[i + 1] == d && ([kernel] + others)[0] == kernel;
      ViewsDiffer(t, bs, [kernel] + others, fs, v, 0, i + 1, p, p);
    }
  }
}
