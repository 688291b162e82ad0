/** Concrete runs from boot: a fork that cannot return, one that does, and one that returns with wrong bytes. */
module Scenarios {
  import opened Machine
  import opened PageTables
  import opened Physical
  import opened Paging
  import opened HeapUse
  import opened ForkHeap
  import opened CopyBuffer
  import opened ForkSpec
  import opened Fork
  import opened HeapViews
  import opened Processes
  import opened ScenarioHeaps
  import HeapGrowth
  import KHeapRuns

  function Blank(): (page: Page)
    ensures forall i :: 0 <= i < 4096 ==> page[i] == 0
  {
    seq(4096, i requires 0 <= i < 4096 => 0)
  }

  function BlankMemory(): (ram: seq<Page>)
    ensures |ram| == PAGES && forall f :: 0 <= f < PAGES ==> ram[f] == Blank()
  {
    seq<Page>(PAGES, i requires 0 <= i < PAGES => Blank())
  }

  ghost predicate NoUserPages(t: Tables, d: nat) {
    forall p :: 0 <= p < USER_PAGES ==> Lookup(t, d, p) == None
  }

  /** A machine fresh from boot, with heap `h` and cleared memory. */
  method BootMachine(h: HeapState) returns (m: Mmu)
    requires HeapOk(h) && BootSize(h)
    ensures fresh(m) && m.Valid() && m.Backed() && m.HeapMapped() && TopEmpty(m.tables, m.dirs, m.heap.end)
    ensures m.dirs == {m.kernelDir} && m.blocks == BOOT_LIST && m.heap == h && |FreeSet(m.used)| == 1024
    ensures NoUserPages(m.tables, m.kernelDir) && |m.ram| == PAGES && forall f :: 0 <= f < PAGES ==> m.ram[f] == Blank()
  {
    hide Lookup, Sound, ListOk, FrameFree, HeapOk, KernelHeld, HeapViewed, AllBacked, FreeSet, Usable;
    forall f
      ensures ListOk(BOOT_LIST) && (0x100 <= f < 0xC00 ==> !FrameFree(BOOT_LIST, f))
    {
      BootListOk(f);
    }
    BootListOk(0);
    m := new Mmu.Boot(0x110, 0x111, 0x112, 0x113, BOOT_LIST, BlankMemory(), h);
    HeapPages(h);
  }

  /** A space without user pages costs a directory and nothing else. */
  lemma EmptyIsCheap(s: Snapshot, used: seq<bool>, d: nat)
    requires NoUserPages(s.t, d)
    ensures MappedSlots(s.t, d) == {} && Ample(Start(s, used), d) == (|FreeSet(used)| > 0)
    ensures HeapBelow(s.heap, s.t, d, USER_PAGES) == Some(s.heap) && PhysBelow(s.bs, s.t, d, USER_PAGES) == Some(s.bs)
  {
    hide Lookup, FreeSet;
    UnmappedSkip(s.heap, AfterPiece, s.t, d, 0, USER_PAGES);
    UnmappedSkip(s.bs, AfterReserve, s.t, d, 0, USER_PAGES);
    forall i: nat | i < KERNEL_SLOT
      ensures !HasPage(s.t, d, i)
    {
      forall p: nat | p / 1024 == i
        ensures Lookup(s.t, d, p) == None
      {
        assert p < USER_PAGES;
      }
    }
    assert MappedSlots(s.t, d) == {};
  }

  /** The first process: a clone of the kernel's directory. */
  method FirstProcess(m: Mmu) returns (p: nat)
    requires m.Valid() && m.Backed() && m.HeapMapped() && TopEmpty(m.tables, m.dirs, m.heap.end)
    requires m.dirs == {m.kernelDir} && NoUserPages(m.tables, m.kernelDir) && |FreeSet(m.used)| > 0
    modifies m
    ensures m.Valid() && m.Backed() && m.HeapMapped() && TopEmpty(m.tables, m.dirs, m.heap.end)
    ensures p != m.kernelDir && m.dirs == {m.kernelDir, p} && NonEmpty(m.tables, p) == {}
    ensures NoUserPages(m.tables, m.kernelDir) && NoUserPages(m.tables, p)
    ensures m.blocks == old(m.blocks) && m.heap == old(m.heap) && m.kernelFrames == old(m.kernelFrames)
    ensures |FreeSet(m.used)| == |FreeSet(old(m.used))| - 1 && HeapAlike(m.tables, p, m.kernelDir, m.heap.end)
    ensures |m.ram| == PAGES && forall f :: f !in m.kernelFrames && 0 <= f < PAGES ==> m.ram[f] == old(m.ram)[f]
  {
    hide Lookup, Sound, ListOk, FrameFree, HeapOk, KernelHeld, HeapViewed, AllBacked, FreeSet, Forked, Replay, TopEmpty,
         HeapAlike, Ample, MappedSlots, NonEmpty, ReadByte, ChildByte, TrueBuffers, Apart, Usable;
    ghost var s0, dirs := Snap(m), m.dirs;
    EmptyIsCheap(s0, m.used, m.kernelDir);
    var r := CopyAddressSpace(m, m.kernelDir);
    p := r.value;
    EmptyChild(s0, Snap(m), dirs, m.kernelDir, p);
    TopForked(s0, Snap(m), dirs, m.kernelDir, m.kernelDir, p);
  }

  lemma EmptyChild(s0: Snapshot, s: Snapshot, dirs: set<nat>, kernel: nat, child: nat)
    requires Forked(s0, s, dirs, kernel, kernel, child, USER_PAGES) && kernel in dirs && NoUserPages(s0.t, kernel)
    requires HeapOk(s0.heap) && HeapViewed(s0.t, dirs, s0.heap.end, s0.kf)
    ensures NoUserPages(s.t, child) && NoUserPages(s.t, kernel) && s.kf == s0.kf
    ensures |s.ram| == PAGES && |s0.ram| == PAGES
    ensures s.bs == s0.bs ==> forall f :: f !in s0.kf && 0 <= f < PAGES ==> s.ram[f] == s0.ram[f]
  {
    hide Lookup, Got, BufferAt, FrameFree, HeapOk;
    forall p | 0 <= p < USER_PAGES
      ensures Lookup(s.t, child, p) == None && Lookup(s.t, kernel, p) == None
    {
      assert SamePage(s0, s, kernel, kernel, child, p);
      assert Lookup(s.t, kernel, p) == Lookup(s0.t, kernel, p);
    }
  }

  // ---------------------------------------------------------------- user pages

  /** Into an empty user half one page, or a 4 MiB page and one behind it, can be mapped at address 0. */
  lemma UserMappable(t: Tables, used: seq<bool>, d: nat, base: int, n: nat)
    requires NoUserPages(t, d) && NonEmpty(t, d) == {} && (n == 1 || n == 1025) && |FreeSet(used)| > 0
    requires base % 4096 == 0 && (n == 1025 ==> base % 0x40_0000 == 0)
    ensures Mappable(t, used, d, base, 0, n) && LargePages(0, n) == n - 1
  {
    hide Lookup, FreeSet, Touches;
    assert LargePages(0, n) == n - 1;
    UserNeed(t, d, n);
    forall p | 0 <= p < PAGES && Off(p, 0) < n
      ensures Lookup(t, d, p) == None && Entry(t, d, p / 1024) == 0
    {
      assert p / 1024 < KERNEL_SLOT && p / 1024 !in NonEmpty(t, d);
    }
  }

  lemma TouchesOne(v: nat, i: nat)
    requires v < PAGES
    ensures Touches(v, 1, i) <==> i == v / 1024
  {
    assert Off(v, v) == 0;
  }

  /** What process `p` looks like with `n` pages from address 0. */
  ghost predicate HasPages(t: Tables, p: nat, n: nat)
    requires 0 < n
  {
    && (forall x :: 0 <= x < n ==> Lookup(t, p, x).Some?)
    && (forall x :: n <= x < USER_PAGES ==> Lookup(t, p, x) == None)
    && !Large(Entry(t, p, (n - 1) / 1024)) && (n == 1025 ==> Large(Entry(t, p, 0)))
  }

  method MapUser(m: Mmu, p: nat, n: nat)
    requires m.Valid() && m.Backed() && m.HeapMapped() && TopEmpty(m.tables, m.dirs, m.heap.end)
    requires p in m.dirs && NoUserPages(m.tables, p) && NonEmpty(m.tables, p) == {} && (n == 1 || n == 1025)
    requires |FreeSet(m.used)| > 0 && HeapFits(m.heap, NODE) && Room(m.blocks, n * 4096)
    requires n == 1025 ==> FitBase(m.blocks, n * 4096) % 0x40_0000 == 0
    modifies m`tables, m`used, m`blocks, m`heap
    ensures m.Valid() && m.Backed() && m.HeapMapped() && TopEmpty(m.tables, m.dirs, m.heap.end)
    ensures HasPages(m.tables, p, n) && m.heap == HeapTake(old(m.heap), NODE) && m.heap.end == old(m.heap.end)
    ensures |FreeSet(m.used)| >= |FreeSet(old(m.used))| - 1
    ensures exists a: int, kind: int :: CarvedFirst(old(m.blocks), m.blocks, a, n * 4096, kind)
    ensures forall d, x :: d in m.dirs && USER_PAGES <= x < PAGES ==> Lookup(m.tables, d, x) == Lookup(old(m.tables), d, x)
  {
    hide Lookup, Sound, ListOk, FrameFree, HeapOk, KernelHeld, HeapViewed, AllBacked, Taken, Aside, FreeSet, Mappable,
         TopEmpty, CarvedFirst, UntouchedSame, FilledTo, SlotsKept, NonEmpty, TailNeed, Room, HeapFits, HeapTake, Occupied,
         Misaligned, Usable;
    ghost var t, h, bs := m.tables, m.heap, m.blocks;
    PageNumbers(0, n);
    BaseAligned(m.blocks, n * 4096);
    UserMappable(m.tables, m.used, p, FitBase(m.blocks, n * 4096), n);
    UserNeed(m.tables, p, n);
    var ok;
    ghost var first;
    ok, first := m.MapMemory(n * 4096, 0, p);
    NodeTaken(h);
    Moved(t, m.tables, m.dirs, p, 0, n, first, Access(p == m.kernelDir));
    HeapUnmoved(t, m.tables, m.dirs, p, 0, n, m.heap, m.kernelFrames);
    UserSlots(t, m.tables, p, 0, n);
    HeapPages(m.heap);
    TopKept(t, m.tables, m.dirs, p, m.heap.end);
    PagesThere(t, m.tables, m.dirs, p, n, first, Access(p == m.kernelDir));
    KernelPages(t, m.tables, m.dirs, p, n);
  }

  lemma BaseAligned(bs: seq<PBlock>, size: int)
    requires ListOk(bs) && Room(bs, size)
    ensures FitBase(bs, size) % 4096 == 0
  {
  }

  lemma UserNeed(t: Tables, d: nat, n: nat)
    requires n == 1 || n == 1025
    ensures |TailNeed(t, d, 0, n)| <= 1
  {
    hide Touches;
    var w: nat := n - 1;
    var s: nat := w / 1024;
    forall i | i in TailNeed(t, d, 0, n)
      ensures i == s
    {
      TouchesOne(w, i);
    }
    SubsetSize(TailNeed(t, d, 0, n), {s});
  }

  lemma PagesThere(t: Tables, t': Tables, dirs: set<nat>, p: nat, n: nat, first: nat, access: int)
    requires Progress(t, t', dirs, p, 0, n, first, access) && p in dirs && NoUserPages(t, p) && (n == 1 || n == 1025)
    requires LargeHead(t', p, 0, LargePages(0, n)) && SmallTail(t', p, 0, n)
    ensures HasPages(t', p, n)
  {
    hide Lookup;
    forall x | 0 <= x < USER_PAGES
      ensures x < n ==> Lookup(t', p, x).Some?
      ensures n <= x ==> Lookup(t', p, x) == None
    {
      assert Off(x, 0) == x;
    }
    assert Off(n - 1, 0) == n - 1 && LargePages(0, n) == n - 1;
    assert !LargeAt(t', p, n - 1);
    assert n == 1025 ==> LargeAt(t', p, 0) by {
      assert Off(0, 0) == 0;
    }
  }

  lemma KernelPages(t: Tables, t': Tables, dirs: set<nat>, dir: nat, n: nat)
    requires Outside(t, t', dirs, dir, 0, n) && n <= USER_PAGES
    ensures forall d, x :: d in dirs && USER_PAGES <= x < PAGES ==> Lookup(t', d, x) == Lookup(t, d, x)
  {
    hide Lookup;
    forall d, x | d in dirs && USER_PAGES <= x < PAGES
      ensures Lookup(t', d, x) == Lookup(t, d, x)
    {
      assert Off(x, 0) >= n;
    }
  }

  /** A 4 MiB page and a page. */
  function BothPieces<S>(y: S, f: (S, nat) -> Option<S>): Option<S> {
    match f(y, 1024)
    case None => None
    case Some(z) => f(z, 1)
  }

  /** What copying such a process takes. */
  lemma PagesTake<S>(y: S, f: (S, nat) -> Option<S>, t: Tables, p: nat, n: nat)
    requires (n == 1 || n == 1025) && HasPages(t, p, n)
    ensures n == 1 ==> IsPiece(t, p, 0, 1) && Replay(y, f, t, p, USER_PAGES) == f(y, 1)
    ensures n == 1025 ==> Replay(y, f, t, p, USER_PAGES) == BothPieces(y, f)
    ensures |MappedSlots(t, p)| <= 2
  {
    hide Lookup, Large;
    assert Replay(y, f, t, p, 0) == Some(y);
    if n == 1025 {
      ReplayPiece(y, f, t, p, 0, 1024);
    }
    assert IsPiece(t, p, n - 1, 1);
    ReplayPiece(y, f, t, p, n - 1, 1);
    UnmappedSkip(y, f, t, p, n, USER_PAGES - n);
    FewSlots(t, p, n);
  }

  lemma FewSlots(t: Tables, p: nat, n: nat)
    requires (n == 1 || n == 1025) && HasPages(t, p, n)
    ensures |MappedSlots(t, p)| <= 2
  {
    hide Lookup, Large;
    forall i | i in MappedSlots(t, p)
      ensures i in {0, 1}
    {
      var x: nat :| x / 1024 == i && Lookup(t, p, x).Some?;
      assert x < USER_PAGES && x < n;
    }
    SubsetSize(MappedSlots(t, p), {0, 1});
  }

  // ---------------------------------------------------------------- a fork that does not return

  /** At boot size: a process with a 4 MiB page cannot be forked, though memory, frames and heap are all but untouched. */
  method LargeForkHalts() returns (large: bool, r: Option<nat>)
    ensures large && r == None
  {
    hide Lookup, Sound, ListOk, FrameFree, HeapOk, KernelHeld, HeapViewed, AllBacked, FreeSet, Forked, Replay, TopEmpty,
         MappedSlots, NonEmpty, HeapFits, HeapTake, BootSize, Plain, ReadByte, ChildByte, Usable;
    PlainBoot();
    PlainFits(0, 0xC0C0_0000, NODE);
    var m := BootMachine(KHeapRuns.INITIAL);
    var p := FirstProcess(m);
    BootRoom(1025 * 4096);
    NodeTaken(m.heap);
    SameSize(KHeapRuns.INITIAL, HeapTake(KHeapRuns.INITIAL, NODE));
    MapUser(m, p, 1025);
    large := Large(Entry(m.tables, p, 0));
    LargePageFails(m.heap, m.tables, p, 0, USER_PAGES);
    r := CopyAddressSpace(m, p);
  }

  lemma BootRoom(size: int)
    requires 0 <= size <= 0x73E_0000 && size > 0x9_F000
    ensures Room(BOOT_LIST, size) && FitBase(BOOT_LIST, size) == 0xC0_0000
  {
    assert Fits(BOOT_LIST[5], size);
    assert forall i :: 0 <= i < 5 ==> !Fits(BOOT_LIST[i], size);
    assert FirstFit(BOOT_LIST, size) == 5;
  }

  // ---------------------------------------------------------------- a fork that returns

  /** The boot list after `k` chunks for the kernel. */
  function BootAfter(k: nat): seq<PBlock> {
    BOOT_LIST[..5] + seq(k, i requires 0 <= i < k => PBlock(0xC0_0000 + i * CHUNK_SIZE, CHUNK_SIZE, KERNELF))
    + [PBlock(0xC0_0000 + k * CHUNK_SIZE, 0x73E_0000 - k * CHUNK_SIZE, FREE), BOOT_LIST[6]]
  }

  lemma BootAfterFit(k: nat, size: int)
    requires k <= 4 && 0x9_F000 < size <= 0x63E_0000
    ensures Room(BootAfter(k), size) && FirstFit(BootAfter(k), size) == 5 + k
    ensures FitBase(BootAfter(k), size) == 0xC0_0000 + k * CHUNK_SIZE
  {
    var bs := BootAfter(k);
    assert |bs| == 7 + k && Fits(bs[5 + k], size);
    assert forall i :: 0 <= i < 5 + k ==> !Fits(bs[i], size);
  }

  lemma BootAfterChunk(k: nat)
    requires k <= 3
    ensures Chunks(BootAfter(k), 1) == Some(BootAfter(k + 1))
  {
    BootAfterFit(k, CHUNK_SIZE);
    var bs, bs' := BootAfter(k), BootAfter(k + 1);
    assert Chunks(bs, 0) == Some(bs);
    assert Carve(bs, 5 + k, CHUNK_SIZE, KERNELF) == bs';
  }

  lemma BootAfterNone()
    ensures BootAfter(0) == BOOT_LIST
  {
  }

  /** One expansion before there is a second address space. */
  method GrowAlone(m: Mmu, ghost k: nat)
    requires m.Valid() && m.Backed() && m.HeapMapped() && TopEmpty(m.tables, m.dirs, m.heap.end)
    requires m.dirs == {m.kernelDir} && NoUserPages(m.tables, m.kernelDir) && |FreeSet(m.used)| > 0
    requires k <= 1 && m.blocks == BootAfter(k) && m.heap == Plain(k, 0xC0C0_0000 + k * CHUNK_SIZE)
    modifies m`tables, m`used, m`blocks, m`heap, m`kernelFrames
    ensures m.Valid() && m.Backed() && m.HeapMapped() && TopEmpty(m.tables, m.dirs, m.heap.end)
    ensures NoUserPages(m.tables, m.kernelDir) && |FreeSet(m.used)| == |FreeSet(old(m.used))| - 1
    ensures m.blocks == BootAfter(k + 1) && m.heap == Plain(k + 1, 0xC0C0_0000 + (k + 1) * CHUNK_SIZE)
  {
    hide Lookup, Sound, ListOk, FrameFree, HeapOk, KernelHeld, HeapViewed, AllBacked, FreeSet, TopEmpty, HeapFits, HeapTake,
         Plain, BootAfter, Chunks, HeapGrowth.Nodes, ChunkOnly, Shrunk, Usable;
    PlainChain(k);
    BootAfterChunk(k);
    ghost var t := m.tables;
    HeapPages(m.heap);
    ghost var end := m.heap.end;
    var ok := ExpandHeap(m, []);
    UserPagesKept(t, m.tables, m.dirs, end / 4096);
  }

  lemma PlainChain(k: nat)
    requires k <= 2
    ensures var end := 0xC0C0_0000 + k * CHUNK_SIZE;
            && PlainOk(k, end) && HeapOk(Plain(k, end)) && HeapFits(Plain(k, end), NODE) && Plain(k, end).end == end
            && HeapGrowth.Nodes(Plain(k, end), 1) == Some(Plain(k + 1, end))
            && KHeapRuns.Grow(Plain(k + 1, end)) == Plain(k + 1, end + CHUNK_SIZE)
  {
    PlainBoot();
    var end := 0xC0C0_0000 + k * CHUNK_SIZE;
    PlainFits(k, end, NODE);
    PlainNode(k, end);
    PlainGrows(k + 1, end);
  }

  /** With a heap that has grown twice before the first process: a space with a 4 MiB page is forked, and every byte
      reads alike in parent and child. */
  method LargeForkReturns() returns (m: Mmu, p: nat, r: Option<nat>)
    ensures r.Some? && r.value in m.dirs && p in m.dirs && r.value != p && Large(Entry(m.tables, p, 0))
    ensures forall va :: 0 <= va < USER_TOP ==> ReadByte(Snap(m), r.value, va) == ReadByte(Snap(m), p, va)
    ensures Apart(m.tables, p, r.value)
  {
    hide Lookup, Sound, ListOk, FrameFree, HeapOk, KernelHeld, HeapViewed, AllBacked, FreeSet, Replay, TopEmpty, Forked,
         MappedSlots, NonEmpty, HeapFits, HeapTake, Plain, BootAfter, ReadByte, ChildByte, TrueBuffers, Apart, HeapAlike, Room,
         AfterPiece, AfterReserve, CarvedFirst, Usable;
    PlainBoot();
    PlainFits(0, 0xC0C0_0000, NODE);
    BootAfterNone();
    m := BootMachine(KHeapRuns.INITIAL);
    GrowAlone(m, 0);
    GrowAlone(m, 1);
    p := FirstProcess(m);
    PlainChain(2);
    PlainNode(2, m.heap.end);
    BootAfterFit(2, 1025 * 4096);
    ghost var t := m.tables;
    MapUser(m, p, 1025);
    ghost var s0, dirs := Snap(m), m.dirs;
    StillAlike(t, m.tables, m.dirs, p, m.kernelDir, m.heap);
    PlainTakesBoth(m.heap.end);
    BootTakesBoth(m.blocks);
    PagesTake(m.heap, AfterPiece, m.tables, p, 1025);
    PagesTake(m.blocks, AfterReserve, m.tables, p, 1025);
    r := CopyAddressSpace(m, p);
    ForkedEntry(s0, Snap(m), dirs, m.kernelDir, p, r.value);
  }

  lemma StillAlike(t: Tables, t': Tables, dirs: set<nat>, p: nat, kernel: nat, h: HeapState)
    requires HeapOk(h) && HeapAlike(t, p, kernel, h.end) && p in dirs && kernel in dirs
    requires forall d, x :: d in dirs && USER_PAGES <= x < PAGES ==> Lookup(t', d, x) == Lookup(t, d, x)
    ensures HeapAlike(t', p, kernel, h.end)
  {
    hide Lookup, HeapOk;
    HeapPages(h);
  }

  lemma PlainTakesBoth(end: int)
    requires end == 0xC0C0_0000 + 2 * CHUNK_SIZE
    ensures BothPieces(Plain(3, end), AfterPiece).Some?
  {
    hide HeapFits, HeapTake, AfterPiece, HeapOk;
    PlainBoot();
    var room := 2 * CHUNK_SIZE;
    PlainFits(3, end, room);
    RoomForPiece(Plain(3, end), 1024, room);
    RoomForPiece(AfterPiece(Plain(3, end), 1024).value, 1, room - PieceRoom(1024));
  }

  lemma BootTakesBoth(bs: seq<PBlock>)
    requires exists a: int, kind: int :: CarvedFirst(BootAfter(2), bs, a, 1025 * 4096, kind)
    ensures BothPieces(bs, AfterReserve).Some?
  {
    hide Room, CarvedFirst, BootAfter;
    var total := 0x600_0000;
    BootAfterFit(2, total);
    var a: int, kind: int :| CarvedFirst(BootAfter(2), bs, a, 1025 * 4096, kind);
    CarveRoom(BootAfter(2), bs, a, 1025 * 4096, kind, total);
    ReserveLeaves(bs, 1024, total - 1025 * 4096);
    ReserveLeaves(AfterReserve(bs, 1024).value, 1, total - 2049 * 4096);
  }

  lemma ReserveLeaves(bs: seq<PBlock>, n: nat, room: int)
    requires Room(bs, room) && n * 4096 <= room
    ensures AfterReserve(bs, n).Some? && Room(AfterReserve(bs, n).value, room - n * 4096)
  {
    hide Room, CarvedFirst;
    RoomMono(bs, room, n * 4096);
    AfterIsCarved(bs, n);
    CarveRoom(bs, AfterReserve(bs, n).value, FitBase(bs, n * 4096), n * 4096, USER, room);
  }

  lemma ForkedEntry(s0: Snapshot, s: Snapshot, dirs: set<nat>, kernel: nat, parent: nat, child: nat)
    requires Forked(s0, s, dirs, kernel, parent, child, USER_PAGES) && parent in dirs
    ensures Entry(s.t, parent, 0) == Entry(s0.t, parent, 0)
  {
    hide Lookup, Copied;
  }

  // ---------------------------------------------------------------- a fork that returns with wrong bytes

  lemma RoomAfter(bs: seq<PBlock>, bs': seq<PBlock>, size: int, total: int)
    requires Room(bs, total) && 0 <= size <= total
    requires exists a: int, kind: int :: CarvedFirst(bs, bs', a, size, kind)
    ensures Room(bs', total - size)
  {
    hide Room, CarvedFirst;
    var a: int, kind: int :| CarvedFirst(bs, bs', a, size, kind);
    CarveRoom(bs, bs', a, size, kind, total);
  }

  /** A stored byte is read back, and no other frame has changed. */
  lemma StoredByte(s: Snapshot, s': Snapshot, d: nat, b: Byte)
    requires |s.ram| == PAGES && s.t.Keys <= s.kf && BackedDir(s, d) && Lookup(s.t, d, 0).Some? && s' == WriteByte(s, d, 0, b)
    ensures ReadByte(s', d, 0) == Some(b) && s' == s.(ram := s'.ram) && |s'.ram| == PAGES
    ensures forall f :: 0 <= f < PAGES && f != FrameAt(s.t, d, 0) ==> s'.ram[f] == s.ram[f]
  {
    hide Lookup, FrameFree, PeekByte, PokeByte;
    FrameBound(s.t, d, 0);
    assert UserFrame(s.kf, s.bs, FrameAt(s.t, d, 0));
  }

  lemma SameByte(s: Snapshot, s': Snapshot, d: nat)
    requires s'.ram == s.ram && s'.t.Keys == s.t.Keys && Lookup(s'.t, d, 0) == Lookup(s.t, d, 0) && s.t.Keys <= s.kf
    requires BackedDir(s, d)
    ensures ReadByte(s', d, 0) == ReadByte(s, d, 0)
  {
    hide Lookup, FrameFree, PeekByte;
  }

  lemma SamePages(t: Tables, t': Tables, d: nat)
    requires HasPages(t, d, 1) && Entry(t', d, 0) == Entry(t, d, 0)
    requires forall x :: 0 <= x < USER_PAGES ==> Lookup(t', d, x) == Lookup(t, d, x)
    ensures HasPages(t', d, 1) && Lookup(t', d, 0).Some?
  {
    hide Lookup, Large;
  }

  /** What the child gets of page 0 when its buffer lies in the second chunk, which parent and kernel see differently. */
  lemma StaleByte(s0: Snapshot, kernel: nat, p: nat)
    requires |s0.ram| == PAGES && HasPages(s0.t, p, 1) && s0.heap == Crowded(3, [SECOND], 0xC100_0000)
    requires FrameAt(s0.t, p, 0xC_0C00) != FrameAt(s0.t, kernel, 0xC_0C00)
    requires FrameAt(s0.t, p, 0xC_0C01) != FrameAt(s0.t, kernel, 0xC_0C01)
    requires s0.ram[FrameAt(s0.t, kernel, 0xC_0C00)] == Blank()
    ensures ChildByte(s0, kernel, p, 0) == Some(0)
  {
    hide Lookup, Replay, HeapFits, HeapTake, TakenAt, Crowded, Large, Through, FrameAt;
    CrowdedRun();
    CrowdedBuffer(4);
    PagesTake(s0.heap, AfterPiece, s0.t, p, 1);
    assert HeapBelow(s0.heap, s0.t, p, 0) == Some(s0.heap) by {
      StartsThere(s0.heap, s0.t, p);
    }
    BufferOfPiece(s0.heap, s0.t, p, 0, 1, s0.heap, 0);
    assert BufferAt(s0.heap, s0.t, p, 0) == 0xC0C0_0008;
    FrameBound(s0.t, p, 0);
    ArrivalOther(s0.t, s0.ram, p, kernel, 0xC0C0_0008, s0.ram[Lookup(s0.t, p, 0).value.frame]);
  }

  lemma StartsThere(h: HeapState, t: Tables, d: nat)
    ensures HeapBelow(h, t, d, 0) == Some(h)
  {
  }

  /** A process that was there when the heap grew stores a byte; its child does not read that byte, but what the
      kernel's own frames of the new part of the heap held. */
  method StaleFork() returns (m: Mmu, p: nat, r: Option<nat>)
    ensures r.Some? && p in m.dirs && r.value in m.dirs
    ensures ReadByte(Snap(m), p, 0) == Some(65) && ReadByte(Snap(m), r.value, 0) == Some(0)
  {
    hide Lookup, Sound, ListOk, FrameFree, HeapOk, KernelHeld, HeapViewed, FreeSet, Replay, TopEmpty, Forked, MappedSlots,
         NonEmpty, HeapFits, HeapTake, Crowded, ReadByte, ChildByte, TrueBuffers, Apart, HeapAlike, Room, AfterPiece,
         AfterReserve, CarvedFirst, WriteByte, HasPages, AllBacked, NoUserPages, Usable;
    m, p := StalePrepared();
    ghost var s0 := Snap(m);
    CrowdedRun();
    PagesTake(m.heap, AfterPiece, m.tables, p, 1);
    PagesTake(m.blocks, AfterReserve, m.tables, p, 1);
    ReserveLeaves(m.blocks, 1, 0x500_0000);
    StaleByte(s0, m.kernelDir, p);
    r := CopyAddressSpace(m, p);
  }

  /** The state before that fork: a process with one page, a byte in it, and a heap that has grown since. */
  method StalePrepared() returns (m: Mmu, p: nat)
    ensures fresh(m) && m.Valid() && m.Backed() && m.HeapMapped() && p in m.dirs && HasPages(m.tables, p, 1)
    ensures m.heap == Crowded(3, [SECOND], 0xC100_0000) && |FreeSet(m.used)| > 2 && Room(m.blocks, 0x500_0000)
    ensures ReadByte(Snap(m), p, 0) == Some(65)
    ensures FrameAt(m.tables, p, 0xC_0C00) != FrameAt(m.tables, m.kernelDir, 0xC_0C00)
    ensures FrameAt(m.tables, p, 0xC_0C01) != FrameAt(m.tables, m.kernelDir, 0xC_0C01)
    ensures m.ram[FrameAt(m.tables, m.kernelDir, 0xC_0C00)] == Blank()
  {
    hide Lookup, Sound, ListOk, FrameFree, HeapOk, KernelHeld, HeapViewed, FreeSet, TopEmpty, AllBacked,
         NonEmpty, HeapFits, HeapTake, Crowded, ReadByte, HeapAlike, Room, CarvedFirst, WriteByte, ChunkOnly, Shrunk, Chunks,
         HeapGrowth.Nodes, KHeapRuns.Grow, HasPages, BootSize, FrameAt, Lists, Usable;
    CrowdedRun();
    CrowdedEnd(1, [], 0xC0C0_0000);
    CrowdedEnd(3, [SECOND], 0xC100_0000);
    m := BootMachine(Crowded(0, [], 0xC0C0_0000));
    p := FirstProcess(m);
    ghost var kf0, ram0 := m.kernelFrames, m.ram;
    BootRoom(0x600_0000);
    RoomMono(m.blocks, 0x600_0000, 4096);
    MapUser(m, p, 1);
    RoomAfter(BOOT_LIST, m.blocks, 4096, 0x600_0000);
    FirstPageThere(m.tables, p);
    ghost var s1 := Snap(m);
    BackedOne(s1, m.dirs, p);
    StoreUser(m, p, 0, 65);
    StoredByte(s1, Snap(m), p, 65);
    ghost var s2 := Snap(m);
    ChunksSuffice(m.blocks, 2, 0x600_0000 - 4096);
    OneOther(m.dirs, m.kernelDir, p);
    var ok := ExpandHeap(m, [p]);
    RoomMono(m.blocks, 0x600_0000 - 4096 - 2 * CHUNK_SIZE, 0x500_0000);
    ghost var s3 := Snap(m);
    UserPagesKept(s2.t, m.tables, m.dirs, 0xC_0C00);
    SamePages(s2.t, m.tables, p);
    SameByte(s2, s3, p);
    BackedOne(s3, m.dirs, p);
    SameFrame(s2.t, s3.t, p);
    ChunkFrame(s3, m.dirs, m.kernelDir, p, kf0);
  }

  lemma SameFrame(t: Tables, t': Tables, d: nat)
    requires Lookup(t', d, 0) == Lookup(t, d, 0)
    ensures FrameAt(t', d, 0) == FrameAt(t, d, 0)
  {
  }

  /** Kernel and process have page `x` in different frames, the kernel's being none of `kf`. */
  ghost predicate SeenApart(t: Tables, kernel: nat, p: nat, x: nat, kf: set<nat>) {
    && Lookup(t, p, x).Some? && Lookup(t, kernel, x).Some?
    && Lookup(t, p, x).value.frame != Lookup(t, kernel, x).value.frame && Lookup(t, kernel, x).value.frame !in kf
  }

  lemma FirstPageThere(t: Tables, p: nat)
    requires HasPages(t, p, 1)
    ensures Lookup(t, p, 0).Some?
  {
  }

  lemma BackedOne(s: Snapshot, dirs: set<nat>, d: nat)
    requires AllBacked(s.t, dirs, s.kf, s.bs) && d in dirs
    ensures BackedDir(s, d)
  {
  }

  lemma OneOther(dirs: set<nat>, kernel: nat, p: nat)
    requires dirs == {kernel, p} && kernel != p
    ensures Lists([p], dirs, kernel)
  {
  }

  /** The frames of the kernel's view of the chunk are new, not the process's own, and still hold nothing. */
  lemma ChunkFrame(s: Snapshot, dirs: set<nat>, kernel: nat, p: nat, kf0: set<nat>)
    requires |s.ram| == PAGES && kernel in dirs && p in dirs && BackedDir(s, p) && Lookup(s.t, p, 0).Some?
    requires HeapViewed(s.t, dirs, 0xC100_0000, s.kf)
    requires SeenApart(s.t, kernel, p, 0xC_0C00, kf0) && SeenApart(s.t, kernel, p, 0xC_0C01, kf0)
    requires forall f :: 0 <= f < PAGES && f !in kf0 && f != FrameAt(s.t, p, 0) ==> s.ram[f] == Blank()
    ensures FrameAt(s.t, p, 0xC_0C00) != FrameAt(s.t, kernel, 0xC_0C00)
    ensures FrameAt(s.t, p, 0xC_0C01) != FrameAt(s.t, kernel, 0xC_0C01)
    ensures s.ram[FrameAt(s.t, kernel, 0xC_0C00)] == Blank()
  {
    hide Lookup, FrameFree, Blank;
    assert Lookup(s.t, kernel, 0xC_0C00).Some? && Lookup(s.t, kernel, 0xC_0C01).Some?;
    assert UserFrame(s.kf, s.bs, FrameAt(s.t, p, 0));
    assert FrameAt(s.t, kernel, 0xC_0C00) in s.kf;
  }
}
