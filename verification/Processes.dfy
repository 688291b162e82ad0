/** Address spaces over whole runs: forking, mapping fresh memory, unmapping, stores by user programs, and growth of the
    kernel heap. */
module Processes {
  import opened Machine
  import opened PageTables
  import opened Physical
  import opened Paging
  import opened HeapUse
  import opened ForkHeap
  import opened ForkSpec
  import opened Fork
  import opened CopyBuffer
  import opened HeapViews

  /** Memory, the directories in existence, for each directory and address the byte last stored there (by the process
      itself, or before the fork by the one it was forked from), and the directories made since the heap last grew. */
  datatype World = World(s: Snapshot, dirs: set<nat>, stored: map<(nat, nat), Byte>, alike: set<nat>)

  ghost predicate Private(s: Snapshot, dirs: set<nat>) {
    && |s.ram| == PAGES && s.t.Keys <= s.kf && KernelHeld(s.kf, s.bs)
    && (forall d :: d in dirs ==> BackedDir(s, d) && Injective(s.t, d))
    && (forall d, e :: d in dirs && e in dirs && d != e ==> Apart(s.t, d, e))
  }

  /** Every byte reads as it was last stored. */
  ghost predicate Remembered(w: World) {
    forall k :: k in w.stored ==> k.0 in w.dirs && k.1 < USER_TOP && ReadByte(w.s, k.0, k.1) == Some(w.stored[k])
  }

  ghost predicate Ok(w: World) {
    Private(w.s, w.dirs) && Remembered(w)
  }

  // ---------------------------------------------------------------- the calls

  datatype Op =
    | OpFork(parent: nat)
    | OpMap(dir: nat, v: nat, n: nat)
    | OpUnmap(dir: nat, v: nat, n: nat)
    | OpStore(dir: nat, va: nat, b: Byte)
    | OpExpand(others: seq<nat>)

  /** The child inherits what the parent had stored, but for the pages that passed through parts of the heap that
      parent and kernel see differently. */
  ghost function Inherited(w: World, kernel: nat, parent: nat, child: nat): map<(nat, nat), Byte> {
    w.stored + map k | k in w.stored && k.0 == parent && TruePage(w.s, kernel, parent, k.1 / 4096) :: (child, k.1) := w.stored[k]
  }

  /** What is stored outside the `n` pages from `v` of `dir`. */
  ghost function Outlying(stored: map<(nat, nat), Byte>, dir: nat, v: nat, n: nat): map<(nat, nat), Byte> {
    map k | k in stored && !(k.0 == dir && Off(k.1 / 4096, v) < n) :: stored[k]
  }

  ghost predicate ForkStep(w: World, parent: nat, w': World, kernel: nat, child: nat) {
    && parent in w.dirs && child !in w.dirs && w'.dirs == w.dirs + {child} && w'.s.t.Keys == w.s.t.Keys
    && Forked(w.s, w'.s, w.dirs, kernel, parent, child, USER_PAGES)
    && w'.stored == Inherited(w, kernel, parent, child) && w'.alike == w.alike + {child}
    && (parent in w.alike ==> TrueBuffers(w.s, kernel, parent))
  }

  ghost predicate MapStep(w: World, dir: nat, v: nat, n: nat, w': World, first: nat, access: int) {
    && dir in w.dirs && v < PAGES && n < PAGES && first + n <= PAGES && w'.dirs == w.dirs && w'.stored == w.stored
    && w'.alike == w.alike
    && Progress(w.s.t, w'.s.t, w.dirs, dir, v, n, first, access) && Taken(w.s.bs, w'.s.bs, first, n)
    && w'.s.t.Keys == w.s.t.Keys && w'.s.ram == w.s.ram && w'.s.kf == w.s.kf
  }

  ghost predicate UnmapStep(w: World, dir: nat, v: nat, n: nat, w': World) {
    && dir in w.dirs && v < PAGES && n < PAGES && w'.dirs == w.dirs && w'.stored == Outlying(w.stored, dir, v, n)
    && Cleared(w.s.t, w'.s.t, w.dirs, dir, v, n)
    && w'.s.t.Keys == w.s.t.Keys && w'.s == w.s.(t := w'.s.t) && w'.alike == w.alike
  }

  ghost predicate StoreStep(w: World, dir: nat, va: nat, b: Byte, w': World) {
    && dir in w.dirs && va < USER_TOP && Lookup(w.s.t, dir, va / 4096).Some?
    && w'.s == WriteByte(w.s, dir, va, b) && w'.dirs == w.dirs && w'.stored == w.stored[(dir, va) := b]
    && w'.alike == w.alike
  }

  /** The kernel heap has grown, in frames that were free. */
  ghost predicate ExpandStep(w: World, w': World, kernel: nat) {
    && w'.alike == {kernel}
    && w'.dirs == w.dirs && w'.stored == w.stored && w'.s.ram == w.s.ram && w'.s.t.Keys == w.s.t.Keys
    && (forall d, p :: d in w.dirs && 0 <= p < USER_PAGES ==> Lookup(w'.s.t, d, p) == Lookup(w.s.t, d, p))
    && Shrunk(w.s.bs, w'.s.bs) && w.s.kf <= w'.s.kf && KernelHeld(w'.s.kf, w'.s.bs)
    && forall f :: f in w'.s.kf && f !in w.s.kf ==> FrameFree(w.s.bs, f)
  }

  ghost predicate Step(w: World, op: Op, w': World, kernel: nat) {
    match op
    case OpFork(parent) => exists child: nat :: ForkStep(w, parent, w', kernel, child)
    case OpMap(dir, v, n) => exists first: nat, access: int :: MapStep(w, dir, v, n, w', first, access)
    case OpUnmap(dir, v, n) => UnmapStep(w, dir, v, n, w')
    case OpStore(dir, va, b) => StoreStep(w, dir, va, b, w')
    case OpExpand(others) => ExpandStep(w, w', kernel)
  }

  // ---------------------------------------------------------------- what each call keeps

  lemma ForkKeeps(w: World, parent: nat, w': World, kernel: nat, child: nat)
    requires Ok(w) && ForkStep(w, parent, w', kernel, child)
    ensures Ok(w')
  {
    hide ReadByte, Lookup, FrameFree, Copied, EmptyFrom, RamKept, SharesKernel, ChildByte, TrueBuffers, TruePage, UnseenKept;
    ForkMeaning(w.s, w'.s, w.dirs, kernel, parent, child);
    forall k | k in w'.stored
      ensures k.0 in w'.dirs && k.1 < USER_TOP && ReadByte(w'.s, k.0, k.1) == Some(w'.stored[k])
    {
      if k !in w.stored {
        assert k.0 == child && (parent, k.1) in w.stored && w'.stored[k] == w.stored[(parent, k.1)];
        TrueByte(w.s, kernel, parent, k.1);
      } else {
        assert k.0 != child;
      }
    }
    forall d | d in w'.dirs
      ensures Injective(w'.s.t, d)
    {
      if d in w.dirs {
        SameInjective(w.s.t, w'.s.t, d);
      }
    }
    forall d, e | d in w'.dirs && e in w'.dirs && d != e
      ensures Apart(w'.s.t, d, e)
    {
      if d in w.dirs && e in w.dirs {
        SameApart(w.s.t, w'.s.t, d, e);
      } else if e in w.dirs {
        ApartBack(w'.s.t, e, child);
      }
    }
    ShrunkHeld(w.s, w'.s);
  }

  lemma SameInjective(t: Tables, t': Tables, d: nat)
    requires Injective(t, d) && forall p :: 0 <= p < USER_PAGES ==> Lookup(t', d, p) == Lookup(t, d, p)
    ensures Injective(t', d)
  {
    hide Lookup;
  }

  lemma SameApart(t: Tables, t': Tables, d: nat, e: nat)
    requires Apart(t, d, e) && forall p :: 0 <= p < USER_PAGES ==> Lookup(t', d, p) == Lookup(t, d, p)
    requires forall p :: 0 <= p < USER_PAGES ==> Lookup(t', e, p) == Lookup(t, e, p)
    ensures Apart(t', d, e)
  {
    hide Lookup;
  }

  lemma ApartBack(t: Tables, d: nat, e: nat)
    requires Apart(t, d, e)
    ensures Apart(t, e, d)
  {
    hide Lookup;
  }

  lemma ShrunkHeld(s: Snapshot, s': Snapshot)
    requires KernelHeld(s.kf, s.bs) && Shrunk(s.bs, s'.bs) && s'.kf == s.kf
    ensures KernelHeld(s'.kf, s'.bs)
  {
    hide FrameFree;
  }

  /** User page `p` of `d` after mapping: as before, or one of the fresh frames. */
  lemma MappedPage(w: World, dir: nat, v: nat, n: nat, w': World, first: nat, access: int, d: nat, p: nat)
    requires MapStep(w, dir, v, n, w', first, access) && d in w.dirs && p < USER_PAGES
    ensures if d == dir && Off(p, v) < n then Lookup(w.s.t, d, p) == None
              && Lookup(w'.s.t, d, p) == Some(Leaf(first + Off(p, v), access))
            else Lookup(w'.s.t, d, p) == Lookup(w.s.t, d, p)
  {
    hide Lookup;
  }

  lemma MapKeeps(w: World, dir: nat, v: nat, n: nat, w': World, first: nat, access: int)
    requires Ok(w) && MapStep(w, dir, v, n, w', first, access)
    ensures Ok(w')
  {
    hide Lookup, FrameFree, Progress;
    forall d | d in w.dirs
      ensures BackedDir(w'.s, d) && Injective(w'.s.t, d)
    {
      MapKeepsDir(w, dir, v, n, w', first, access, d);
    }
    forall d, e | d in w.dirs && e in w.dirs && d != e
      ensures Apart(w'.s.t, d, e)
    {
      MapKeepsApart(w, dir, v, n, w', first, access, d, e);
    }
    forall k | k in w.stored
      ensures ReadByte(w'.s, k.0, k.1) == Some(w.stored[k])
    {
      MappedPage(w, dir, v, n, w', first, access, k.0, k.1 / 4096);
    }
  }

  lemma MapKeepsDir(w: World, dir: nat, v: nat, n: nat, w': World, first: nat, access: int, d: nat)
    requires Private(w.s, w.dirs) && MapStep(w, dir, v, n, w', first, access) && d in w.dirs
    ensures BackedDir(w'.s, d) && Injective(w'.s.t, d)
  {
    hide Lookup, FrameFree, Progress, Apart;
    assert BackedDir(w.s, d) && Injective(w.s.t, d);
    forall p | 0 <= p < USER_PAGES && Lookup(w'.s.t, d, p).Some?
      ensures UserFrame(w'.s.kf, w'.s.bs, Lookup(w'.s.t, d, p).value.frame)
    {
      MappedPage(w, dir, v, n, w', first, access, d, p);
    }
    forall p, q | 0 <= p < q < USER_PAGES && Lookup(w'.s.t, d, p).Some? && Lookup(w'.s.t, d, q).Some?
      ensures Lookup(w'.s.t, d, p).value.frame != Lookup(w'.s.t, d, q).value.frame
    {
      MappedPage(w, dir, v, n, w', first, access, d, p);
      MappedPage(w, dir, v, n, w', first, access, d, q);
    }
  }

  lemma MapKeepsApart(w: World, dir: nat, v: nat, n: nat, w': World, first: nat, access: int, d: nat, e: nat)
    requires Private(w.s, w.dirs) && MapStep(w, dir, v, n, w', first, access) && d in w.dirs && e in w.dirs && d != e
    ensures Apart(w'.s.t, d, e)
  {
    hide Lookup, FrameFree, Progress, Injective;
    assert Apart(w.s.t, d, e) && BackedDir(w.s, d) && BackedDir(w.s, e);
    forall p, q | 0 <= p < USER_PAGES && 0 <= q < USER_PAGES && Lookup(w'.s.t, d, p).Some? && Lookup(w'.s.t, e, q).Some?
      ensures Lookup(w'.s.t, d, p).value.frame != Lookup(w'.s.t, e, q).value.frame
    {
      MappedPage(w, dir, v, n, w', first, access, d, p);
      MappedPage(w, dir, v, n, w', first, access, e, q);
    }
  }

  /** User page `p` of `d` after unmapping: as before, or gone. */
  lemma UnmappedPage(w: World, dir: nat, v: nat, n: nat, w': World, d: nat, p: nat)
    requires UnmapStep(w, dir, v, n, w') && d in w.dirs && p < USER_PAGES
    ensures Lookup(w'.s.t, d, p) == if d == dir && Off(p, v) < n then None else Lookup(w.s.t, d, p)
  {
    hide Lookup;
  }

  lemma UnmapKeeps(w: World, dir: nat, v: nat, n: nat, w': World)
    requires Ok(w) && UnmapStep(w, dir, v, n, w')
    ensures Ok(w')
  {
    hide Lookup, FrameFree, Cleared;
    forall d, p | d in w.dirs && 0 <= p < USER_PAGES
      ensures Lookup(w'.s.t, d, p).Some? ==> Lookup(w'.s.t, d, p) == Lookup(w.s.t, d, p)
    {
      UnmappedPage(w, dir, v, n, w', d, p);
    }
    forall k | k in w'.stored
      ensures ReadByte(w'.s, k.0, k.1) == Some(w'.stored[k])
    {
      UnmappedPage(w, dir, v, n, w', k.0, k.1 / 4096);
    }
    forall d | d in w.dirs
      ensures BackedDir(w'.s, d) && Injective(w'.s.t, d)
    {
      assert BackedDir(w.s, d) && Injective(w.s.t, d);
    }
    forall d, e | d in w.dirs && e in w.dirs && d != e
      ensures Apart(w'.s.t, d, e)
    {
      assert Apart(w.s.t, d, e);
    }
  }

  /** A store changes the byte it is meant for and no other byte of any process. */
  lemma StoreReads(w: World, dir: nat, va: nat, b: Byte, w': World, d: nat, x: nat)
    requires Private(w.s, w.dirs) && StoreStep(w, dir, va, b, w') && d in w.dirs && x < USER_TOP
    ensures w'.s == w.s.(ram := w'.s.ram) && |w'.s.ram| == PAGES
    ensures ReadByte(w'.s, d, x) == if d == dir && x == va then Some(b) else ReadByte(w.s, d, x)
  {
    hide Lookup, FrameFree, PeekByte, PokeByte, Injective, Apart, KernelHeld, Usable;
    assert BackedDir(w.s, dir) && BackedDir(w.s, d);
    FrameBound(w.s.t, dir, va / 4096);
    if Lookup(w.s.t, d, x / 4096).Some? && !(d == dir && x / 4096 == va / 4096) {
      OtherFrame(w.s, w.dirs, dir, va / 4096, d, x / 4096);
    }
  }

  lemma OtherFrame(s: Snapshot, dirs: set<nat>, d: nat, p: nat, e: nat, q: nat)
    requires Private(s, dirs) && d in dirs && e in dirs && p < USER_PAGES && q < USER_PAGES && !(d == e && p == q)
    requires Lookup(s.t, d, p).Some? && Lookup(s.t, e, q).Some?
    ensures Lookup(s.t, d, p).value.frame != Lookup(s.t, e, q).value.frame
  {
    hide Lookup, BackedDir, KernelHeld, Usable;
    if d == e {
      assert Injective(s.t, d);
    } else {
      assert Apart(s.t, d, e);
    }
  }

  lemma StoreKeeps(w: World, dir: nat, va: nat, b: Byte, w': World)
    requires Ok(w) && StoreStep(w, dir, va, b, w')
    ensures Ok(w')
  {
    hide Lookup, FrameFree, ReadByte, WriteByte, Injective, Apart, KernelHeld, Usable;
    StoreReads(w, dir, va, b, w', dir, va);
    forall k | k in w'.stored
      ensures k.0 in w'.dirs && k.1 < USER_TOP && ReadByte(w'.s, k.0, k.1) == Some(w'.stored[k])
    {
      StoreReads(w, dir, va, b, w', k.0, k.1);
    }
    forall d | d in w.dirs
      ensures BackedDir(w'.s, d) && Injective(w'.s.t, d)
    {
      assert BackedDir(w.s, d) && Injective(w.s.t, d);
    }
  }

  lemma ExpandKeeps(w: World, w': World, kernel: nat)
    requires Ok(w) && ExpandStep(w, w', kernel)
    ensures Ok(w')
  {
    hide Lookup, FrameFree;
    forall d | d in w.dirs
      ensures BackedDir(w'.s, d) && Injective(w'.s.t, d)
    {
      SameInjective(w.s.t, w'.s.t, d);
      assert BackedDir(w.s, d);
    }
    forall d, e | d in w.dirs && e in w.dirs && d != e
      ensures Apart(w'.s.t, d, e)
    {
      SameApart(w.s.t, w'.s.t, d, e);
    }
    forall k | k in w.stored
      ensures ReadByte(w'.s, k.0, k.1) == Some(w.stored[k])
    {
      assert Lookup(w'.s.t, k.0, k.1 / 4096) == Lookup(w.s.t, k.0, k.1 / 4096);
    }
  }

  lemma StepKeeps(w: World, op: Op, w': World, kernel: nat)
    requires Ok(w) && Step(w, op, w', kernel)
    ensures Ok(w')
  {
    hide Ok, ForkStep, MapStep, UnmapStep, StoreStep, ExpandStep;
    match op
    case OpFork(parent) =>
      var child: nat :| ForkStep(w, parent, w', kernel, child);
      ForkKeeps(w, parent, w', kernel, child);
    case OpMap(dir, v, n) =>
      var first: nat, access: int :| MapStep(w, dir, v, n, w', first, access);
      MapKeeps(w, dir, v, n, w', first, access);
    case OpUnmap(dir, v, n) => UnmapKeeps(w, dir, v, n, w');
    case OpStore(dir, va, b) => StoreKeeps(w, dir, va, b, w');
    case OpExpand(others) => ExpandKeeps(w, w', kernel);
  }

  // ---------------------------------------------------------------- runs

  ghost predicate IsRun(ws: seq<World>, ops: seq<Op>, kernel: nat) {
    |ws| == |ops| + 1 && Ok(ws[0]) && forall i :: 0 <= i < |ops| ==> Step(ws[i], ops[i], ws[i + 1], kernel)
  }

  /** Over every run of forks, mappings, unmappings, stores and expansions of the heap any two address spaces stay
      apart, and every byte reads as its own process last stored it, or as the process it was forked from had before
      the fork. */
  lemma {:induction false} RunsStayPrivate(ws: seq<World>, ops: seq<Op>, kernel: nat, i: nat)
    requires IsRun(ws, ops, kernel) && i < |ws|
    ensures Ok(ws[i])
    decreases i
  {
    if i > 0 {
      RunsStayPrivate(ws, ops, kernel, i - 1);
      assert Step(ws[i - 1], ops[i - 1], ws[i - 1 + 1], kernel);
      StepKeeps(ws[i - 1], ops[i - 1], ws[i], kernel);
    }
  }

  // ---------------------------------------------------------------- on the kernel's state

  /** Fresh from boot there are no user pages yet. */
  lemma BootWorld(s: Snapshot, kernel: nat)
    requires |s.ram| == PAGES && s.t.Keys <= s.kf && KernelHeld(s.kf, s.bs)
    requires forall p :: 0 <= p < USER_PAGES ==> Lookup(s.t, kernel, p) == None
    ensures Ok(World(s, {kernel}, map[], {kernel}))
  {
    hide Lookup, FrameFree;
  }

  /** The call names directories in existence and user addresses; a store goes to a mapped page. */
  ghost predicate Legal(w: World, op: Op) {
    match op
    case OpFork(parent) => parent in w.dirs
    case OpMap(dir, v, n) => dir in w.dirs && v + n <= USER_PAGES
    case OpUnmap(dir, v, n) => dir in w.dirs && v + n <= USER_PAGES
    case OpStore(dir, va, b) => dir in w.dirs && va < USER_TOP && Lookup(w.s.t, dir, va / 4096).Some?
    case OpExpand(others) => true
  }

  /** The kernel's state is that of world `w`. */
  ghost predicate Shows(m: Mmu, w: World)
    reads m
  {
    && m.Valid() && m.Backed() && m.HeapMapped() && TopEmpty(m.tables, m.dirs, m.heap.end)
    && w.s == Snap(m) && w.dirs == m.dirs && w.alike <= w.dirs && AllAlike(m.tables, w.alike, m.kernelDir, m.heap.end)
  }

  /** The directories `ds` see the heap as the kernel's does. */
  ghost predicate AllAlike(t: Tables, ds: set<nat>, kernel: nat, end: int) {
    forall d :: d in ds ==> HeapAlike(t, d, kernel, end)
  }

  lemma OneAlike(t: Tables, ds: set<nat>, kernel: nat, end: int, d: nat)
    requires AllAlike(t, ds, kernel, end) && d in ds
    ensures HeapAlike(t, d, kernel, end)
  {
  }

  lemma AlikeForked(s0: Snapshot, s: Snapshot, dirs: set<nat>, kernel: nat, parent: nat, child: nat, ds: set<nat>)
    requires Forked(s0, s, dirs, kernel, parent, child, USER_PAGES) && kernel in dirs && HeapOk(s0.heap) && ds <= dirs
    requires HeapViewed(s0.t, dirs, s0.heap.end, s0.kf) && AllAlike(s0.t, ds, kernel, s0.heap.end)
    ensures AllAlike(s.t, ds + {child}, kernel, s.heap.end)
  {
    hide Forked, HeapOk, HeapViewed, HeapAlike;
    HeapStays(s0, s, dirs, kernel, parent, child, USER_PAGES);
  }

  lemma AlikeKept(t: Tables, t': Tables, dirs: set<nat>, ds: set<nat>, kernel: nat, end: int)
    requires AllAlike(t, ds, kernel, end) && ds <= dirs && kernel in dirs
    requires forall d, p :: d in dirs && HEAP_PAGE <= p < end / 4096 ==> Lookup(t', d, p) == Lookup(t, d, p)
    ensures AllAlike(t', ds, kernel, end)
  {
    hide Lookup;
  }

  lemma KernelAlike(t: Tables, kernel: nat, end: int)
    ensures AllAlike(t, {kernel}, kernel, end)
  {
  }

  /** A user store through directory `dir`. */
  method StoreUser(m: Mmu, dir: nat, va: nat, b: Byte)
    requires m.Valid() && m.Backed() && dir in m.dirs && va < USER_TOP && Lookup(m.tables, dir, va / 4096).Some?
    modifies m`ram
    ensures m.Valid() && Snap(m) == WriteByte(old(Snap(m)), dir, va, b)
  {
    hide Lookup, Sound, ListOk, FrameFree, HeapOk, KernelHeld, Usable;
    FrameBound(m.tables, dir, va / 4096);
    var f := FrameAt(m.tables, dir, va / 4096);
    assert UserFrame(m.kernelFrames, m.blocks, f);
    var page: Page := m.ram[f][va % 4096 := b];
    m.ram := m.ram[f := page];
  }

  /** One call on the kernel's state takes the step, exactly when it returns. */
  method Do(m: Mmu, op: Op, ghost w: World) returns (ok: bool, ghost w': World)
    requires Shows(m, w) && Legal(w, op) && (op.OpExpand? ==> Lists(op.others, m.dirs, m.kernelDir))
    modifies m
    ensures ok ==> Shows(m, w') && Step(w, op, w', m.kernelDir)
    ensures ok ==> forall d, p :: d in m.dirs && 0 <= p < USER_PAGES ==>
                     (UserMay(m.tables, d, p) <==> Lookup(m.tables, d, p).Some? && d != m.kernelDir)
    ensures match op
            case OpFork(parent) => ok == Ample(Start(old(Snap(m)), old(m.used)), parent)
            case OpMap(dir, v, n) =>
              ok == (Room(old(m.blocks), n * 4096) && HeapFits(old(m.heap), NODE)
                     && Mappable(old(m.tables), old(m.used), dir, FitBase(old(m.blocks), n * 4096), v, n))
            case OpUnmap(dir, v, n) => ok == Unmappable(old(m.tables), dir, v, n)
            case OpStore(dir, va, b) => ok
            case OpExpand(others) =>
              ok == (old(m.heap.end) < 0xE080_0000
                     && ChunksAmple(old(m.blocks), old(m.heap), old(m.used), 1 + |others|))
  {
    hide Lookup, Sound, ListOk, FrameFree, HeapOk, KernelHeld, HeapViewed, AllBacked, Forked, Progress, Taken, Cleared, Aside,
         Mappable, CarvedFirst, FreeSet, TailNeed, FilledTo, ReadByte, WriteByte, MappedSlots, Replay, Ample, Room,
         HeapFits, HeapTake, Occupied, Misaligned, OtherSlots, Unmappable, SmallTail, Inherited, Outlying, Apart, LargePages,
         TopEmpty, ChunksAmple, ChunkOnly, Shrunk, HeapAlike, TrueBuffers, ChildByte, UntouchedSame, LargeHead, SlotsKept,
         Lists, Chunks, AllAlike, Usable, UserMay;
    w' := w;
    ghost var t, h := m.tables, m.heap;
    HeapPages(h);
    match op {
      case OpFork(parent) =>
        ghost var dirs, s0 := m.dirs, Snap(m);
        var r := CopyAddressSpace(m, parent);
        ok := r.Some?;
        if ok {
          w' := World(Snap(m), m.dirs, Inherited(w, m.kernelDir, parent, r.value), w.alike + {r.value});
          if parent in w.alike {
            OneAlike(t, w.alike, m.kernelDir, h.end, parent);
          }
          AlikeForked(s0, Snap(m), dirs, m.kernelDir, parent, r.value, w.alike);
          assert ForkStep(w, parent, w', m.kernelDir, r.value);
          TopForked(s0, Snap(m), dirs, m.kernelDir, parent, r.value);
        }
      case OpMap(dir, v, n) =>
        PageNumbers(v, n);
        ghost var first;
        ok, first := m.MapMemory(n * 4096, v * 4096, dir);
        if ok {
          w' := World(Snap(m), m.dirs, w.stored, w.alike);
          NodeTaken(h);
          Moved(t, m.tables, m.dirs, dir, v, n, first, Access(dir == m.kernelDir));
          HeapUnmoved(t, m.tables, m.dirs, dir, v, n, m.heap, m.kernelFrames);
          AlikeKept(t, m.tables, m.dirs, w.alike, m.kernelDir, m.heap.end);
          UserSlots(t, m.tables, dir, v, n);
          TopKept(t, m.tables, m.dirs, dir, m.heap.end);
          assert MapStep(w, dir, v, n, w', first, Access(dir == m.kernelDir));
        }
      case OpUnmap(dir, v, n) =>
        PageNumbers(v, n);
        ok := m.UnmapFlexible(n * 4096, v * 4096, dir);
        if ok {
          w' := World(Snap(m), m.dirs, Outlying(w.stored, dir, v, n), w.alike);
          Cleaned(t, m.tables, m.dirs, dir, v, n);
          HeapUnmoved(t, m.tables, m.dirs, dir, v, n, m.heap, m.kernelFrames);
          AlikeKept(t, m.tables, m.dirs, w.alike, m.kernelDir, m.heap.end);
          SlotsAbove(t, m.tables, dir, v, n);
          TopKept(t, m.tables, m.dirs, dir, m.heap.end);
        }
      case OpStore(dir, va, b) =>
        StoreUser(m, dir, va, b);
        ok := true;
        w' := World(Snap(m), m.dirs, w.stored[(dir, va) := b], w.alike);
      case OpExpand(others) =>
        ghost var bs := m.blocks;
        ok := ExpandHeap(m, others);
        if ok {
          w' := World(Snap(m), m.dirs, w.stored, {m.kernelDir});
          KernelAlike(m.tables, m.kernelDir, m.heap.end);
          UserPagesKept(t, m.tables, m.dirs, h.end / 4096);
        }
    }
    if ok {
      OwnPages(m.tables, m.dirs, m.kernelDir);
    }
  }

  /** User code may use the pages of its own space, and no page through the kernel's directory. */
  lemma OwnPages(t: Tables, dirs: set<nat>, kernel: nat)
    requires Usable(t, dirs, kernel)
    ensures forall d, p :: d in dirs && 0 <= p < USER_PAGES ==> (UserMay(t, d, p) <==> Lookup(t, d, p).Some? && d != kernel)
  {
    hide Usable, UserMay, Lookup;
    forall d, p | d in dirs && 0 <= p < USER_PAGES
      ensures UserMay(t, d, p) <==> Lookup(t, d, p).Some? && d != kernel
    {
      UsableMeans(t, dirs, kernel, d, p);
    }
  }

  lemma UserPagesKept(t: Tables, t': Tables, dirs: set<nat>, v: nat)
    requires ChunkOnly(t, t', dirs, v) && USER_PAGES <= v
    ensures forall d, p :: d in dirs && 0 <= p < USER_PAGES ==> Lookup(t', d, p) == Lookup(t, d, p)
  {
    hide Lookup;
  }

  /** The slots above the heap stay empty, in old spaces and in the clone. */
  lemma TopForked(s0: Snapshot, s: Snapshot, dirs: set<nat>, kernel: nat, parent: nat, child: nat)
    requires Forked(s0, s, dirs, kernel, parent, child, USER_PAGES) && kernel in dirs && HeapOk(s0.heap)
    requires TopEmpty(s0.t, dirs, s0.heap.end)
    ensures TopEmpty(s.t, dirs + {child}, s.heap.end)
  {
    hide Lookup, Copied, EmptyFrom, Fresh, Injective, RamKept, Shrunk, KernelHeld, HeapOk, Usable;
    HeapPages(s0.heap);
    forall d, i | d in dirs + {child} && s.heap.end / CHUNK_SIZE <= i < 898
      ensures Entry(s.t, d, i) == 0
    {
      assert Entry(s.t, d, i) == Entry(s0.t, if d in dirs then d else kernel, i);
    }
  }

  lemma TopKept(t: Tables, t': Tables, dirs: set<nat>, dir: nat, end: int)
    requires TopEmpty(t, dirs, end) && OtherDirs(t, t', dirs, dir) && end >= HEAP_PAGE * 4096
    requires forall i :: KERNEL_SLOT <= i < 1024 ==> Entry(t', dir, i) == Entry(t, dir, i)
    ensures TopEmpty(t', dirs, end)
  {
  }

  lemma SlotsAbove(t: Tables, t': Tables, dir: nat, v: nat, n: nat)
    requires OtherSlots(t, t', dir, v, LargePages(v, n)) && v + n <= USER_PAGES
    ensures forall i :: KERNEL_SLOT <= i < 1024 ==> Entry(t', dir, i) == Entry(t, dir, i)
  {
    forall i | KERNEL_SLOT <= i < 1024
      ensures Off(i * 1024, v) >= LargePages(v, n)
    {
    }
  }

  lemma PageNumbers(v: nat, n: nat)
    requires v + n <= USER_PAGES
    ensures 0 <= n * 4096 < TWO32 && 0 <= v * 4096 < TWO32 && FirstPage(v * 4096) == v && PageCount(n * 4096, v * 4096) == n
  {
  }

  lemma Moved(t: Tables, t': Tables, dirs: set<nat>, dir: nat, v: nat, n: nat, first: nat, access: int)
    requires Progress(t, t', dirs, dir, v, n, first, access)
    ensures Outside(t, t', dirs, dir, v, n) && OtherDirs(t, t', dirs, dir)
  {
  }

  lemma Cleaned(t: Tables, t': Tables, dirs: set<nat>, dir: nat, v: nat, n: nat)
    requires Cleared(t, t', dirs, dir, v, n)
    ensures Outside(t, t', dirs, dir, v, n) && OtherDirs(t, t', dirs, dir)
  {
  }
}
