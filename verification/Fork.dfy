/** `get_kernel_pd_clone` and `copy_adress_space` (memory/paging.c), on the state of Paging.Mmu. */
module Fork {
  import opened Machine
  import opened PageTables
  import opened Physical
  import opened Paging
  import opened ForkSpec
  import opened HeapUse
  import opened ForkHeap
  import opened CopyBuffer

  ghost function Snap(m: Mmu): Snapshot
    reads m
  {
    Snapshot(m.tables, m.blocks, m.ram, m.kernelFrames, m.heap)
  }

  /** The copy loop of `get_kernel_pd_clone`. */
  method CopyKernelSlots(m: Mmu, tr: nat)
    requires tr in m.tables && m.tables[tr] == Zeros() && tr != m.kernelDir
    requires forall f :: f in m.tables ==> |m.tables[f]| == 1024
    modifies m`tables
    ensures m.tables == old(m.tables)[tr := KernelHalf(old(m.tables), m.kernelDir)]
  {
    for i := KERNEL_SLOT to 1024
      invariant m.tables.Keys == old(m.tables.Keys) && |m.tables[tr]| == 1024
      invariant forall g :: g in m.tables && g != tr ==> m.tables[g] == old(m.tables)[g]
      invariant forall k :: 0 <= k < 1024 ==>
                  m.tables[tr][k] == if KERNEL_SLOT <= k < i then Entry(old(m.tables), m.kernelDir, k) else 0
    {
      m.tables := SetWord(m.tables, tr, i, Entry(m.tables, m.kernelDir, i));
    }
    assert m.tables[tr] == KernelHalf(old(m.tables), m.kernelDir);
  }

  /** `get_kernel_pd_clone`. None: the page heap is full. */
  method GetKernelPdClone(m: Mmu) returns (r: Option<nat>)
    requires m.Valid()
    modifies m`tables, m`used, m`dirs
    ensures m.Valid() && m.tables.Keys == old(m.tables.Keys)
    ensures r.Some? ==> r.value in m.kernelFrames
    ensures r.None? == old(m.HeapFull())
    ensures r.None? ==> m.dirs == old(m.dirs) && m.HeapFull()
    ensures r.Some? ==> |FreeSet(m.used)| == |FreeSet(old(m.used))| - 1 && NonEmpty(m.tables, r.value) == {}
    ensures r.Some? ==> && r.value !in old(m.dirs) && m.dirs == old(m.dirs) + {r.value}
                        && Forked(old(Snap(m)), Snap(m), old(m.dirs), m.kernelDir, m.kernelDir, r.value, 0)
  {
    hide Lookup, Unshared, TableLive, FrameFree, ListOk, HeapOk, Usable;
    var f := m.PtAlloc();
    if f.None? {
      return None;
    }
    var tr := f.value;
    FrameTaken(old(m.used), tr - HEAP_FRAME);
    CopyKernelSlots(m, tr);
    NewDirectory(old(m.tables), m.dirs, old(m.used), m.kernelDir, tr);
    assert KernelHalf(old(m.tables)[tr := Zeros()], m.kernelDir) == KernelHalf(old(m.tables), m.kernelDir);
    assert m.tables == old(m.tables)[tr := KernelHalf(old(m.tables), m.kernelDir)];
    UsableClone(old(m.tables), m.tables, m.dirs, m.kernelDir, tr);
    m.dirs := m.dirs + {tr};
    r := Some(tr);
  }

  /** `memcpy` from `n` user pages of the current space to the buffer at `q`, which that space sees in `gs`. */
  method CopyOut(m: Mmu, v: nat, n: nat, q: nat, ghost gs: seq<nat>)
    requires |m.ram| == PAGES && Spans(gs, q % 4096, n) && SeenIn(m.tables, m.current, q / 4096, gs)
    requires forall p :: v <= p < v + n ==>
               Lookup(m.tables, m.current, p).Some? && Lookup(m.tables, m.current, p).value.frame !in gs
    modifies m`ram
    ensures |m.ram| == PAGES && forall f :: 0 <= f < PAGES && f !in gs ==> m.ram[f] == old(m.ram)[f]
    ensures forall k :: 0 <= k < n ==> Sees(m.tables, old(m.ram), m.current, v + k, Piece(m.ram, gs, q % 4096, n, k))
  {
    hide Lookup, Piece, Put, Apiece;
    var o, first := q % 4096, q / 4096;
    ghost var ram0 := m.ram;
    for k := 0 to n
      invariant |m.ram| == PAGES && forall f :: 0 <= f < PAGES && f !in gs ==> m.ram[f] == ram0[f]
      invariant forall j :: 0 <= j < k ==> Sees(m.tables, ram0, m.current, v + j, Piece(m.ram, gs, o, n, j))
    {
      FrameBound(m.tables, m.current, v + k);
      GivenFrames(gs, o, n, k);
      ghost var ram1 := m.ram;
      var page := m.ram[FrameAt(m.tables, m.current, v + k)];
      var g0 := FrameAt(m.tables, m.current, first + k);
      var g1 := if o == 0 then g0 else FrameAt(m.tables, m.current, first + k + 1);
      assert o > 0 ==> first + k + 1 == first + (k + 1);
      assert g0 == gs[k] && g1 == EndFrame(gs, o, k);
      PutPiece(m.ram, gs, o, n, k, page);
      m.ram := Put(m.ram, g0, g1, o, page);
      assert Piece(m.ram, gs, o, n, k) == page;
      assert Sees(m.tables, ram0, m.current, v + k, Piece(m.ram, gs, o, n, k));
      forall j | 0 <= j < k
        ensures Sees(m.tables, ram0, m.current, v + j, Piece(m.ram, gs, o, n, j))
      {
        assert Piece(m.ram, gs, o, n, j) == Piece(ram1, gs, o, n, j);
      }
    }
  }

  lemma GivenFrames(gs: seq<nat>, o: nat, n: nat, k: nat)
    requires Spans(gs, o, n) && k < n
    ensures k < |gs| && (o > 0 ==> k + 1 < |gs|) && gs[k] < PAGES && EndFrame(gs, o, k) < PAGES
  {
  }

  /** `memcpy` from the buffer at `q` to `n` user pages of the current space. */
  method CopyIn(m: Mmu, v: nat, n: nat, q: nat, ghost gs: seq<nat>, ghost first: nat)
    requires |m.ram| == PAGES && Spans(gs, q % 4096, n) && SeenIn(m.tables, m.current, q / 4096, gs)
    requires v + n <= PAGES && first + n <= PAGES && forall f :: first <= f < first + n ==> f !in gs
    requires forall p :: v <= p < v + n ==>
               Lookup(m.tables, m.current, p) == Some(Leaf(first + (p - v), Access(false)))
    modifies m`ram
    ensures |m.ram| == PAGES
    ensures forall k :: 0 <= k < n ==> m.ram[first + k] == Piece(old(m.ram), gs, q % 4096, n, k)
    ensures forall f :: 0 <= f < PAGES && !(first <= f < first + n) ==> m.ram[f] == old(m.ram)[f]
  {
    hide Lookup, Join, Apiece;
    var o, p0 := q % 4096, q / 4096;
    ghost var ram0 := m.ram;
    for k := 0 to n
      invariant |m.ram| == PAGES
      invariant forall j :: 0 <= j < k ==> m.ram[first + j] == Piece(ram0, gs, o, n, j)
      invariant forall f :: 0 <= f < PAGES && !(first <= f < first + k) ==> m.ram[f] == ram0[f]
    {
      GivenFrames(gs, o, n, k);
      var g0 := FrameAt(m.tables, m.current, p0 + k);
      var g1 := if o == 0 then g0 else FrameAt(m.tables, m.current, p0 + k + 1);
      assert o > 0 ==> p0 + k + 1 == p0 + (k + 1);
      assert g0 == gs[k] && g1 == EndFrame(gs, o, k);
      assert g0 in gs && g1 in gs;
      SameJoin(ram0, m.ram, g0, g1, o);
      m.ram := m.ram[FrameAt(m.tables, m.current, v + k) := Join(m.ram, g0, g1, o)];
    }
  }

  /** The two copies, each under its own directory: stored through the parent's frames `gp` of the buffer, fetched
      through the child's frames `gc`. */
  method CarryPages(m: Mmu, parent: nat, child: nat, v: nat, n: nat, q: nat, ghost gp: seq<nat>, ghost gc: seq<nat>,
                    ghost first: nat)
    returns (ghost buf: seq<Page>)
    requires |m.ram| == PAGES && Spans(gp, q % 4096, n) && Spans(gc, q % 4096, n) && Views(gp, gc)
    requires SeenIn(m.tables, parent, q / 4096, gp) && SeenIn(m.tables, child, q / 4096, gc)
    requires v + n <= PAGES && first + n <= PAGES && forall f :: first <= f < first + n ==> f !in gc
    requires forall p :: v <= p < v + n ==>
               Lookup(m.tables, parent, p).Some? && Lookup(m.tables, parent, p).value.frame !in gp
    requires forall p :: v <= p < v + n ==> Lookup(m.tables, child, p) == Some(Leaf(first + (p - v), Access(false)))
    modifies m`ram, m`current
    ensures |m.ram| == PAGES && m.current == old(m.current) && |buf| == n
    ensures forall k :: 0 <= k < n ==> buf[k] == FromTo(m.tables, old(m.ram), parent, v + k, gp, gc, q % 4096, n, k)
    ensures forall k :: 0 <= k < n ==> m.ram[first + k] == buf[k]
    ensures forall f :: 0 <= f < PAGES && f !in gp && !(first <= f < first + n) ==> m.ram[f] == old(m.ram)[f]
  {
    hide Lookup, Piece, Apiece, SeenIn, Through, FrameAt;
    var cpd := m.current;
    ghost var ram0 := m.ram;
    m.current := parent;
    CopyOut(m, v, n, q, gp);
    ghost var ram1 := m.ram;
    buf := seq(n, k requires 0 <= k < n => Piece(ram1, gc, q % 4096, n, k));
    forall k | 0 <= k < n
      ensures buf[k] == FromTo(m.tables, ram0, parent, v + k, gp, gc, q % 4096, n, k)
    {
      SeenPage(m.tables, ram0, parent, v + k, Piece(ram1, gp, q % 4096, n, k));
      FetchedPiece(ram0, ram1, gp, gc, q % 4096, n, k, ram0[FrameAt(m.tables, parent, v + k)]);
    }
    m.current := child;
    CopyIn(m, v, n, q, gc, first);
    m.current := cpd;
  }

  lemma SeenPage(t: Tables, ram: seq<Page>, d: nat, p: nat, page: Page)
    requires |ram| == PAGES && Sees(t, ram, d, p, page)
    ensures page == ram[FrameAt(t, d, p)]
  {
  }

  /** Page `p` of `d`, stored through `gp` and fetched through `gc`. */
  ghost function FromTo(t: Tables, ram: seq<Page>, d: nat, p: nat, gp: seq<nat>, gc: seq<nat>, o: nat, n: nat, k: nat): Page
    requires |ram| == PAGES && Spans(gp, o, n) && Spans(gc, o, n) && k < n
  {
    Through(ram, gp[k], EndFrame(gp, o, k), gc[k], EndFrame(gc, o, k), o, ram[FrameAt(t, d, p)])
  }

  /** After the pages of the child have been mapped, parent and child see the buffer in frames of the kernel, the same
      or altogether different page by page, none of which backs the pages that are copied. */
  lemma BufferFrames(s0: Snapshot, s: Snapshot, s': Snapshot, dirs: set<nat>, kernel: nat, parent: nat, child: nat,
                     v: nat, n: nat, first: nat, q: nat) returns (gp: seq<nat>, gc: seq<nat>)
    requires Forked(s0, s, dirs, kernel, parent, child, v) && parent in dirs && kernel in dirs && child !in dirs
    requires HeapOk(s0.heap) && HeapViewed(s0.t, dirs, s0.heap.end, s0.kf) && BackedDir(s0, parent)
    requires 0 < n && v + n <= USER_PAGES && first + n <= PAGES && s'.kf == s.kf && KernelHeld(s.kf, s.bs)
    requires Progress(s.t, s'.t, dirs + {child}, child, v, n, first, Access(false)) && Taken(s.bs, s'.bs, first, n)
    requires HEAP_PAGE * 4096 < q && q + n * 4096 <= s0.heap.end
    ensures gp == FramesFrom(s0.t, parent, q / 4096, Touched(q, n)) && gc == FramesFrom(s0.t, kernel, q / 4096, Touched(q, n))
    ensures Spans(gp, q % 4096, n) && Spans(gc, q % 4096, n) && Views(gp, gc)
    ensures SeenIn(s'.t, parent, q / 4096, gp) && SeenIn(s'.t, child, q / 4096, gc)
    ensures forall g :: g in gp || g in gc ==> g in s.kf
    ensures forall p :: v <= p < v + n && Lookup(s'.t, parent, p).Some? ==> Lookup(s'.t, parent, p).value.frame !in gp
    ensures forall f :: first <= f < first + n ==> f !in gp && f !in gc
  {
    hide Lookup, Copied, EmptyFrom, Fresh, Injective, RamKept, Shrunk, HeapOk, FrameFree, Spans, UnseenKept;
    var h := s0.heap;
    HeapPages(h);
    InHeapPages(q, n, h.end);
    BlockSeen(s0.t, dirs, parent, h, s0.kf, q, n);
    BlockSeen(s0.t, dirs, kernel, h, s0.kf, q, n);
    BlockViews(s0.t, dirs, parent, kernel, h, s0.kf, q, n);
    gp := FramesFrom(s0.t, parent, q / 4096, Touched(q, n));
    gc := FramesFrom(s0.t, kernel, q / 4096, Touched(q, n));
    forall p | q / 4096 <= p < q / 4096 + |gp|
      ensures Lookup(s'.t, parent, p) == Lookup(s0.t, parent, p)
      ensures Lookup(s'.t, child, p) == Lookup(s0.t, kernel, p)
    {
      assert HEAP_PAGE <= p < h.end / 4096 && Off(p, v) >= n;
      assert Lookup(s'.t, parent, p) == Lookup(s.t, parent, p) && Lookup(s'.t, child, p) == Lookup(s.t, child, p);
    }
    forall p | v <= p < v + n && Lookup(s'.t, parent, p).Some?
      ensures Lookup(s'.t, parent, p).value.frame !in s.kf
    {
      assert Lookup(s'.t, parent, p) == Lookup(s.t, parent, p);
      assert Lookup(s.t, parent, p) == Lookup(s0.t, parent, p);
    }
  }

  /** The carried pages are what becomes of the parent's pages on their way. */
  lemma CarriedHolds(s0: Snapshot, ram: seq<Page>, t': Tables, kernel: nat, parent: nat, v: nat, n: nat, q: nat,
                     gp: seq<nat>, gc: seq<nat>, buf: seq<Page>)
    requires |ram| == PAGES && |buf| == n
    requires gp == FramesFrom(s0.t, parent, q / 4096, Touched(q, n)) && gc == FramesFrom(s0.t, kernel, q / 4096, Touched(q, n))
    requires Spans(gp, q % 4096, n) && Spans(gc, q % 4096, n)
    requires forall p :: v <= p < v + n ==> Lookup(t', parent, p).Some? && Lookup(t', parent, p) == Lookup(s0.t, parent, p)
    requires forall k :: 0 <= k < n ==> buf[k] == FromTo(t', ram, parent, v + k, gp, gc, q % 4096, n, k)
    ensures Holds(s0, ram, kernel, parent, v, q, buf)
  {
    hide Lookup, FromTo, Arrival, FramesFrom;
    forall k | 0 <= k < n
      ensures Lookup(s0.t, parent, v + k).Some?
      ensures buf[k] == Arrival(s0.t, ram, parent, kernel, q + k * 4096, ram[FrameAt(s0.t, parent, v + k)])
    {
      assert Lookup(t', parent, v + k) == Lookup(s0.t, parent, v + k);
      OneCarried(s0, ram, t', kernel, parent, v, n, q, gp, gc, k);
    }
  }

  lemma OneCarried(s0: Snapshot, ram: seq<Page>, t': Tables, kernel: nat, parent: nat, v: nat, n: nat, q: nat,
                   gp: seq<nat>, gc: seq<nat>, k: nat)
    requires |ram| == PAGES && k < n && Lookup(t', parent, v + k) == Lookup(s0.t, parent, v + k)
    requires gp == FramesFrom(s0.t, parent, q / 4096, Touched(q, n)) && gc == FramesFrom(s0.t, kernel, q / 4096, Touched(q, n))
    requires Spans(gp, q % 4096, n) && Spans(gc, q % 4096, n)
    ensures FromTo(t', ram, parent, v + k, gp, gc, q % 4096, n, k) ==
            Arrival(s0.t, ram, parent, kernel, q + k * 4096, ram[FrameAt(s0.t, parent, v + k)])
  {
    hide Lookup;
    DivideBy(q + k * 4096, 4096, q / 4096 + k, q % 4096);
    assert q % 4096 > 0 ==> q / 4096 + k + 1 == q / 4096 + (k + 1);
  }

  /** The frames of the kernel's view that the parent does not see have not been written. */
  lemma CarriedUnseen(s0: Snapshot, ram: seq<Page>, ram': seq<Page>, dirs: set<nat>, kernel: nat, parent: nat,
                      n: nat, first: nat, q: nat, gp: seq<nat>)
    requires |ram| == PAGES && |ram'| == PAGES && parent in dirs && kernel in dirs && first + n <= PAGES
    requires HeapOk(s0.heap) && HeapViewed(s0.t, dirs, s0.heap.end, s0.kf)
    requires HEAP_PAGE * 4096 < q && q + n * 4096 <= s0.heap.end
    requires gp == FramesFrom(s0.t, parent, q / 4096, Touched(q, n)) && forall f :: first <= f < first + n ==> f !in s0.kf
    requires forall f :: 0 <= f < PAGES && f !in gp && !(first <= f < first + n) ==> ram'[f] == ram[f]
    ensures UnseenKept(s0, ram, ram', kernel, parent)
  {
    hide Lookup, HeapOk;
    HeapPages(s0.heap);
    InHeapPages(q, n, s0.heap.end);
    forall p: nat | HEAP_PAGE <= p < s0.heap.end / 4096 && FrameAt(s0.t, parent, p) != FrameAt(s0.t, kernel, p)
      ensures FrameAt(s0.t, kernel, p) !in gp && FrameAt(s0.t, kernel, p) in s0.kf
    {
      forall j | 0 <= j < |gp|
        ensures gp[j] != FrameAt(s0.t, kernel, p)
      {
        NotTheirs(s0, dirs, kernel, parent, p, q / 4096 + j);
      }
    }
  }

  /** A heap page that kernel and parent see in different frames has no frame in common with any page of the parent. */
  lemma NotTheirs(s0: Snapshot, dirs: set<nat>, kernel: nat, parent: nat, p: nat, r: nat)
    requires HeapViewed(s0.t, dirs, s0.heap.end, s0.kf) && parent in dirs && kernel in dirs
    requires HEAP_PAGE <= p < s0.heap.end / 4096 && HEAP_PAGE <= r < s0.heap.end / 4096
    requires FrameAt(s0.t, parent, p) != FrameAt(s0.t, kernel, p)
    ensures FrameAt(s0.t, parent, r) != FrameAt(s0.t, kernel, p)
  {
    hide Lookup;
    if r < p {
      assert Elsewhere(s0.t, parent, r, kernel, p);
    } else if p < r {
      assert Elsewhere(s0.t, kernel, p, parent, r);
    }
  }

  lemma CarriedWritten(kf: set<nat>, ram: seq<Page>, ram': seq<Page>, n: nat, first: nat, gp: seq<nat>, buf: seq<Page>)
    requires |ram| == PAGES && |ram'| == PAGES && |buf| == n && first + n <= PAGES && forall g :: g in gp ==> g in kf
    requires forall k :: 0 <= k < n ==> ram'[first + k] == buf[k]
    requires forall f :: 0 <= f < PAGES && f !in gp && !(first <= f < first + n) ==> ram'[f] == ram[f]
    ensures Written(kf, ram, ram', first, buf)
  {
    forall f | 0 <= f < PAGES && f !in kf
      ensures ram'[f] == if first <= f < first + n then buf[f - first] else ram[f]
    {
      assert first <= f < first + n ==> ram'[first + (f - first)] == buf[f - first];
    }
  }

  /** Mapping user pages leaves the views of the kernel heap alone. */
  lemma HeapUnmoved(t: Tables, t': Tables, dirs: set<nat>, dir: nat, v: nat, n: nat, h: HeapState, kf: set<nat>)
    requires HeapOk(h) && HeapViewed(t, dirs, h.end, kf)
    requires Outside(t, t', dirs, dir, v, n) && v + n <= USER_PAGES
    ensures HeapViewed(t', dirs, h.end, kf)
    ensures forall d, p :: d in dirs && HEAP_PAGE <= p < h.end / 4096 ==> Lookup(t', d, p) == Lookup(t, d, p)
  {
    hide Lookup, HeapOk;
    HeapPages(h);
    forall d, p | d in dirs && HEAP_PAGE <= p < h.end / 4096
      ensures Lookup(t', d, p) == Lookup(t, d, p)
    {
      assert Off(p, v) >= n;
    }
    forall d, e, p, q | d in dirs && e in dirs && HEAP_PAGE <= p < q < h.end / 4096
      ensures Elsewhere(t', d, p, e, q)
    {
      assert Elsewhere(t, d, p, e, q);
    }
  }

  /** The buffer of the piece at `v` is where the piece passes through. */
  lemma PassesThere(s0: Snapshot, parent: nat, v: nat, n: nat, g: HeapState)
    requires HeapOk(s0.heap) && HeapOk(g) && g.end == s0.heap.end && IsPiece(s0.t, parent, v, n)
    requires HeapBelow(s0.heap, s0.t, parent, v) == Some(g) && AfterPiece(g, n).Some?
    ensures TakenAt(HeapTake(g, NODE), n * 4096) > HEAP_PAGE * 4096
    ensures Passes(s0, parent, v, n, TakenAt(HeapTake(g, NODE), n * 4096))
  {
    hide HeapOk, HeapFits, HeapTake, TakenAt, Replay, BufferAt, IsPiece;
    HeapPages(s0.heap);
    NodeTaken(g);
    BufferTaken(HeapTake(g, NODE), n);
    forall k | 0 <= k < n
      ensures BufferAt(s0.heap, s0.t, parent, v + k) == TakenAt(HeapTake(g, NODE), n * 4096) + k * 4096
    {
      BufferOfPiece(s0.heap, s0.t, parent, v, n, g, v + k);
    }
  }

  /** The user pages from `v` of the parent, all mapped, are carried to the child by way of a buffer in the kernel
      heap. False: the copy does not return, for want of memory, of a page-heap frame, of a heap block for the node of
      the physical list (see `reserve_block`), or of a heap block for the buffer: then the heap grows, and the child
      faults on the buffer (`GrownBufferFaults`). */
  method CopyRange(m: Mmu, parent: nat, child: nat, v: nat, n: nat, ghost s0: Snapshot, ghost dirs: set<nat>)
    returns (ok: bool)
    requires m.Valid() && m.dirs == dirs + {child} && parent in dirs && child !in dirs && m.kernelDir in dirs
    requires 0 < n && v + n <= USER_PAGES && v / 1024 == (v + n - 1) / 1024 && BackedDir(s0, parent)
    requires Forked(s0, Snap(m), dirs, m.kernelDir, parent, child, v)
    requires HeapOk(s0.heap) && HeapViewed(s0.t, dirs, s0.heap.end, s0.kf)
    requires IsPiece(s0.t, parent, v, n) && HeapBelow(s0.heap, s0.t, parent, v) == Some(m.heap)
    requires forall p :: v <= p < v + n ==> Lookup(m.tables, parent, p).Some?
    modifies m`tables, m`used, m`blocks, m`ram, m`current, m`heap
    ensures m.Valid() && m.tables.Keys == old(m.tables.Keys) && m.current == old(m.current)
    ensures ok ==> Forked(s0, Snap(m), dirs, m.kernelDir, parent, child, v + n)
    ensures ok == (AfterReserve(old(m.blocks), n).Some?
                   && (Entry(old(m.tables), child, v / 1024) == 0 ==> !old(m.HeapFull()))
                   && AfterPiece(old(m.heap), n).Some?)
    ensures ok ==> AfterPiece(old(m.heap), n) == Some(m.heap) && AfterReserve(old(m.blocks), n) == Some(m.blocks)
    ensures ok ==> NonEmpty(m.tables, child) == NonEmpty(old(m.tables), child) + {v / 1024}
    ensures ok ==> |FreeSet(m.used)| == |FreeSet(old(m.used))| - if Entry(old(m.tables), child, v / 1024) == 0 then 1 else 0
    ensures !ok && AfterReserve(old(m.blocks), n).Some? && AfterPiece(old(m.heap), n).Some? ==> m.HeapFull()
  {
    hide Sound, ListOk, FrameFree, Unmapped, Unmoved, Copied, EmptyFrom, Fresh, Injective, RamKept, Shrunk, SharesKernel,
         AllBacked, BackedDir, Lookup, FreeSet, NonEmpty, TailNeed, FilledTo, Mappable, Room, Misaligned, Occupied,
         HeapOk, HeapFits, HeapTake, TakenAt, HeapViewed, KernelHeld, Aside, Taken, Spans, SeenIn, Written, Holds, Views,
         FramesFrom, UnseenKept, Passes, Replay, IsPiece, FromTo, LargeHead, SmallTail, SlotsKept,
         UntouchedSame, Usable;
    ghost var before, heap0 := Snap(m), m.heap;
    ghost var first;
    assert FirstPage(v * 4096) == v && PageCount(n * 4096, v * 4096) == n;
    OneSlot(m.tables, child, v, n);
    FullMeansNone(m.used);
    if Room(m.blocks, n * 4096) {
      PieceMappable(m.tables, m.used, m.blocks, child, v, n);
    }
    ok, first := m.MapMemory(n * 4096, v * 4096, child);
    if !ok {
      return;
    }
    NodeTaken(heap0);
    if !HeapFits(m.heap, n * 4096) {
      return false;
    }
    OneSlotFilled(before.t, m.tables, child, v, n);
    UserSlots(before.t, m.tables, child, v, n);
    PassesThere(s0, parent, v, n, heap0);
    var q := TakenAt(m.heap, n * 4096);
    ghost var h1 := m.heap;
    BufferTaken(m.heap, n);
    m.heap := HeapTake(m.heap, n * 4096);
    ParentKept(before.t, m.tables, dirs, parent, child, v, n);
    ParentPages(s0, before, dirs, m.kernelDir, parent, child, v, v, n);
    ChildMapped(m.tables, child, v, n, first);
    ghost var gp, gc := BufferFrames(s0, before, Snap(m), dirs, m.kernelDir, parent, child, v, n, first, q);
    ghost var buf := CarryPages(m, parent, child, v, n, q, gp, gc, first);
    if n == 1 {
      BufferFreed(h1);
      m.heap := HeapFree(m.heap, q);
    }
    FreshFrames(before.kf, before.bs, m.blocks, first, n);
    CarriedHolds(s0, before.ram, m.tables, m.kernelDir, parent, v, n, q, gp, gc, buf);
    CarriedUnseen(s0, before.ram, m.ram, dirs, m.kernelDir, parent, n, first, q, gp);
    CarriedWritten(before.kf, before.ram, m.ram, n, first, gp, buf);
    CopyPages(s0, before, Snap(m), dirs, m.kernelDir, parent, child, v, first, q, buf);
  }

  lemma FreshFrames(kf: set<nat>, bs: seq<PBlock>, bs': seq<PBlock>, first: nat, n: nat)
    requires KernelHeld(kf, bs) && Taken(bs, bs', first, n)
    ensures forall f :: first <= f < first + n ==> f !in kf
  {
    hide FrameFree;
  }

  /** `copy_adress_space`. None: it does not return. */
  method CopyAddressSpace(m: Mmu, parent: nat) returns (r: Option<nat>)
    requires m.Valid() && m.Backed() && m.HeapMapped() && parent in m.dirs
    modifies m
    ensures m.Valid() && m.current == old(m.current)
    ensures r.Some? == Ample(Start(old(Snap(m)), old(m.used)), parent)
    ensures r.Some? ==> && r.value !in old(m.dirs) && m.dirs == old(m.dirs) + {r.value}
                        && Forked(old(Snap(m)), Snap(m), old(m.dirs), m.kernelDir, parent, r.value, USER_PAGES)
                        && m.Backed() && m.HeapMapped() && m.tables.Keys == old(m.tables.Keys)
                        && HeapAlike(m.tables, r.value, m.kernelDir, m.heap.end)
    ensures r.Some? ==> forall va :: 0 <= va < USER_TOP ==>
                          ReadByte(Snap(m), r.value, va) == ChildByte(old(Snap(m)), m.kernelDir, parent, va)
    ensures r.Some? && TrueBuffers(old(Snap(m)), m.kernelDir, parent) ==> forall va :: 0 <= va < USER_TOP ==>
              ReadByte(Snap(m), r.value, va) == ReadByte(old(Snap(m)), parent, va)
    ensures r.Some? && HeapAlike(old(m.tables), parent, m.kernelDir, old(m.heap.end)) ==>
              TrueBuffers(old(Snap(m)), m.kernelDir, parent)
    ensures r.Some? ==> forall d, va :: d in old(m.dirs) && 0 <= va < USER_TOP ==>
                          ReadByte(Snap(m), d, va) == ReadByte(old(Snap(m)), d, va)
    ensures r.Some? ==> forall d :: d in old(m.dirs) ==> Apart(m.tables, d, r.value)
    ensures r.Some? ==> forall p :: 0 <= p < USER_PAGES ==>
                          (UserMay(m.tables, r.value, p) <==> Lookup(old(m.tables), parent, p).Some?)
    ensures r.Some? ==> |FreeSet(m.used)| == |FreeSet(old(m.used))| - 1 - |MappedSlots(old(m.tables), parent)|
    ensures r.Some? ==> NonEmpty(m.tables, r.value) == MappedSlots(old(m.tables), parent)
    ensures r.Some? ==> HeapBelow(old(m.heap), old(m.tables), parent, USER_PAGES) == Some(m.heap)
    ensures r.Some? ==> PhysBelow(old(m.blocks), old(m.tables), parent, USER_PAGES) == Some(m.blocks)
    ensures r.None? ==> m.HeapFull() || !PhysAmple(old(Snap(m)), parent) || !HeapAmple(old(Snap(m)), parent)
  {
    hide Sound, ListOk, FrameFree, Unmoved, Copied, EmptyFrom, Fresh, Injective, RamKept, Shrunk, SharesKernel, Apart,
         ReadByte, Lookup, Budget, Ample, FreeSet, NonEmpty, MappedSlots, Room, Forked, Replay, ChildByte, TrueBuffers,
         HeapOk, HeapViewed, KernelHeld, HeapAmple, PhysAmple, IsPiece, AfterPiece, AfterReserve, HeapAlike, Usable, UserMay;
    ghost var z, s0, dirs := Start(Snap(m), m.used), Snap(m), m.dirs;
    assert forall d :: d in dirs ==> BackedDir(s0, d);
    FullMeansNone(m.used);
    r := GetKernelPdClone(m);
    if r.None? {
      NoFrames(z, parent);
      return;
    }
    var tr := r.value;
    NewParent(s0, Snap(m), dirs, m.kernelDir, parent, tr);
    BudgetStart(z, Snap(m), m.used, parent, tr);
    for i := 0 to KERNEL_SLOT
      invariant m.Valid() && m.dirs == dirs + {tr} && m.current == old(m.current) && m.tables.Keys == s0.t.Keys
      invariant Forked(s0, Snap(m), dirs, m.kernelDir, parent, tr, i * 1024)
      invariant Budget(z, Snap(m), m.used, parent, tr, i * 1024)
    {
      var e := Entry(m.tables, parent, i);
      EntryKept(s0, Snap(m), dirs, m.kernelDir, parent, tr, i * 1024, i);
      SlotPages(m.tables, parent, i);
      if e == 0 {
        SkipPages(s0, Snap(m), dirs, m.kernelDir, parent, tr, i * 1024, 1024);
        ParentPages(s0, Snap(m), dirs, m.kernelDir, parent, tr, i * 1024, i * 1024, 1024);
        BudgetSkip(z, Snap(m), m.used, parent, tr, i * 1024, 1024);
      } else if Large(e) {
        LargePieceAt(s0.t, parent, i);
        var ok := CopyPiece(m, parent, tr, i * 1024, 1024, z, dirs);
        if !ok {
          return None;
        }
      } else {
        var ok := CopyTable(m, parent, tr, i, e, z, dirs);
        if !ok {
          return None;
        }
      }
    }
    ForkMeaning(s0, Snap(m), dirs, m.kernelDir, parent, tr);
    HeapStays(s0, Snap(m), dirs, m.kernelDir, parent, tr, USER_PAGES);
    BudgetSpent(z, Snap(m), m.used, dirs, m.kernelDir, parent, tr);
    TrueCopy(s0, m.kernelDir, parent);
    ChildMay(s0, Snap(m), dirs, m.kernelDir, parent, tr);
    AmpleParts(z, parent);
    if HeapAlike(s0.t, parent, m.kernelDir, s0.heap.end) {
      AlikeIsTrue(s0, m.kernelDir, parent);
    }
    assert forall d :: d in m.dirs ==> BackedDir(Snap(m), d);
  }

  /** User code of the child may use exactly the pages that the parent has. */
  lemma ChildMay(s0: Snapshot, s: Snapshot, dirs: set<nat>, kernel: nat, parent: nat, child: nat)
    requires Forked(s0, s, dirs, kernel, parent, child, USER_PAGES) && Usable(s.t, dirs + {child}, kernel)
    requires kernel in dirs && child !in dirs
    ensures forall p :: 0 <= p < USER_PAGES ==> (UserMay(s.t, child, p) <==> Lookup(s0.t, parent, p).Some?)
  {
    hide Lookup, Usable, UserMay, Got, BufferAt;
    forall p | 0 <= p < USER_PAGES
      ensures UserMay(s.t, child, p) <==> Lookup(s0.t, parent, p).Some?
    {
      UsableMeans(s.t, dirs + {child}, kernel, child, p);
      assert SamePage(s0, s, kernel, parent, child, p);
    }
  }

  lemma AmpleParts(z: Start, parent: nat)
    requires Ample(z, parent)
    ensures HeapAmple(z.s, parent) && PhysAmple(z.s, parent)
  {
  }

  lemma TrueCopy(s0: Snapshot, kernel: nat, parent: nat)
    requires |s0.ram| == PAGES && s0.t.Keys <= s0.kf && BackedDir(s0, parent)
    ensures TrueBuffers(s0, kernel, parent) ==>
              forall va :: 0 <= va < USER_TOP ==> ChildByte(s0, kernel, parent, va) == ReadByte(s0, parent, va)
  {
    hide ChildByte, ReadByte, Lookup, TruePage, BackedDir;
    if TrueBuffers(s0, kernel, parent) {
      forall va | 0 <= va < USER_TOP
        ensures ChildByte(s0, kernel, parent, va) == ReadByte(s0, parent, va)
      {
        assert va / 4096 < USER_PAGES;
        TrueByte(s0, kernel, parent, va);
      }
    }
  }

  lemma LargePieceAt(t: Tables, d: nat, i: nat)
    requires i < KERNEL_SLOT && Large(Entry(t, d, i))
    ensures IsPiece(t, d, i * 1024, 1024)
  {
    assert i * 1024 / 1024 == i;
  }

  lemma SmallPieceAt(t: Tables, d: nat, i: nat, j: nat)
    requires j < 1024 && IsTable(Entry(t, d, i)) && Lookup(t, d, i * 1024 + j).Some?
    ensures IsPiece(t, d, i * 1024 + j, 1)
  {
    DivideBy(i * 1024 + j, 1024, i, j);
  }

  /** The loop over the 4 KiB pages of slot `i`, whose word `e` names a table. */
  method CopyTable(m: Mmu, parent: nat, child: nat, i: nat, e: Word, ghost z: Start, ghost dirs: set<nat>)
    returns (ok: bool)
    requires m.Valid() && m.dirs == dirs + {child} && parent in dirs && child !in dirs && m.kernelDir in dirs
    requires i < KERNEL_SLOT && BackedDir(z.s, parent) && e == Entry(z.s.t, parent, i) && IsTable(e)
    requires Forked(z.s, Snap(m), dirs, m.kernelDir, parent, child, i * 1024)
    requires HeapOk(z.s.heap) && HeapViewed(z.s.t, dirs, z.s.heap.end, z.s.kf)
    requires Budget(z, Snap(m), m.used, parent, child, i * 1024)
    modifies m`tables, m`used, m`blocks, m`ram, m`current, m`heap
    ensures m.Valid() && m.tables.Keys == old(m.tables.Keys) && m.current == old(m.current)
    ensures ok ==> Forked(z.s, Snap(m), dirs, m.kernelDir, parent, child, i * 1024 + 1024)
    ensures ok ==> Budget(z, Snap(m), m.used, parent, child, i * 1024 + 1024)
    ensures !ok ==> !Ample(z, parent) && (m.HeapFull() || !PhysAmple(z.s, parent) || !HeapAmple(z.s, parent))
  {
    hide Forked, Budget, Ample, Room, Lookup, Sound, ListOk, FrameFree, BackedDir, HeapViewed, HeapOk, KernelHeld, HeapAmple,
         PhysAmple, IsPiece, Usable;
    ok := true;
    for j := 0 to 1024
      invariant m.Valid() && m.tables.Keys == old(m.tables.Keys) && m.current == old(m.current) && ok
      invariant Forked(z.s, Snap(m), dirs, m.kernelDir, parent, child, i * 1024 + j)
      invariant Budget(z, Snap(m), m.used, parent, child, i * 1024 + j)
    {
      EntryKept(z.s, Snap(m), dirs, m.kernelDir, parent, child, i * 1024 + j, i);
      ParentPages(z.s, Snap(m), dirs, m.kernelDir, parent, child, i * 1024 + j, i * 1024 + j, 1);
      SlotPages(m.tables, parent, i);
      assert Lookup(m.tables, parent, i * 1024 + j) == PteLeaf(Entry(m.tables, FrameOf(e), j));
      if Entry(m.tables, FrameOf(e), j) == 0 {
        SkipPages(z.s, Snap(m), dirs, m.kernelDir, parent, child, i * 1024 + j, 1);
        BudgetSkip(z, Snap(m), m.used, parent, child, i * 1024 + j, 1);
      } else {
        SmallPieceAt(z.s.t, parent, i, j);
        ok := CopyPiece(m, parent, child, i * 1024 + j, 1, z, dirs);
        if !ok {
          return;
        }
      }
    }
  }

  /** A piece of the copy, with what it uses up. */
  method CopyPiece(m: Mmu, parent: nat, child: nat, v: nat, n: nat, ghost z: Start, ghost dirs: set<nat>)
    returns (ok: bool)
    requires m.Valid() && m.dirs == dirs + {child} && parent in dirs && child !in dirs && m.kernelDir in dirs
    requires 0 < n && v + n <= USER_PAGES && v / 1024 == (v + n - 1) / 1024 && BackedDir(z.s, parent)
    requires Forked(z.s, Snap(m), dirs, m.kernelDir, parent, child, v)
    requires HeapOk(z.s.heap) && HeapViewed(z.s.t, dirs, z.s.heap.end, z.s.kf)
    requires Budget(z, Snap(m), m.used, parent, child, v) && IsPiece(z.s.t, parent, v, n)
    requires forall p :: v <= p < v + n ==> Lookup(m.tables, parent, p).Some?
    modifies m`tables, m`used, m`blocks, m`ram, m`current, m`heap
    ensures m.Valid() && m.tables.Keys == old(m.tables.Keys) && m.current == old(m.current)
    ensures ok ==> Forked(z.s, Snap(m), dirs, m.kernelDir, parent, child, v + n)
    ensures ok ==> Budget(z, Snap(m), m.used, parent, child, v + n)
    ensures !ok ==> !Ample(z, parent) && (m.HeapFull() || !PhysAmple(z.s, parent) || !HeapAmple(z.s, parent))
  {
    hide Forked, Ample, FreeSet, NonEmpty, Room, Lookup, HeapViewed, HeapOk, AfterPiece, HeapAmple, PhysAmple, MappedSlots,
         IsPiece, Sound, ListOk, FrameFree, KernelHeld, Replay, Usable;
    ghost var before, used := Snap(m), m.used;
    ParentPages(z.s, before, dirs, m.kernelDir, parent, child, v, v, n);
    BudgetAllows(z, before, used, parent, child, v, n);
    AmpleOnly(z, parent);
    FullMeansNone(m.used);
    ok := CopyRange(m, parent, child, v, n, z.s, dirs);
    if ok {
      BudgetCopy(z, before, used, Snap(m), m.used, parent, child, v, n);
    }
  }

  lemma AmpleOnly(z: Start, parent: nat)
    ensures Ample(z, parent) ==> HeapAmple(z.s, parent) && PhysAmple(z.s, parent)
  {
  }
}
