/** What `copy_adress_space` keeps true from page to page. */
module ForkSpec {
  import opened Machine
  import opened PageTables
  import opened Physical
  import opened Paging
  import opened HeapUse
  import opened ForkHeap
  import opened CopyBuffer
  import HeapGrowth

  /** Memory as the copy sees it: the tables, the physical list, the contents of the frames, the frames that belong
      to the kernel, and the kernel heap. */
  datatype Snapshot = Snapshot(t: Tables, bs: seq<PBlock>, ram: seq<Page>, kf: set<nat>, heap: HeapState)

  /** The user half of `d` uses no frame that is still free, and none of the kernel's. */
  ghost predicate BackedDir(s: Snapshot, d: nat) {
    forall p :: 0 <= p < USER_PAGES && Lookup(s.t, d, p).Some? ==> UserFrame(s.kf, s.bs, Lookup(s.t, d, p).value.frame)
  }

  /** Every directory that was there translates as before. */
  ghost predicate Unmoved(t0: Tables, t: Tables, dirs: set<nat>) {
    && (forall d, p :: d in dirs && 0 <= p < PAGES ==> Lookup(t, d, p) == Lookup(t0, d, p))
    && (forall d, i :: d in dirs && 0 <= i < 1024 ==> Entry(t, d, i) == Entry(t0, d, i))
  }

  /** What the child gets of a page that passes through the heap at `q`: stored through the parent, fetched through
      the child, which sees the heap as the kernel's directory does. */
  ghost function Got(s: Snapshot, kernel: nat, parent: nat, page: Page, q: nat): Page
    requires |s.ram| == PAGES
  {
    Arrival(s.t, s.ram, parent, kernel, q, page)
  }

  /** Page `p` is absent from both spaces, or a user page of the child with what the parent's page became on its way. */
  ghost predicate SamePage(s0: Snapshot, s: Snapshot, kernel: nat, parent: nat, child: nat, p: nat)
    requires |s0.ram| == PAGES && |s.ram| == PAGES
  {
    FrameBound(s0.t, parent, p);
    FrameBound(s.t, child, p);
    match Lookup(s0.t, parent, p)
    case None => Lookup(s.t, child, p) == None
    case Some(from) =>
      && Lookup(s.t, child, p).Some?
      && Lookup(s.t, child, p).value.access == Access(false)
      && s.ram[Lookup(s.t, child, p).value.frame] ==
         Got(s0, kernel, parent, s0.ram[from.frame], BufferAt(s0.heap, s0.t, parent, p))
  }

  ghost predicate Copied(s0: Snapshot, s: Snapshot, kernel: nat, parent: nat, child: nat, upto: nat)
    requires |s0.ram| == PAGES && |s.ram| == PAGES
  {
    forall p :: 0 <= p < upto ==> SamePage(s0, s, kernel, parent, child, p)
  }

  /** Heap frames of the kernel's directory that the parent does not see have not been written. */
  ghost predicate UnseenKept(s0: Snapshot, ram: seq<Page>, ram': seq<Page>, kernel: nat, parent: nat)
    requires |ram| == PAGES && |ram'| == PAGES
  {
    forall p: nat :: HEAP_PAGE <= p < s0.heap.end / 4096 && FrameAt(s0.t, parent, p) != FrameAt(s0.t, kernel, p) ==>
      ram'[FrameAt(s0.t, kernel, p)] == ram[FrameAt(s0.t, kernel, p)]
  }

  ghost predicate EmptyFrom(t: Tables, child: nat, upto: nat) {
    forall p :: upto <= p < USER_PAGES ==> Lookup(t, child, p) == None
  }

  /** The child's frames were free before the copy and are free no longer. */
  ghost predicate Fresh(t: Tables, child: nat, bs0: seq<PBlock>, bs: seq<PBlock>) {
    forall p :: 0 <= p < USER_PAGES && Lookup(t, child, p).Some? ==>
      FrameFree(bs0, Lookup(t, child, p).value.frame) && !FrameFree(bs, Lookup(t, child, p).value.frame)
  }

  ghost predicate Injective(t: Tables, child: nat) {
    forall p, q :: 0 <= p < q < USER_PAGES && Lookup(t, child, p).Some? && Lookup(t, child, q).Some? ==>
      Lookup(t, child, p).value.frame != Lookup(t, child, q).value.frame
  }

  /** Only frames that have been taken, or hold the kernel's own data, have been written. */
  ghost predicate RamKept(kf: set<nat>, bs0: seq<PBlock>, bs: seq<PBlock>, ram0: seq<Page>, ram: seq<Page>) {
    |ram0| == |ram|
    && forall f :: 0 <= f < |ram0| && f !in kf && (FrameFree(bs0, f) ==> FrameFree(bs, f)) ==> ram[f] == ram0[f]
  }

  ghost predicate Shrunk(bs0: seq<PBlock>, bs: seq<PBlock>) {
    forall f :: FrameFree(bs, f) ==> FrameFree(bs0, f)
  }

  ghost predicate SharesKernel(t0: Tables, t: Tables, kernel: nat, child: nat) {
    && (forall p :: USER_PAGES <= p < PAGES ==> Lookup(t, child, p) == Lookup(t0, kernel, p))
    && (forall i :: KERNEL_SLOT <= i < 1024 ==> Entry(t, child, i) == Entry(t0, kernel, i))
  }

  ghost predicate Forked(s0: Snapshot, s: Snapshot, dirs: set<nat>, kernel: nat, parent: nat, child: nat, upto: nat) {
    && |s0.ram| == PAGES && |s.ram| == PAGES
    && Unmoved(s0.t, s.t, dirs)
    && Copied(s0, s, kernel, parent, child, upto)
    && UnseenKept(s0, s0.ram, s.ram, kernel, parent) && s.heap.end == s0.heap.end
    && EmptyFrom(s.t, child, upto)
    && Fresh(s.t, child, s0.bs, s.bs)
    && Injective(s.t, child)
    && RamKept(s0.kf, s0.bs, s.bs, s0.ram, s.ram)
    && s.kf == s0.kf && KernelHeld(s0.kf, s0.bs)
    && Shrunk(s0.bs, s.bs)
    && SharesKernel(s0.t, s.t, kernel, child)
  }

  lemma NewParent(s0: Snapshot, s: Snapshot, dirs: set<nat>, kernel: nat, parent: nat, child: nat)
    requires Forked(s0, s, dirs, kernel, kernel, child, 0) && s.ram == s0.ram
    ensures Forked(s0, s, dirs, kernel, parent, child, 0)
  {
  }

  /** How the 1024 pages of a slot follow from its directory word. */
  lemma SlotPages(t: Tables, d: nat, i: nat)
    ensures Entry(t, d, i) == 0 ==> forall p :: i * 1024 <= p < i * 1024 + 1024 ==> Lookup(t, d, p) == None
    ensures Large(Entry(t, d, i)) ==> forall p :: i * 1024 <= p < i * 1024 + 1024 ==> Lookup(t, d, p).Some?
    ensures IsTable(Entry(t, d, i)) ==> forall j :: 0 <= j < 1024 ==>
              Lookup(t, d, i * 1024 + j) == PteLeaf(Entry(t, FrameOf(Entry(t, d, i)), j))
  {
  }

  lemma EntryKept(s0: Snapshot, s: Snapshot, dirs: set<nat>, kernel: nat, parent: nat, child: nat, upto: nat, i: nat)
    requires Forked(s0, s, dirs, kernel, parent, child, upto) && parent in dirs && i < 1024
    ensures Entry(s.t, parent, i) == Entry(s0.t, parent, i)
  {
  }

  /** Pages the parent does not map need no work. */
  lemma SkipPages(s0: Snapshot, s: Snapshot, dirs: set<nat>, kernel: nat, parent: nat, child: nat, v: nat, n: nat)
    requires Forked(s0, s, dirs, kernel, parent, child, v) && parent in dirs && v + n <= USER_PAGES
    requires forall p :: v <= p < v + n ==> Lookup(s.t, parent, p) == None
    ensures Forked(s0, s, dirs, kernel, parent, child, v + n)
  {
    forall p | 0 <= p < v + n
      ensures SamePage(s0, s, kernel, parent, child, p)
    {
      if v <= p {
        assert Lookup(s.t, parent, p) == Lookup(s0.t, parent, p);
      }
    }
  }

  /** The frames from `first` hold `buf`; otherwise only the kernel's frames have changed. */
  ghost predicate Written(kf: set<nat>, ram: seq<Page>, ram': seq<Page>, first: nat, buf: seq<Page>) {
    |ram'| == |ram| && forall f :: 0 <= f < |ram| && f !in kf ==>
      ram'[f] == if first <= f < first + |buf| then buf[f - first] else ram[f]
  }

  ghost predicate Sees(t: Tables, ram: seq<Page>, d: nat, p: nat, page: Page)
    requires |ram| == PAGES
  {
    FrameBound(t, d, p);
    Lookup(t, d, p).Some? && page == ram[Lookup(t, d, p).value.frame]
  }

  /** `buf` holds what becomes of the pages from `v` of the parent on their way through the heap at `q`. */
  ghost predicate Holds(s: Snapshot, ram: seq<Page>, kernel: nat, parent: nat, v: nat, q: nat, buf: seq<Page>)
    requires |ram| == PAGES
  {
    forall k :: 0 <= k < |buf| ==>
      Lookup(s.t, parent, v + k).Some?
      && buf[k] == Arrival(s.t, ram, parent, kernel, q + k * 4096, ram[FrameAt(s.t, parent, v + k)])
  }

  /** The pages from `v` of the child, as `map_memory` and the two copies leave them. */
  ghost predicate PageCopied(s0: Snapshot, s: Snapshot, s': Snapshot, dirs: set<nat>, kernel: nat, parent: nat, child: nat,
                             v: nat, first: nat, q: nat, buf: seq<Page>)
  {
    && |s0.ram| == PAGES && |s.ram| == PAGES && |s'.ram| == PAGES && first + |buf| <= PAGES && v + |buf| <= USER_PAGES
    && Progress(s.t, s'.t, dirs + {child}, child, v, |buf|, first, Access(false))
    && Taken(s.bs, s'.bs, first, |buf|)
    && Written(s.kf, s.ram, s'.ram, first, buf) && s'.kf == s.kf && s'.heap.end == s.heap.end
    && UnseenKept(s0, s.ram, s'.ram, kernel, parent)
    && (forall i :: KERNEL_SLOT <= i < 1024 ==> Entry(s'.t, child, i) == Entry(s.t, child, i))
    && Holds(s0, s.ram, kernel, parent, v, q, buf)
  }

  /** The buffer lies in the heap, where the parent's pages pass through. */
  ghost predicate Passes(s0: Snapshot, parent: nat, v: nat, n: nat, q: nat) {
    && HEAP_PAGE * 4096 < q && q + n * 4096 <= s0.heap.end && s0.heap.end % 4096 == 0
    && forall k :: 0 <= k < n ==> BufferAt(s0.heap, s0.t, parent, v + k) == q + k * 4096
  }

  lemma ParentKept(t: Tables, t': Tables, dirs: set<nat>, parent: nat, child: nat, v: nat, n: nat)
    requires Outside(t, t', dirs + {child}, child, v, n) && parent in dirs && parent != child && v + n <= USER_PAGES
    ensures forall p :: v <= p < v + n ==> Lookup(t', parent, p) == Lookup(t, parent, p)
  {
  }

  lemma ChildMapped(t: Tables, child: nat, v: nat, n: nat, first: nat)
    requires MappedTo(t, child, v, n, first, Access(false)) && first + n <= PAGES && v + n <= PAGES
    ensures forall p :: v <= p < v + n ==> Lookup(t, child, p) == Some(Leaf(first + (p - v), Access(false)))
  {
  }

  lemma ChildFrames(s0: Snapshot, s: Snapshot, s': Snapshot, dirs: set<nat>, kernel: nat, parent: nat, child: nat,
                    v: nat, first: nat, q: nat, buf: seq<Page>, p: nat)
    requires PageCopied(s0, s, s', dirs, kernel, parent, child, v, first, q, buf) && p < USER_PAGES
    ensures v <= p < v + |buf| ==> Lookup(s'.t, child, p) == Some(Leaf(first + (p - v), Access(false)))
    ensures !(v <= p < v + |buf|) ==> Lookup(s'.t, child, p) == Lookup(s.t, child, p)
  {
    assert v <= p ==> Off(p, v) == p - v;
  }

  lemma CopyKeepsOthers(s0: Snapshot, s: Snapshot, s': Snapshot, dirs: set<nat>, kernel: nat, parent: nat, child: nat,
                        v: nat, first: nat, q: nat, buf: seq<Page>)
    requires Forked(s0, s, dirs, kernel, parent, child, v) && child !in dirs
    requires PageCopied(s0, s, s', dirs, kernel, parent, child, v, first, q, buf)
    ensures Unmoved(s0.t, s'.t, dirs) && SharesKernel(s0.t, s'.t, kernel, child)
    ensures EmptyFrom(s'.t, child, v + |buf|)
    ensures RamKept(s0.kf, s0.bs, s'.bs, s0.ram, s'.ram) && Shrunk(s0.bs, s'.bs)
  {
    hide FrameFree, Lookup;
    forall d, p | d in dirs && 0 <= p < PAGES
      ensures Lookup(s'.t, d, p) == Lookup(s0.t, d, p)
    {
      if p >= USER_PAGES {
        assert Off(p, v) >= |buf|;
      }
      assert Lookup(s'.t, d, p) == Lookup(s.t, d, p);
    }
    forall d, i | d in dirs && 0 <= i < 1024
      ensures Entry(s'.t, d, i) == Entry(s0.t, d, i)
    {
      assert Entry(s'.t, d, i) == Entry(s.t, d, i);
    }
    forall p | USER_PAGES <= p < PAGES
      ensures Lookup(s'.t, child, p) == Lookup(s0.t, kernel, p)
    {
      assert Off(p, v) >= |buf|;
    }
    forall p | v + |buf| <= p < USER_PAGES
      ensures Lookup(s'.t, child, p) == None
    {
      ChildFrames(s0, s, s', dirs, kernel, parent, child, v, first, q, buf, p);
    }
  }

  lemma CopyIsFresh(s0: Snapshot, s: Snapshot, s': Snapshot, dirs: set<nat>, kernel: nat, parent: nat, child: nat,
                    v: nat, first: nat, q: nat, buf: seq<Page>)
    requires Forked(s0, s, dirs, kernel, parent, child, v)
    requires PageCopied(s0, s, s', dirs, kernel, parent, child, v, first, q, buf)
    ensures Fresh(s'.t, child, s0.bs, s'.bs) && Injective(s'.t, child)
  {
    hide FrameFree, Lookup, Unmoved, Copied, SharesKernel, RamKept, Written, Holds, Progress;
    forall p | 0 <= p < USER_PAGES && Lookup(s'.t, child, p).Some?
      ensures FrameFree(s0.bs, Lookup(s'.t, child, p).value.frame)
      ensures !FrameFree(s'.bs, Lookup(s'.t, child, p).value.frame)
    {
      ChildFrames(s0, s, s', dirs, kernel, parent, child, v, first, q, buf, p);
    }
    forall p, p' | 0 <= p < p' < USER_PAGES && Lookup(s'.t, child, p).Some? && Lookup(s'.t, child, p').Some?
      ensures Lookup(s'.t, child, p).value.frame != Lookup(s'.t, child, p').value.frame
    {
      ChildFrames(s0, s, s', dirs, kernel, parent, child, v, first, q, buf, p);
      ChildFrames(s0, s, s', dirs, kernel, parent, child, v, first, q, buf, p');
    }
  }

  /** Frames that the parent does not see held the same when the page passed through as at the start. */
  lemma SameArrival(s0: Snapshot, ram: seq<Page>, kernel: nat, parent: nat, page: Page, q: nat)
    requires |s0.ram| == PAGES && |ram| == PAGES && UnseenKept(s0, s0.ram, ram, kernel, parent)
    requires HEAP_PAGE * 4096 < q && q + 4096 <= s0.heap.end && s0.heap.end % 4096 == 0
    ensures Arrival(s0.t, ram, parent, kernel, q, page) == Got(s0, kernel, parent, page, q)
  {
    hide Lookup, FrameAt;
    InHeapPages(q, 1, s0.heap.end);
    var p := q / 4096;
    assert HEAP_PAGE <= p < s0.heap.end / 4096;
    assert q % 4096 != 0 ==> p + 1 < s0.heap.end / 4096;
  }

  lemma HoldsAt(s: Snapshot, ram: seq<Page>, kernel: nat, parent: nat, v: nat, q: nat, buf: seq<Page>, k: nat)
    requires |ram| == PAGES && Holds(s, ram, kernel, parent, v, q, buf) && k < |buf|
    ensures Lookup(s.t, parent, v + k).Some?
    ensures buf[k] == Arrival(s.t, ram, parent, kernel, q + k * 4096, ram[FrameAt(s.t, parent, v + k)])
  {
  }

  lemma CopyCopies(s0: Snapshot, s: Snapshot, s': Snapshot, dirs: set<nat>, kernel: nat, parent: nat, child: nat,
                   v: nat, first: nat, q: nat, buf: seq<Page>)
    requires Forked(s0, s, dirs, kernel, parent, child, v) && parent in dirs && BackedDir(s0, parent)
    requires PageCopied(s0, s, s', dirs, kernel, parent, child, v, first, q, buf) && Passes(s0, parent, v, |buf|, q)
    ensures Copied(s0, s', kernel, parent, child, v + |buf|)
  {
    hide FrameFree, Lookup, SharesKernel, Injective, Progress, Got, BufferAt, Arrival, Holds;
    forall p | 0 <= p < v + |buf|
      ensures SamePage(s0, s', kernel, parent, child, p)
    {
      ChildFrames(s0, s, s', dirs, kernel, parent, child, v, first, q, buf, p);
      assert Lookup(s.t, parent, p) == Lookup(s0.t, parent, p);
      if p < v {
        assert SamePage(s0, s, kernel, parent, child, p);
        FrameBound(s.t, child, p);
        if Lookup(s.t, child, p).Some? {
          var f := Lookup(s.t, child, p).value.frame;
          assert !FrameFree(s.bs, f) && FrameFree(s0.bs, f) && f !in s.kf;
          assert s'.ram[f] == s.ram[f];
        }
      } else {
        var k := p - v;
        HoldsAt(s0, s.ram, kernel, parent, v, q, buf, k);
        FrameBound(s0.t, parent, v + k);
        var f := Lookup(s0.t, parent, v + k).value.frame;
        assert UserFrame(s0.kf, s0.bs, f) && s.ram[f] == s0.ram[f] && FrameAt(s0.t, parent, v + k) == f;
        SameArrival(s0, s.ram, kernel, parent, s.ram[f], q + k * 4096);
        assert FrameFree(s.bs, first + k) && FrameFree(s0.bs, first + k) && first + k !in s.kf;
        assert s'.ram[first + k] == buf[k];
        assert BufferAt(s0.heap, s0.t, parent, v + k) == q + k * 4096;
      }
    }
  }

  lemma CopyPages(s0: Snapshot, s: Snapshot, s': Snapshot, dirs: set<nat>, kernel: nat, parent: nat, child: nat,
                  v: nat, first: nat, q: nat, buf: seq<Page>)
    requires Forked(s0, s, dirs, kernel, parent, child, v) && parent in dirs && child !in dirs
    requires BackedDir(s0, parent) && Passes(s0, parent, v, |buf|, q)
    requires PageCopied(s0, s, s', dirs, kernel, parent, child, v, first, q, buf)
    ensures Forked(s0, s', dirs, kernel, parent, child, v + |buf|)
  {
    CopyKeepsOthers(s0, s, s', dirs, kernel, parent, child, v, first, q, buf);
    CopyIsFresh(s0, s, s', dirs, kernel, parent, child, v, first, q, buf);
    CopyCopies(s0, s, s', dirs, kernel, parent, child, v, first, q, buf);
  }

  // ---------------------------------------------------------------- what a copy needs

  /** The user slots of `d` in use. */
  ghost function NonEmpty(t: Tables, d: nat): set<nat> {
    set i: nat | i < KERNEL_SLOT && Entry(t, d, i) != 0
  }

  ghost predicate HasPage(t: Tables, d: nat, i: nat) {
    exists p: nat :: p / 1024 == i && Lookup(t, d, p).Some?
  }

  /** The user slots of `d` with a page behind them: a copy needs a table for each. */
  ghost function MappedSlots(t: Tables, d: nat): set<nat> {
    set i: nat | i < KERNEL_SLOT && HasPage(t, d, i)
  }

  /** Where the copy starts from. */
  datatype Start = Start(s: Snapshot, used: seq<bool>)

  /** What the copy has used up, with the child's pages below `upto` done: one page-heap frame for the directory and
      one per table, and of the physical list and the kernel heap what those pages take. */
  ghost predicate Budget(z: Start, s: Snapshot, used: seq<bool>, parent: nat, child: nat, upto: nat) {
    && HeapBelow(z.s.heap, z.s.t, parent, upto) == Some(s.heap)
    && PhysBelow(z.s.bs, z.s.t, parent, upto) == Some(s.bs)
    && |FreeSet(used)| + |NonEmpty(s.t, child)| == |FreeSet(z.used)| - 1
    && NonEmpty(s.t, child) <= MappedSlots(z.s.t, parent)
  }

  /** The kernel heap takes the nodes and buffers of a copy without growing. */
  predicate HeapAmple(s: Snapshot, parent: nat) {
    HeapBelow(s.heap, s.t, parent, USER_PAGES).Some?
  }

  /** First fit finds memory for every piece. */
  predicate PhysAmple(s: Snapshot, parent: nat) {
    PhysBelow(s.bs, s.t, parent, USER_PAGES).Some?
  }

  /** The parent can be copied: a page-heap frame for the directory and each table, memory for every piece, and a
      kernel heap that need not grow. */
  ghost predicate Ample(z: Start, parent: nat) {
    |FreeSet(z.used)| > |MappedSlots(z.s.t, parent)| && PhysAmple(z.s, parent) && HeapAmple(z.s, parent)
  }

  lemma BudgetStart(z: Start, s: Snapshot, used: seq<bool>, parent: nat, child: nat)
    requires |FreeSet(used)| == |FreeSet(z.used)| - 1 && NonEmpty(s.t, child) == {} && s.bs == z.s.bs && s.heap == z.s.heap
    ensures Budget(z, s, used, parent, child, 0)
  {
  }

  lemma NoFrames(z: Start, parent: nat)
    requires |FreeSet(z.used)| == 0
    ensures !Ample(z, parent)
  {
  }

  /** The parent's pages are those it had at the start. */
  lemma ParentPages(s0: Snapshot, s: Snapshot, dirs: set<nat>, kernel: nat, parent: nat, child: nat, upto: nat, v: nat, n: nat)
    requires Forked(s0, s, dirs, kernel, parent, child, upto) && parent in dirs && v + n <= USER_PAGES
    ensures forall p :: v <= p < v + n ==> Lookup(s0.t, parent, p) == Lookup(s.t, parent, p)
  {
  }

  lemma BudgetSkip(z: Start, s: Snapshot, used: seq<bool>, parent: nat, child: nat, v: nat, n: nat)
    requires Budget(z, s, used, parent, child, v) && forall p :: v <= p < v + n ==> Lookup(z.s.t, parent, p) == None
    ensures Budget(z, s, used, parent, child, v + n)
  {
    hide FreeSet, NonEmpty, MappedSlots, Lookup, Replay;
    UnmappedSkip(z.s.heap, AfterPiece, z.s.t, parent, v, n);
    UnmappedSkip(z.s.bs, AfterReserve, z.s.t, parent, v, n);
  }

  /** With ample means the next piece can be copied, and without one of them they were not ample. */
  lemma BudgetAllows(z: Start, s: Snapshot, used: seq<bool>, parent: nat, child: nat, v: nat, n: nat)
    requires Budget(z, s, used, parent, child, v) && IsPiece(z.s.t, parent, v, n)
    requires 0 < n && v + n <= USER_PAGES && Lookup(z.s.t, parent, v).Some?
    ensures PhysAmple(z.s, parent) ==> AfterReserve(s.bs, n).Some?
    ensures HeapAmple(z.s, parent) ==> AfterPiece(s.heap, n).Some?
    ensures Ample(z, parent) && Entry(s.t, child, v / 1024) == 0 ==> |FreeSet(used)| > 0
  {
    hide FreeSet, Lookup, Replay, AfterPiece, AfterReserve, IsPiece;
    var t := z.s.t;
    ReplayPiece(z.s.heap, AfterPiece, t, parent, v, n);
    ReplayPiece(z.s.bs, AfterReserve, t, parent, v, n);
    if PhysAmple(z.s, parent) {
      ReplayPrefix(z.s.bs, AfterReserve, t, parent, v + n, USER_PAGES);
    }
    if HeapAmple(z.s, parent) {
      ReplayPrefix(z.s.heap, AfterPiece, t, parent, v + n, USER_PAGES);
    }
    var i: nat := v / 1024;
    assert HasPage(t, parent, i) && i < KERNEL_SLOT;
    if Entry(s.t, child, i) == 0 {
      assert NonEmpty(s.t, child) <= MappedSlots(t, parent) - {i};
      SubsetSize(NonEmpty(s.t, child), MappedSlots(t, parent) - {i});
    }
  }

  /** One piece copied: its slot is in use, its memory carved off, and its share of the kernel heap taken. */
  lemma BudgetCopy(z: Start, s: Snapshot, used: seq<bool>, s': Snapshot, used': seq<bool>, parent: nat, child: nat, v: nat,
                   n: nat)
    requires Budget(z, s, used, parent, child, v) && IsPiece(z.s.t, parent, v, n)
    requires 0 < n && v + n <= USER_PAGES && Lookup(z.s.t, parent, v).Some?
    requires NonEmpty(s'.t, child) == NonEmpty(s.t, child) + {v / 1024}
    requires |FreeSet(used')| == |FreeSet(used)| - if Entry(s.t, child, v / 1024) == 0 then 1 else 0
    requires AfterPiece(s.heap, n) == Some(s'.heap) && AfterReserve(s.bs, n) == Some(s'.bs)
    ensures Budget(z, s', used', parent, child, v + n)
  {
    hide FreeSet, Lookup, Replay, AfterPiece, AfterReserve, IsPiece;
    ReplayPiece(z.s.heap, AfterPiece, z.s.t, parent, v, n);
    ReplayPiece(z.s.bs, AfterReserve, z.s.t, parent, v, n);
    assert HasPage(z.s.t, parent, v / 1024);
    if Entry(s.t, child, v / 1024) != 0 {
      assert v / 1024 in NonEmpty(s.t, child) && NonEmpty(s'.t, child) == NonEmpty(s.t, child);
    } else {
      assert v / 1024 !in NonEmpty(s.t, child);
    }
  }

  /** A finished copy has a table exactly for each of the parent's slots with pages; the physical list and the
      kernel heap are those computed beforehand; and the means were ample. */
  lemma BudgetSpent(z: Start, s: Snapshot, used: seq<bool>, dirs: set<nat>, kernel: nat, parent: nat, child: nat)
    requires Budget(z, s, used, parent, child, USER_PAGES)
    requires Forked(z.s, s, dirs, kernel, parent, child, USER_PAGES)
    ensures |FreeSet(used)| == |FreeSet(z.used)| - 1 - |MappedSlots(z.s.t, parent)|
    ensures HeapBelow(z.s.heap, z.s.t, parent, USER_PAGES) == Some(s.heap)
    ensures PhysBelow(z.s.bs, z.s.t, parent, USER_PAGES) == Some(s.bs) && Ample(z, parent)
    ensures NonEmpty(s.t, child) == MappedSlots(z.s.t, parent)
  {
    hide Replay, FreeSet, Got, BufferAt;
    var s0 := z.s;
    forall i | i in MappedSlots(s0.t, parent)
      ensures i in NonEmpty(s.t, child)
    {
      var p: nat :| p / 1024 == i && Lookup(s0.t, parent, p).Some?;
      assert SamePage(s0, s, kernel, parent, child, p);
      assert Entry(s.t, child, p / 1024) != 0;
    }
    assert NonEmpty(s.t, child) == MappedSlots(s0.t, parent);
  }

  /** Old directories see the kernel heap as before, and the child sees it as the kernel's directory does. */
  lemma HeapStays(s0: Snapshot, s: Snapshot, dirs: set<nat>, kernel: nat, parent: nat, child: nat, upto: nat)
    requires Forked(s0, s, dirs, kernel, parent, child, upto) && kernel in dirs && HeapOk(s0.heap)
    requires HeapViewed(s0.t, dirs, s0.heap.end, s0.kf)
    ensures HeapViewed(s.t, dirs + {child}, s.heap.end, s.kf) && HeapAlike(s.t, child, kernel, s.heap.end)
    ensures forall d :: d in dirs && HeapAlike(s0.t, d, kernel, s0.heap.end) ==> HeapAlike(s.t, d, kernel, s.heap.end)
  {
    hide Lookup, Copied, EmptyFrom, Fresh, Injective, RamKept, Shrunk, HeapOk, KernelHeld;
    HeapPages(s0.heap);
    forall d, p | d in dirs + {child} && HEAP_PAGE <= p < s0.heap.end / 4096
      ensures Lookup(s.t, d, p) == Lookup(s0.t, if d in dirs then d else kernel, p)
    {
    }
    forall d, e, p, q | d in dirs + {child} && e in dirs + {child} && HEAP_PAGE <= p < q < s.heap.end / 4096
      ensures Elsewhere(s.t, d, p, e, q)
    {
      var d0, e0 := if d in dirs then d else kernel, if e in dirs then e else kernel;
      assert Elsewhere(s0.t, d0, p, e0, q);
    }
  }

  /** What happens where the heap would have to grow: the buffer reaches past the end the child knows, and
      the child has no page there, so the copy through the child faults. */
  lemma GrownBufferFaults(s0: Snapshot, s: Snapshot, dirs: set<nat>, kernel: nat, parent: nat, child: nat, upto: nat,
                          h: HeapState, n: nat, spaces: nat, fuel: nat)
    requires Forked(s0, s, dirs, kernel, parent, child, upto) && HeapOk(h) && 0 < n <= 1024 && !HeapFits(h, n * 4096)
    requires forall p :: h.end / 4096 <= p < 0xE_0800 ==> Lookup(s0.t, kernel, p) == None
    requires 0 < spaces && HeapGrowth.Kmalloc(h, n * 4096, spaces, fuel).Some?
    ensures var q := HeapGrowth.Kmalloc(h, n * 4096, spaces, fuel).value.1;
            exists p: nat :: p < PAGES && q / 4096 <= p <= (q + n * 4096 - 1) / 4096 && Lookup(s.t, child, p) == None
  {
    hide Lookup, Copied, EmptyFrom, Fresh, Injective, RamKept, Shrunk, HeapOk, KernelHeld, Unmoved, HeapFits;
    HeapGrowth.GrowsPastEnd(h, n * 4096, spaces, fuel);
    HeapPages(h);
    var q := HeapGrowth.Kmalloc(h, n * 4096, spaces, fuel).value.1;
    var p := (q + n * 4096 - 1) / 4096;
    assert h.end / 4096 <= p < 0xE_0800;
    assert Lookup(s.t, child, p) == Lookup(s0.t, kernel, p);
  }

  /** A piece inside one slot touches that slot alone and needs a table only if it is empty. */
  lemma OneSlot(t: Tables, d: nat, v: nat, n: nat)
    requires 0 < n && v + n <= USER_PAGES && v / 1024 == (v + n - 1) / 1024
    ensures LargePages(v, n) == 0
    ensures forall i: nat :: Touches(v, n, i) <==> i == v / 1024
    ensures TailNeed(t, d, v, n) == if Entry(t, d, v / 1024) == 0 then {v / 1024} else {}
  {
    forall i: nat
      ensures Touches(v, n, i) <==> i == v / 1024
    {
      assert Off(v, v) == 0;
    }
  }

  /** Pages of the user half touch no slot of the kernel half. */
  lemma UserSlots(t: Tables, t': Tables, d: nat, v: nat, n: nat)
    requires v + n <= USER_PAGES && UntouchedSame(t, t', d, v, n)
    ensures forall i :: KERNEL_SLOT <= i < 1024 ==> Entry(t', d, i) == Entry(t, d, i)
  {
    forall i: nat | KERNEL_SLOT <= i < 1024
      ensures !Touches(v, n, i)
    {
      forall p | 0 <= p < PAGES && Off(p, v) < n
        ensures p / 1024 < KERNEL_SLOT
      {
        assert p < USER_PAGES;
      }
    }
  }

  lemma OneSlotFilled(t: Tables, t': Tables, d: nat, v: nat, n: nat)
    requires 0 < n && v + n <= USER_PAGES && v / 1024 == (v + n - 1) / 1024 && FilledTo(t, t', d, v, n)
    ensures NonEmpty(t', d) == NonEmpty(t, d) + {v / 1024}
  {
    hide Touches;
    OneSlot(t, d, v, n);
  }

  /** Into the empty part of a user half one piece can be mapped if a frame is there for its table. */
  lemma PieceMappable(t: Tables, used: seq<bool>, bs: seq<PBlock>, d: nat, v: nat, n: nat)
    requires 0 < n && v + n <= USER_PAGES && v / 1024 == (v + n - 1) / 1024 && EmptyFrom(t, d, v)
    requires ListOk(bs) && Room(bs, n * 4096)
    ensures !Misaligned(FitBase(bs, n * 4096), v, n) && !Occupied(t, d, v, n)
    ensures Mappable(t, used, d, FitBase(bs, n * 4096), v, n) <==> (Entry(t, d, v / 1024) == 0 ==> |FreeSet(used)| > 0)
  {
    hide Lookup, FreeSet, TailNeed;
    OneSlot(t, d, v, n);
  }

  // ---------------------------------------------------------------- what a process sees

  /** Byte `k` of a word, and the word with that byte replaced. */
  function PeekByte(w: Word, k: nat): Byte {
    (if k == 0 then w else if k == 1 then w / 0x100 else if k == 2 then w / 0x1_0000 else w / 0x100_0000) % 256
  }

  function PokeByte(w: Word, k: nat, b: Byte): Word {
    var unit := if k == 0 then 1 else if k == 1 then 0x100 else if k == 2 then 0x1_0000 else 0x100_0000;
    w + (b - PeekByte(w, k)) * unit
  }

  /** The byte at offset `off` of frame `f`, be it a page of data or a directory or table. */
  ghost function FrameByte(s: Snapshot, f: nat, off: nat): Option<Byte> {
    if f in s.t then (if off / 4 < |s.t[f]| then Some(PeekByte(s.t[f][off / 4], off % 4)) else None)
    else if f < |s.ram| && off < |s.ram[f]| then Some(s.ram[f][off])
    else None
  }

  /** The byte a process with directory `d` reads at `va`; None is a page fault. */
  ghost function ReadByte(s: Snapshot, d: nat, va: nat): Option<Byte> {
    match Lookup(s.t, d, va / 4096)
    case None => None
    case Some(l) => FrameByte(s, l.frame, va % 4096)
  }

  /** The memory after `b` is stored at offset `off` of frame `f`. */
  ghost function StoreByte(s: Snapshot, f: nat, off: nat, b: Byte): Snapshot {
    if f in s.t then
      if off / 4 < |s.t[f]| then s.(t := SetWord(s.t, f, off / 4, PokeByte(s.t[f][off / 4], off % 4, b))) else s
    else if f < |s.ram| && off < |s.ram[f]| then
      (var page: Page := s.ram[f][off := b]; s.(ram := s.ram[f := page]))
    else s
  }

  /** The memory after a process with directory `d` stores `b` at `va`. */
  ghost function WriteByte(s: Snapshot, d: nat, va: nat, b: Byte): Snapshot {
    match Lookup(s.t, d, va / 4096)
    case None => s
    case Some(l) => StoreByte(s, l.frame, va % 4096, b)
  }

  const USER_TOP := 0xC000_0000

  /** The user halves of `d` and `e` have no frame in common. */
  ghost predicate Apart(t: Tables, d: nat, e: nat) {
    forall p, q :: 0 <= p < USER_PAGES && 0 <= q < USER_PAGES && Lookup(t, d, p).Some? && Lookup(t, e, q).Some?
      ==> Lookup(t, d, p).value.frame != Lookup(t, e, q).value.frame
  }

  /** Page `p` of the parent passes through heap frames that the kernel's directory sees alike. */
  ghost predicate TruePage(s0: Snapshot, kernel: nat, parent: nat, p: nat) {
    SameFrames(s0.t, parent, kernel, BufferAt(s0.heap, s0.t, parent, p))
  }

  /** All mapped user pages do. */
  ghost predicate TrueBuffers(s0: Snapshot, kernel: nat, parent: nat) {
    forall p :: 0 <= p < USER_PAGES && Lookup(s0.t, parent, p).Some? ==> TruePage(s0, kernel, parent, p)
  }

  /** The byte the child will read at `va`. */
  ghost function ChildByte(s0: Snapshot, kernel: nat, parent: nat, va: nat): Option<Byte>
    requires |s0.ram| == PAGES
  {
    match Lookup(s0.t, parent, va / 4096)
    case None => None
    case Some(l) =>
      FrameBound(s0.t, parent, va / 4096);
      Some(Got(s0, kernel, parent, s0.ram[l.frame], BufferAt(s0.heap, s0.t, parent, va / 4096))[va % 4096])
  }

  /** A finished copy: what the child reads at every address, nobody else notices, and child and older spaces share
      no user frame. */
  lemma ForkMeaning(s0: Snapshot, s: Snapshot, dirs: set<nat>, kernel: nat, parent: nat, child: nat)
    requires Forked(s0, s, dirs, kernel, parent, child, USER_PAGES) && parent in dirs
    requires forall d :: d in dirs ==> BackedDir(s0, d)
    requires s.t.Keys == s0.t.Keys && s0.t.Keys <= s0.kf
    ensures forall va :: 0 <= va < USER_TOP ==> ReadByte(s, child, va) == ChildByte(s0, kernel, parent, va)
    ensures forall d, va :: d in dirs && 0 <= va < USER_TOP ==> ReadByte(s, d, va) == ReadByte(s0, d, va)
    ensures forall d :: d in dirs ==> Apart(s.t, d, child)
    ensures forall d :: d in dirs + {child} ==> BackedDir(s, d)
  {
    hide FrameFree, Lookup, Got, BufferAt;
    forall va | 0 <= va < USER_TOP
      ensures ReadByte(s, child, va) == ChildByte(s0, kernel, parent, va)
    {
      assert SamePage(s0, s, kernel, parent, child, va / 4096);
      FrameBound(s0.t, parent, va / 4096);
      FrameBound(s.t, child, va / 4096);
    }
    forall d, va | d in dirs && 0 <= va < USER_TOP
      ensures ReadByte(s, d, va) == ReadByte(s0, d, va)
    {
      assert Lookup(s.t, d, va / 4096) == Lookup(s0.t, d, va / 4096);
      FrameBound(s0.t, d, va / 4096);
    }
    forall d, p | d in dirs && 0 <= p < USER_PAGES
      ensures Lookup(s.t, d, p) == Lookup(s0.t, d, p)
    {
    }
  }

  /** Where its page passes through frames seen alike, the child reads what the parent read. */
  lemma TrueByte(s0: Snapshot, kernel: nat, parent: nat, va: nat)
    requires |s0.ram| == PAGES && s0.t.Keys <= s0.kf && BackedDir(s0, parent) && va < USER_TOP
    requires Lookup(s0.t, parent, va / 4096).Some? ==> TruePage(s0, kernel, parent, va / 4096)
    ensures ChildByte(s0, kernel, parent, va) == ReadByte(s0, parent, va)
  {
    hide Lookup, FrameFree, BufferAt, Arrival, SameFrames;
    if Lookup(s0.t, parent, va / 4096).Some? {
      FrameBound(s0.t, parent, va / 4096);
      var f := Lookup(s0.t, parent, va / 4096).value.frame;
      assert UserFrame(s0.kf, s0.bs, f);
      ArrivalSame(s0.t, s0.ram, parent, kernel, BufferAt(s0.heap, s0.t, parent, va / 4096), s0.ram[f]);
    }
  }

  /** The pieces of a copy that returns pass through the heap as it was at the start. */
  lemma BufferInHeap(h: HeapState, t: Tables, d: nat, p: nat)
    requires HeapOk(h) && HeapBelow(h, t, d, USER_PAGES).Some? && p < USER_PAGES && Lookup(t, d, p).Some?
    ensures HEAP_PAGE * 4096 < BufferAt(h, t, d, p) && BufferAt(h, t, d, p) + 4096 <= h.end
  {
    hide HeapOk, HeapFits, HeapTake, TakenAt, Lookup, Replay;
    var large := Large(Entry(t, d, p / 1024));
    var v, n := if large then p / 1024 * 1024 else p, if large then 1024 else 1;
    assert large ==> v / 1024 == p / 1024 && v % 1024 == 0;
    assert IsPiece(t, d, v, n) && v <= p < v + n && v + n <= USER_PAGES;
    ReplayPrefix(h, AfterPiece, t, d, v + n, USER_PAGES);
    ReplayPiece(h, AfterPiece, t, d, v, n);
    var g := HeapBelow(h, t, d, v).value;
    HeapCost(h, t, d, v);
    NodeTaken(g);
    BufferTaken(HeapTake(g, NODE), n);
    BufferOfPiece(h, t, d, v, n, g, p);
  }

  /** A parent that sees the heap as the kernel's directory does is copied truly. */
  lemma AlikeIsTrue(s0: Snapshot, kernel: nat, parent: nat)
    requires HeapOk(s0.heap) && HeapAmple(s0, parent) && HeapAlike(s0.t, parent, kernel, s0.heap.end)
    ensures TrueBuffers(s0, kernel, parent)
  {
    hide HeapOk, Lookup, BufferAt, Replay;
    HeapPages(s0.heap);
    forall p | 0 <= p < USER_PAGES && Lookup(s0.t, parent, p).Some?
      ensures TruePage(s0, kernel, parent, p)
    {
      BufferInHeap(s0.heap, s0.t, parent, p);
      var q := BufferAt(s0.heap, s0.t, parent, p);
      InHeapPages(q, 1, s0.heap.end);
      assert HEAP_PAGE <= q / 4096 < s0.heap.end / 4096;
      assert q % 4096 != 0 ==> q / 4096 + 1 < s0.heap.end / 4096;
    }
  }

  /** With `ram` in memory, the child will read what the parent does. */
  ghost predicate Truly(s0: Snapshot, ram: seq<Page>, kernel: nat, parent: nat)
    requires |ram| == PAGES
  {
    forall va :: 0 <= va < USER_TOP ==>
      ChildByte(s0.(ram := ram), kernel, parent, va) == ReadByte(s0.(ram := ram), parent, va)
  }

  /** The child reads what the parent does, whatever is in memory, exactly if parent and kernel have every buffer
      in the same frames. */
  lemma TrueIff(s0: Snapshot, dirs: set<nat>, kernel: nat, parent: nat)
    requires s0.t.Keys <= s0.kf && BackedDir(s0, parent) && HeapOk(s0.heap) && HeapAmple(s0, parent)
    requires HeapViewed(s0.t, dirs, s0.heap.end, s0.kf) && kernel in dirs
    ensures TrueBuffers(s0, kernel, parent) <==> forall ram: seq<Page> :: |ram| == PAGES ==> Truly(s0, ram, kernel, parent)
  {
    hide Lookup, FrameFree, BufferAt, HeapOk, Replay, ReadByte, ChildByte, HeapViewed, HeapAmple, SameFrames;
    if TrueBuffers(s0, kernel, parent) {
      forall ram: seq<Page>, va: nat | |ram| == PAGES && va < USER_TOP
        ensures ChildByte(s0.(ram := ram), kernel, parent, va) == ReadByte(s0.(ram := ram), parent, va)
      {
        TrueByte(s0.(ram := ram), kernel, parent, va);
      }
    } else {
      var p: nat :| p < USER_PAGES && Lookup(s0.t, parent, p).Some? && !TruePage(s0, kernel, parent, p);
      var ram, va := FalseByte(s0, dirs, kernel, parent, p);
      assert !Truly(s0, ram, kernel, parent);
    }
  }

  /** The memory in which only frame `f` holds anything. */
  ghost function OnlyFrame(f: nat): (ram: seq<Page>)
    ensures |ram| == PAGES && forall g, k :: 0 <= g < PAGES && 0 <= k < 4096 ==> ram[g][k] == if g == f then 1 else 0
  {
    var page: Byte -> Page := (b: Byte) => seq(4096, i => b);
    seq(PAGES, g => page(if g == f then 1 else 0))
  }

  /** A page whose buffer parent and kernel have in different frames: a memory and an address where the child goes wrong. */
  lemma FalseByte(s0: Snapshot, dirs: set<nat>, kernel: nat, parent: nat, p: nat) returns (ram: seq<Page>, va: nat)
    requires s0.t.Keys <= s0.kf && BackedDir(s0, parent) && HeapOk(s0.heap) && HeapAmple(s0, parent)
    requires HeapViewed(s0.t, dirs, s0.heap.end, s0.kf) && kernel in dirs
    requires p < USER_PAGES && Lookup(s0.t, parent, p).Some? && !TruePage(s0, kernel, parent, p)
    ensures |ram| == PAGES && va < USER_TOP
    ensures ChildByte(s0.(ram := ram), kernel, parent, va) != ReadByte(s0.(ram := ram), parent, va)
  {
    hide Lookup, FrameFree, BufferAt, HeapOk, Replay;
    BufferInHeap(s0.heap, s0.t, parent, p);
    HeapPages(s0.heap);
    var q := BufferAt(s0.heap, s0.t, parent, p);
    InHeapPages(q, 1, s0.heap.end);
    FrameBound(s0.t, parent, p);
    var f := Lookup(s0.t, parent, p).value.frame;
    assert UserFrame(s0.kf, s0.bs, f);
    var b0, b1 := FrameAt(s0.t, kernel, q / 4096), FrameAt(s0.t, kernel, q / 4096 + 1);
    assert b0 in s0.kf && (q % 4096 != 0 ==> b1 in s0.kf);
    ram := OnlyFrame(f);
    var off := if FrameAt(s0.t, parent, q / 4096) != b0 then 0 else 4096 - q % 4096;
    va := p * 4096 + off;
    DivideBy(va, 4096, p, off);
    assert ram[f][off] == 1;
    assert Arrival(s0.t, ram, parent, kernel, q, ram[f])[off] == 0;
  }

  /** Stores through user pages change no translation, and through one of two spaces without common frames
      they are invisible in the other. */
  lemma WritesArePrivate(s: Snapshot, d: nat, e: nat, va: nat, b: Byte, va': nat)
    requires s.t.Keys <= s.kf && Apart(s.t, d, e) && BackedDir(s, d) && BackedDir(s, e) && va < USER_TOP && va' < USER_TOP
    ensures WriteByte(s, d, va, b).t == s.t && WriteByte(s, e, va, b).t == s.t
    ensures ReadByte(WriteByte(s, d, va, b), e, va') == ReadByte(s, e, va')
    ensures ReadByte(WriteByte(s, e, va, b), d, va') == ReadByte(s, d, va')
  {
    hide Lookup, FrameFree, PeekByte, PokeByte;
    assert va / 4096 < USER_PAGES && va' / 4096 < USER_PAGES;
  }
}
