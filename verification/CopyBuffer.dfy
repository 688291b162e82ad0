/** The buffer in the kernel heap through which `copy_adress_space` carries pages from one address space to the other:
    a run of bytes that need not start on a page, in whatever frames the current directory gives its pages. */
module CopyBuffer {
  import opened Machine
  import opened PageTables
  import opened Paging
  import opened HeapUse

  function FrameAt(t: Tables, d: nat, p: nat): (f: nat)
    ensures f < PAGES
  {
    FrameBound(t, d, p);
    match Lookup(t, d, p)
    case None => 0
    case Some(l) => l.frame
  }

  /** `gs` are distinct frames. */
  ghost predicate Apiece(gs: seq<nat>) {
    && (forall i :: 0 <= i < |gs| ==> gs[i] < PAGES)
    && (forall i, j :: 0 <= i < j < |gs| ==> gs[i] != gs[j])
  }

  /** The 4096 bytes from offset `o` of frame `g0` on, the rest being in `g1`. */
  function Join(ram: seq<Page>, g0: nat, g1: nat, o: nat): (page: Page)
    requires g0 < |ram| && g1 < |ram| && o < 4096
  {
    if o == 0 then ram[g0] else ram[g0][o..] + ram[g1][..o]
  }

  /** The memory after `page` has been stored there. */
  function Put(ram: seq<Page>, g0: nat, g1: nat, o: nat, page: Page): (ram': seq<Page>)
    requires g0 < |ram| && g1 < |ram| && o < 4096
    ensures |ram'| == |ram|
  {
    if o == 0 then ram[g0 := page]
    else
      var head: Page := ram[g0][..o] + page[..4096 - o];
      var ram1 := ram[g0 := head];
      var tail: Page := page[4096 - o..] + ram1[g1][o..];
      ram1[g1 := tail]
  }

  /** The frame in which the `k`-th page of the buffer ends. */
  function EndFrame(gs: seq<nat>, o: nat, k: nat): nat
    requires k < |gs| && (o > 0 ==> k + 1 < |gs|)
  {
    if o == 0 then gs[k] else gs[k + 1]
  }

  /** A buffer of `n` pages, `o` bytes into its first frame, lies in `gs`. */
  ghost predicate Spans(gs: seq<nat>, o: nat, n: nat) {
    Apiece(gs) && o < 4096 && |gs| == (if o == 0 then n else n + 1)
  }

  /** The `k`-th page of the buffer. */
  ghost function Piece(ram: seq<Page>, gs: seq<nat>, o: nat, n: nat, k: nat): Page
    requires |ram| == PAGES && Spans(gs, o, n) && k < n
  {
    Join(ram, gs[k], EndFrame(gs, o, k), o)
  }

  lemma PutJoin(ram: seq<Page>, g0: nat, g1: nat, o: nat, page: Page)
    requires g0 < |ram| && g1 < |ram| && o < 4096 && (o > 0 ==> g0 != g1)
    ensures Join(Put(ram, g0, g1, o, page), g0, g1, o) == page
    ensures forall f :: 0 <= f < |ram| && f != g0 && f != g1 ==> Put(ram, g0, g1, o, page)[f] == ram[f]
    ensures o > 0 ==> Put(ram, g0, g1, o, page)[g0][..o] == ram[g0][..o]
  {
    if o > 0 {
      assert page[..4096 - o] + page[4096 - o..] == page;
    }
  }

  /** Storing the `k`-th page leaves the pages in front of it alone. */
  lemma PutPiece(ram: seq<Page>, gs: seq<nat>, o: nat, n: nat, k: nat, page: Page)
    requires |ram| == PAGES && Spans(gs, o, n) && k < n
    ensures var ram' := Put(ram, gs[k], EndFrame(gs, o, k), o, page);
            && Piece(ram', gs, o, n, k) == page
            && (forall j :: 0 <= j < k ==> Piece(ram', gs, o, n, j) == Piece(ram, gs, o, n, j))
            && (forall f :: 0 <= f < PAGES && f !in gs ==> ram'[f] == ram[f])
  {
    hide Join, Put;
    var e := EndFrame(gs, o, k);
    PutJoin(ram, gs[k], e, o, page);
    var ram' := Put(ram, gs[k], e, o, page);
    forall j | 0 <= j < k
      ensures Piece(ram', gs, o, n, j) == Piece(ram, gs, o, n, j)
    {
      SameJoin(ram, ram', gs[j], EndFrame(gs, o, j), o);
    }
  }

  lemma SameJoin(ram: seq<Page>, ram': seq<Page>, g0: nat, g1: nat, o: nat)
    requires |ram| == |ram'| && g0 < |ram| && g1 < |ram| && o < 4096
    requires ram'[g0] == ram[g0] && (o > 0 ==> ram'[g1][..o] == ram[g1][..o])
    ensures Join(ram', g0, g1, o) == Join(ram, g0, g1, o)
  {
  }

  // ---------------------------------------------------------------- two views of a buffer

  /** What arrives of a page that is stored through frames `a0`, `a1` and fetched through `b0`, `b1`: its own bytes where
      the frames are the same, and where they are not, what the frames fetched from held all along. */
  function Through(ram: seq<Page>, a0: nat, a1: nat, b0: nat, b1: nat, o: nat, page: Page): (got: Page)
    requires b0 < |ram| && b1 < |ram| && o < 4096
  {
    (if a0 == b0 then page[..4096 - o] else ram[b0][o..])
    + (if a1 == b1 then page[4096 - o..] else ram[b1][..o])
  }

  /** What arrives of a page that passes through the heap at `q`, stored through `d` and fetched through `e`. */
  ghost function Arrival(t: Tables, ram: seq<Page>, d: nat, e: nat, q: nat, page: Page): Page
    requires |ram| == PAGES
  {
    var p := q / 4096;
    Through(ram, FrameAt(t, d, p), FrameAt(t, d, p + 1), FrameAt(t, e, p), FrameAt(t, e, p + 1), q % 4096, page)
  }

  /** `d` and `e` have the 4096 bytes at `q` in the same frames. */
  ghost predicate SameFrames(t: Tables, d: nat, e: nat, q: nat) {
    FrameAt(t, d, q / 4096) == FrameAt(t, e, q / 4096)
    && (q % 4096 != 0 ==> FrameAt(t, d, q / 4096 + 1) == FrameAt(t, e, q / 4096 + 1))
  }

  /** Where the frames are the same, the page arrives. */
  lemma ArrivalSame(t: Tables, ram: seq<Page>, d: nat, e: nat, q: nat, page: Page)
    requires |ram| == PAGES && SameFrames(t, d, e, q)
    ensures Arrival(t, ram, d, e, q, page) == page
  {
  }

  /** Where they are all different, nothing of it does. */
  lemma ArrivalOther(t: Tables, ram: seq<Page>, d: nat, e: nat, q: nat, page: Page)
    requires |ram| == PAGES && FrameAt(t, d, q / 4096) != FrameAt(t, e, q / 4096)
    requires FrameAt(t, d, q / 4096 + 1) != FrameAt(t, e, q / 4096 + 1)
    ensures Arrival(t, ram, d, e, q, page) ==
            ram[FrameAt(t, e, q / 4096)][q % 4096..] + ram[FrameAt(t, e, q / 4096 + 1)][..q % 4096]
  {
  }

  /** The frames of two views: the same for a page, or altogether different. */
  ghost predicate Views(gp: seq<nat>, gc: seq<nat>) {
    |gp| == |gc| && forall i :: 0 <= i < |gp| ==> gp[i] == gc[i] || gc[i] !in gp
  }

  /** The `k`-th page of a buffer stored through `gp` and fetched through `gc`. */
  lemma FetchedPiece(ram0: seq<Page>, ram1: seq<Page>, gp: seq<nat>, gc: seq<nat>, o: nat, n: nat, k: nat, page: Page)
    requires |ram0| == PAGES && |ram1| == PAGES && Spans(gp, o, n) && Spans(gc, o, n) && Views(gp, gc) && k < n
    requires Piece(ram1, gp, o, n, k) == page && forall f :: 0 <= f < PAGES && f !in gp ==> ram1[f] == ram0[f]
    ensures Piece(ram1, gc, o, n, k) ==
            Through(ram0, gp[k], EndFrame(gp, o, k), gc[k], EndFrame(gc, o, k), o, page)
  {
    assert gp[k] == gc[k] || ram1[gc[k]] == ram0[gc[k]];
    if o > 0 {
      assert gp[k + 1] == gc[k + 1] || ram1[gc[k + 1]] == ram0[gc[k + 1]];
      assert page[..4096 - o] == ram1[gp[k]][o..] && page[4096 - o..] == ram1[gp[k + 1]][..o];
    }
  }

  // ---------------------------------------------------------------- where a heap block lies

  /** The frames of the pages from `p` on. */
  ghost function FramesFrom(t: Tables, d: nat, p: nat, n: nat): (gs: seq<nat>)
    ensures |gs| == n && forall k :: 0 <= k < n ==> gs[k] == FrameAt(t, d, p + k)
  {
    seq<nat>(n, (k: nat) => FrameAt(t, d, p + k))
  }

  /** Pages that the buffer of `n` pages at address `q` touches. */
  function Touched(q: nat, n: nat): nat {
    if q % 4096 == 0 then n else n + 1
  }

  lemma InHeapPages(q: nat, n: nat, end: int)
    requires HEAP_PAGE * 4096 < q && q + n * 4096 <= end && end % 4096 == 0
    ensures HEAP_PAGE <= q / 4096 && q / 4096 + Touched(q, n) <= end / 4096
  {
    var p, o := q / 4096, q % 4096;
    assert q == p * 4096 + o;
    assert end == end / 4096 * 4096;
  }

  /** `d` sees the pages from `p` in the frames `gs`. */
  ghost predicate SeenIn(t: Tables, d: nat, p: nat, gs: seq<nat>) {
    forall k :: 0 <= k < |gs| ==> Lookup(t, d, p + k).Some? && Lookup(t, d, p + k).value.frame == gs[k]
  }

  /** A heap block lies in distinct kernel frames, in every directory. */
  lemma BlockSeen(t: Tables, dirs: set<nat>, d: nat, h: HeapState, kf: set<nat>, q: nat, n: nat)
    requires HeapOk(h) && HeapViewed(t, dirs, h.end, kf) && d in dirs
    requires HEAP_PAGE * 4096 < q && q + n * 4096 <= h.end
    ensures var gs := FramesFrom(t, d, q / 4096, Touched(q, n));
            Spans(gs, q % 4096, n) && (forall k :: 0 <= k < |gs| ==> gs[k] in kf) && SeenIn(t, d, q / 4096, gs)
  {
    hide Lookup, HeapOk;
    HeapPages(h);
    InHeapPages(q, n, h.end);
    var p := q / 4096;
    var gs := FramesFrom(t, d, p, Touched(q, n));
    forall k | 0 <= k < |gs|
      ensures gs[k] in kf && gs[k] < PAGES && Lookup(t, d, p + k).Some? && Lookup(t, d, p + k).value.frame == gs[k]
    {
      assert HEAP_PAGE <= p + k < h.end / 4096;
    }
    forall i, j | 0 <= i < j < |gs|
      ensures gs[i] != gs[j]
    {
      assert HEAP_PAGE <= p + i < p + j < h.end / 4096;
      assert Elsewhere(t, d, p + i, d, p + j);
    }
  }

  /** Two directories see a heap block in frames that are the same or altogether different, page by page. */
  lemma BlockViews(t: Tables, dirs: set<nat>, d: nat, e: nat, h: HeapState, kf: set<nat>, q: nat, n: nat)
    requires HeapOk(h) && HeapViewed(t, dirs, h.end, kf) && d in dirs && e in dirs
    requires HEAP_PAGE * 4096 < q && q + n * 4096 <= h.end
    ensures Views(FramesFrom(t, d, q / 4096, Touched(q, n)), FramesFrom(t, e, q / 4096, Touched(q, n)))
  {
    hide Lookup, HeapOk;
    HeapPages(h);
    InHeapPages(q, n, h.end);
    var p := q / 4096;
    var gp, gc := FramesFrom(t, d, p, Touched(q, n)), FramesFrom(t, e, p, Touched(q, n));
    forall i, j | 0 <= i < |gp| && 0 <= j < |gp| && i != j
      ensures gp[j] != gc[i]
    {
      assert HEAP_PAGE <= p + i < h.end / 4096 && HEAP_PAGE <= p + j < h.end / 4096;
      assert if i < j then Elsewhere(t, e, p + i, d, p + j) else Elsewhere(t, d, p + j, e, p + i);
    }
  }
}
