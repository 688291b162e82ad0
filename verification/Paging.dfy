/** memory/paging.c over memory/kpageheap.c and memory/physical.c: mapping, unmapping and
    the address-space copy behind fork. */
module Paging {
  import opened Machine
  import opened PageTables
  import opened Physical
  import opened HeapUse

  /** The `n` pages from `v` map to the `n` frames from `f`. */
  ghost predicate MappedTo(t: Tables, dir: nat, v: nat, n: nat, f: nat, access: int) {
    forall p: nat :: p < PAGES && 0 <= Off(p, v) < n ==> Lookup(t, dir, p) == Some(Leaf(Wrap(f + Off(p, v)), access))
  }

  ghost predicate Unmapped(t: Tables, dir: nat, v: nat, n: nat) {
    forall p :: 0 <= p < PAGES && Off(p, v) < n ==> Lookup(t, dir, p) == None
  }

  /** The first `m` pages of the range, free in `t0`, are mapped in `t` and nothing else has moved. */
  ghost predicate Progress(t0: Tables, t: Tables, dirs: set<nat>, dir: nat, v: nat, m: nat, f: nat, access: int) {
    Outside(t0, t, dirs, dir, v, m) && MappedTo(t, dir, v, m, f, access) && Unmapped(t0, dir, v, m)
  }

  lemma NoProgress(t: Tables, dirs: set<nat>, dir: nat, v: nat, f: nat, access: int)
    requires v < PAGES
    ensures Progress(t, t, dirs, dir, v, 0, f, access) && Small(t, dir, v, 0)
  {
  }

  /** The first `m` pages of the range are unmapped in `t` and nothing else has moved. */
  ghost predicate Cleared(t0: Tables, t: Tables, dirs: set<nat>, dir: nat, v: nat, m: nat) {
    Outside(t0, t, dirs, dir, v, m) && Unmapped(t, dir, v, m)
  }

  lemma NothingCleared(t: Tables, dirs: set<nat>, dir: nat, v: nat)
    requires v < PAGES
    ensures Cleared(t, t, dirs, dir, v, 0)
  {
  }

  lemma OneCleared(t0: Tables, t: Tables, dirs: set<nat>, dir: nat, v: nat)
    requires v < PAGES && Outside(t0, t, dirs, dir, v, 1) && Lookup(t, dir, v) == None
    ensures Cleared(t0, t, dirs, dir, v, 1)
  {
    assert forall p :: 0 <= p < PAGES && Off(p, v) < 1 && Lookup(t, dir, p).Some? ==> p == v;
  }

  predicate LargeAt(t: Tables, dir: nat, p: nat) {
    Large(Entry(t, dir, p / 1024))
  }

  /** No page of the range lies in a 4 MiB page. */
  ghost predicate Small(t: Tables, dir: nat, v: nat, n: nat) {
    forall p :: 0 <= p < PAGES && Off(p, v) < n ==> !LargeAt(t, dir, p)
  }

  /** No slot of `dir` has become a 4 MiB page. */
  ghost predicate NoNewLarge(t: Tables, t': Tables, dir: nat) {
    forall i :: 0 <= i < 1024 && Large(Entry(t', dir, i)) ==> Large(Entry(t, dir, i))
  }

  lemma SameLarge(t: Tables, dir: nat)
    ensures NoNewLarge(t, t, dir)
  {
  }

  lemma SlotCleared(t0: Tables, t: Tables, t': Tables, dir: nat, slot: nat)
    requires NoNewLarge(t0, t, dir) && Entry(t', dir, slot) == 0
    requires forall k :: 0 <= k < 1024 && k != slot ==> Entry(t', dir, k) == Entry(t, dir, k)
    ensures NoNewLarge(t0, t', dir)
  {
  }

  ghost predicate AllMapped(t: Tables, dir: nat, v: nat, n: nat) {
    forall p :: 0 <= p < PAGES && Off(p, v) < n ==> Lookup(t, dir, p).Some?
  }

  lemma Chain(t0: Tables, t1: Tables, t2: Tables, dirs: set<nat>, dir: nat, v: nat, m: nat, c: nat)
    requires v < PAGES && m + c <= PAGES && m < PAGES
    requires Outside(t0, t1, dirs, dir, v, m) && Outside(t1, t2, dirs, dir, Wrap(v + m), c)
    ensures Outside(t0, t2, dirs, dir, v, m + c)
  {
    forall d, p | d in dirs && 0 <= p < PAGES && (Off(p, v) >= m + c || (d != dir && p < USER_PAGES))
      ensures Lookup(t2, d, p) == Lookup(t0, d, p)
    {
      assert Lookup(t2, d, p) == Lookup(t1, d, p);
      assert Lookup(t1, d, p) == Lookup(t0, d, p);
    }
  }

  lemma ChainMapped(t0: Tables, t1: Tables, t2: Tables, dirs: set<nat>, dir: nat, v: nat, m: nat, c: nat,
                    f: nat, access: int)
    requires dir in dirs && v < PAGES && f < PAGES && m + c <= PAGES && m < PAGES
    requires Progress(t0, t1, dirs, dir, v, m, f, access)
    requires Progress(t1, t2, dirs, dir, Wrap(v + m), c, Wrap(f + m), access)
    ensures Progress(t0, t2, dirs, dir, v, m + c, f, access)
  {
    Chain(t0, t1, t2, dirs, dir, v, m, c);
    forall p | 0 <= p < PAGES && Off(p, v) < m + c
      ensures Lookup(t2, dir, p) == Some(Leaf(Wrap(f + Off(p, v)), access))
      ensures Lookup(t0, dir, p) == None
    {
      if Off(p, v) < m {
        assert Lookup(t2, dir, p) == Lookup(t1, dir, p);
      } else {
        assert Off(p, Wrap(v + m)) == Off(p, v) - m;
        assert Lookup(t1, dir, p) == Lookup(t0, dir, p);
      }
    }
  }

  lemma ChainUnmapped(t0: Tables, t1: Tables, t2: Tables, dirs: set<nat>, dir: nat, v: nat, m: nat, c: nat)
    requires dir in dirs && v < PAGES && m + c <= PAGES && m < PAGES
    requires Cleared(t0, t1, dirs, dir, v, m) && Cleared(t1, t2, dirs, dir, Wrap(v + m), c)
    ensures Cleared(t0, t2, dirs, dir, v, m + c)
  {
    Chain(t0, t1, t2, dirs, dir, v, m, c);
    forall p | 0 <= p < PAGES && Off(p, v) < m + c
      ensures Lookup(t2, dir, p) == None
    {
      if Off(p, v) < m {
        assert Lookup(t2, dir, p) == Lookup(t1, dir, p);
      } else {
        assert Off(p, Wrap(v + m)) == Off(p, v) - m;
      }
    }
  }

  // ---------------------------------------------------------------- the rounded range

  function FirstPage(virt: Word): nat {
    virt / 4096
  }

  /** Number of pages after `size += bvaddr - virt_addr; alignup(size, 4096)` in 32 bits. */
  function PageCount(size: Word, virt: Word): (n: nat)
    ensures n < PAGES
  {
    AlignUp((size + virt % 4096) % TWO32, 4096) / 4096
  }

  /** Pages that the 4 MiB loop takes: full groups of 1024, always leaving at least one page. */
  function LargePages(v: nat, n: nat): (m: nat)
    ensures m <= n && m % 1024 == 0 && (0 < n ==> m < n) && (0 < m ==> v % 1024 == 0)
  {
    if v % 1024 == 0 && n > 1024 then (n - 1) / 1024 * 1024 else 0
  }

  // ---------------------------------------------------------------- the bytes asked for

  /** Distance of address `va` from `virt`, upwards and round the end of the address space. */
  function Ahead(va: int, virt: int): int {
    if va >= virt then va - virt else va - virt + TWO32
  }

  /** `va` leads to the physical address `pa`. */
  predicate Reaches(t: Tables, dir: nat, va: nat, pa: int) {
    match Lookup(t, dir, va / 4096)
    case None => false
    case Some(l) => l.frame * 4096 + va % 4096 == pa
  }

  /** Each of the `size` bytes from `virt` leads to the byte as far into the frames from `physical` on. */
  ghost predicate BytesAt(t: Tables, dir: nat, virt: Word, size: int, physical: int) {
    forall va: Word :: Ahead(va, virt) < size ==>
      Reaches(t, dir, va, (physical - physical % 4096 + virt % 4096 + Ahead(va, virt)) % TWO32)
  }

  ghost predicate NoBytes(t: Tables, dir: nat, virt: Word, size: int) {
    forall va: Word :: Ahead(va, virt) < size ==> Lookup(t, dir, va / 4096) == None
  }

  /** No address changes but those of the `size` bytes from `virt` and of less than a page before and behind them. */
  ghost predicate BytesBeyond(t: Tables, t': Tables, dir: nat, virt: Word, size: int) {
    forall va: Word :: Ahead(va, virt - virt % 4096) >= virt % 4096 + size + 4095 ==>
      Lookup(t', dir, va / 4096) == Lookup(t, dir, va / 4096)
  }

  /** The number of pages: enough for the bytes and no more, and next to nothing when the sum wraps. */
  lemma CountRounds(size: Word, virt: Word)
    ensures var s := size + virt % 4096;
            && (s <= 0xFFFF_F000 ==> s <= PageCount(size, virt) * 4096 < s + 4096)
            && (0xFFFF_F000 < s <= TWO32 ==> PageCount(size, virt) == 0)
            && (TWO32 < s ==> PageCount(size, virt) == 1)
  {
    var s := size + virt % 4096;
    RoundsToPages(s % TWO32);
  }

  /** The page of `va` is as far from the first page as `va` from its start. */
  lemma PageAhead(va: Word, virt: Word)
    ensures Off(va / 4096, FirstPage(virt)) * 4096 + va % 4096 == Ahead(va, virt - virt % 4096)
    ensures Ahead(va, virt - virt % 4096) == virt % 4096 + Ahead(va, virt)
            || Ahead(va, virt - virt % 4096) == virt % 4096 + Ahead(va, virt) - TWO32
  {
  }

  /** All bytes asked for lie in the pages of the rounded range exactly if the size does not wrap. */
  lemma CoversIff(size: Word, virt: Word)
    ensures (forall va: Word :: Ahead(va, virt) < size ==> Off(va / 4096, FirstPage(virt)) < PageCount(size, virt))
            <==> size + virt % 4096 <= 0xFFFF_F000
  {
    CountRounds(size, virt);
    if size + virt % 4096 <= 0xFFFF_F000 {
      forall va: Word | Ahead(va, virt) < size
        ensures Off(va / 4096, FirstPage(virt)) < PageCount(size, virt)
      {
        PageAhead(va, virt);
      }
    } else {
      var far := if virt + 0x1_0000 < TWO32 then virt + 0x1_0000 else virt + 0x1_0000 - TWO32;
      PageAhead(far, virt);
      assert Ahead(far, virt) < size && Off(far / 4096, FirstPage(virt)) >= PageCount(size, virt);
    }
  }

  lemma LargeCount(v: nat, n: nat, c: nat)
    requires v % 1024 == 0 && n > 1024 && c * 1024 < n
    ensures n - c * 1024 > 1024 ==> c * 1024 < LargePages(v, n)
    ensures n - c * 1024 <= 1024 ==> c * 1024 == LargePages(v, n)
  {
    var q := (n - 1) / 1024;
    assert n - c * 1024 <= 1024 ==> c == q;
  }

  function Add32(x: Word, y: Word): Word {
    if x + y >= TWO32 then x + y - TWO32 else x + y
  }

  lemma OnBoundary(x: int, page: int)
    requires x == page * 4096
    ensures x % 0x40_0000 == 0 <==> page % 1024 == 0
  {
    DivideBy(x, 0x40_0000, page / 1024, page % 1024 * 4096);
  }

  /** The rounding at the start of map_flexible and unmap_flexible. */
  lemma RangeNumbers(size: Word, virt: Word)
    ensures var v := AlignDown(virt, 4096);
            var sz := AlignUp((size + (virt - v)) % TWO32, 4096);
            && v == FirstPage(virt) * 4096 && v / 4096 == FirstPage(virt) && v % 4096 == 0
            && sz == PageCount(size, virt) * 4096 && sz / 4096 == PageCount(size, virt) && sz % 4096 == 0
            && (v % 0x40_0000 == 0 <==> FirstPage(virt) % 1024 == 0)
  {
    var v := AlignDown(virt, 4096);
    assert v == FirstPage(virt) * 4096 && virt - v == virt % 4096;
    OnBoundary(v, FirstPage(virt));
  }

  lemma PagesIn(size: int, n: int)
    requires size == n * 4096
    ensures size % 4096 == 0 && size / 4096 == n
  {
  }

  lemma PageStep(x: Word, add: Word, m: int)
    requires add == m * 4096
    ensures Add32(x, add) % 4096 == x % 4096
    ensures x % 4096 == 0 ==> Add32(x, add) / 4096 == Wrap(x / 4096 + m)
    ensures m == 0 ==> Add32(x, add) == x
  {
  }

  lemma SlotStep(x: Word, add: Word, c: int)
    requires add == c * 0x40_0000
    ensures Add32(x, add) % 0x40_0000 == x % 0x40_0000
    ensures x % 0x40_0000 == 0 ==> && Add32(x, add) / 4096 == Wrap(x / 4096 + c * 1024)
                                   && Add32(x, add) / 0x40_0000 == Wrap(x / 4096 + c * 1024) / 1024
                                   && Wrap(x / 4096 + c * 1024) % 1024 == 0
  {
    if x % 0x40_0000 == 0 {
      var q := x / 0x40_0000;
      assert x == q * 0x40_0000 && x / 4096 == q * 1024;
      assert Wrap(x / 4096 + c * 1024) == (if q + c >= 1024 then q + c - 1024 else q + c) * 1024;
    }
  }

  /** One more 4 KiB page extends a mapped range. */
  lemma SmallStep(t0: Tables, t1: Tables, t2: Tables, dirs: set<nat>, dir: nat, v: nat, m: nat, f: nat, access: int)
    requires dir in dirs && v < PAGES && f < PAGES && m < PAGES
    requires Progress(t0, t1, dirs, dir, v, m, f, access) && Small(t1, dir, v, m)
    requires Outside(t1, t2, dirs, dir, Wrap(v + m), 1)
    requires Lookup(t1, dir, Wrap(v + m)) == None
    requires Lookup(t2, dir, Wrap(v + m)) == Some(Leaf(Wrap(f + m), access))
    requires IsTable(Entry(t2, dir, Wrap(v + m) / 1024))
    requires forall i :: 0 <= i < 1024 && Large(Entry(t2, dir, i)) ==> Large(Entry(t1, dir, i))
    ensures Progress(t0, t2, dirs, dir, v, m + 1, f, access) && Small(t2, dir, v, m + 1)
  {
    var p0 := Wrap(v + m);
    assert MappedTo(t2, dir, p0, 1, Wrap(f + m), access) by {
      assert forall p: nat :: p < PAGES && Off(p, p0) < 1 && Lookup(t2, dir, p).Some? ==> p == p0;
    }
    ChainMapped(t0, t1, t2, dirs, dir, v, m, 1, f, access);
    forall p: nat | p < PAGES && Off(p, v) < m + 1
      ensures !LargeAt(t2, dir, p)
    {
      if Off(p, v) < m {
        assert !LargeAt(t1, dir, p);
      } else {
        assert p == Wrap(v + m);
      }
    }
  }

  lemma NextPageTaken(t0: Tables, t1: Tables, dirs: set<nat>, dir: nat, v: nat, m: nat, n: nat)
    requires dir in dirs && v < PAGES && m < n <= PAGES
    requires Outside(t0, t1, dirs, dir, v, m) && Lookup(t1, dir, Wrap(v + m)).Some?
    ensures PageTaken(t0, dir, v, n)
  {
    var p := Wrap(v + m);
    assert Off(p, v) == m && Lookup(t1, dir, p) == Lookup(t0, dir, p);
  }

  ghost predicate Occupied(t: Tables, dir: nat, v: nat, n: nat) {
    PageTaken(t, dir, v, n) || SlotTaken(t, dir, v, LargePages(v, n))
  }

  /** Behind its 4 MiB pages the range consists of 4 KiB pages. */
  ghost predicate SmallTail(t: Tables, dir: nat, v: nat, n: nat) {
    forall p :: 0 <= p < PAGES && LargePages(v, n) <= Off(p, v) < n ==> !LargeAt(t, dir, p)
  }

  lemma TailIsSmall(t: Tables, dir: nat, v: nat, n: nat)
    requires v < PAGES && n < PAGES && Small(t, dir, Wrap(v + LargePages(v, n)), n - LargePages(v, n))
    ensures SmallTail(t, dir, v, n)
  {
  }

  lemma TakenBefore(t0: Tables, t1: Tables, dirs: set<nat>, dir: nat, v: nat, m: nat, n: nat)
    requires dir in dirs && v < PAGES && m <= n < PAGES
    requires Outside(t0, t1, dirs, dir, v, m) && PageTaken(t1, dir, Wrap(v + m), n - m)
    ensures PageTaken(t0, dir, v, n)
  {
    var p :| 0 <= p < PAGES && Off(p, Wrap(v + m)) < n - m && Lookup(t1, dir, p).Some?;
    assert Off(p, v) < n && Lookup(t1, dir, p) == Lookup(t0, dir, p);
  }

  /** `n` frames from `first` leave the free memory; nothing else changes hands. */
  ghost predicate Taken(bs: seq<PBlock>, bs': seq<PBlock>, first: nat, n: nat) {
    && (forall f :: first <= f < first + n ==> FrameFree(bs, f))
    && (forall f :: FrameFree(bs', f) <==> FrameFree(bs, f) && !(first <= f < first + n))
  }

  /** Frame `f` may back a user page: the physical list does not call it free, and it holds no table and
      no part of the kernel heap. */
  ghost predicate UserFrame(kf: set<nat>, bs: seq<PBlock>, f: nat) {
    !FrameFree(bs, f) && f !in kf
  }

  ghost predicate AllBacked(t: Tables, dirs: set<nat>, kf: set<nat>, bs: seq<PBlock>) {
    forall d, p :: d in dirs && 0 <= p < USER_PAGES && Lookup(t, d, p).Some?
      ==> UserFrame(kf, bs, Lookup(t, d, p).value.frame)
  }

  /** The frames of the kernel are not free. */
  ghost predicate KernelHeld(kf: set<nat>, bs: seq<PBlock>) {
    forall f :: f in kf ==> !FrameFree(bs, f)
  }

  lemma TakenBacked(t: Tables, t': Tables, dirs: set<nat>, dir: nat, v: nat, n: nat, kf: set<nat>,
                    bs: seq<PBlock>, bs': seq<PBlock>, first: nat, access: int)
    requires AllBacked(t, dirs, kf, bs) && dir in dirs && v < PAGES && n < PAGES && first + n <= PAGES
    requires Progress(t, t', dirs, dir, v, n, first, access) && Taken(bs, bs', first, n) && KernelHeld(kf, bs)
    ensures AllBacked(t', dirs, kf, bs')
  {
    hide FrameFree, Lookup;
    forall d, p | d in dirs && 0 <= p < USER_PAGES && Lookup(t', d, p).Some?
      ensures UserFrame(kf, bs', Lookup(t', d, p).value.frame)
    {
      if d != dir || Off(p, v) >= n {
        assert Lookup(t', d, p) == Lookup(t, d, p);
      }
    }
  }

  /** The `n` frames from `f` may back user pages. */
  ghost predicate FramesReserved(kf: set<nat>, bs: seq<PBlock>, f: nat, n: nat) {
    forall g :: 0 <= g < PAGES && Off(g, f) < n ==> UserFrame(kf, bs, g)
  }

  lemma MappedBacked(t: Tables, t': Tables, dirs: set<nat>, dir: nat, v: nat, n: nat, kf: set<nat>, bs: seq<PBlock>,
                     f: nat, access: int)
    requires AllBacked(t, dirs, kf, bs) && dir in dirs && v < PAGES && n < PAGES && f < PAGES
    requires Progress(t, t', dirs, dir, v, n, f, access) && FramesReserved(kf, bs, f, n)
    ensures AllBacked(t', dirs, kf, bs)
  {
    hide FrameFree, Lookup;
    forall d, p | d in dirs && 0 <= p < USER_PAGES && Lookup(t', d, p).Some?
      ensures UserFrame(kf, bs, Lookup(t', d, p).value.frame)
    {
      if d != dir || Off(p, v) >= n {
        assert Lookup(t', d, p) == Lookup(t, d, p);
      } else {
        var g := Wrap(f + Off(p, v));
        assert Off(g, f) == Off(p, v) && UserFrame(kf, bs, g);
      }
    }
  }

  lemma ClearedBacked(t: Tables, t': Tables, dirs: set<nat>, dir: nat, v: nat, n: nat, kf: set<nat>, bs: seq<PBlock>)
    requires AllBacked(t, dirs, kf, bs) && v < PAGES && Cleared(t, t', dirs, dir, v, n)
    ensures AllBacked(t', dirs, kf, bs)
  {
    hide FrameFree, Lookup;
    forall d, p | d in dirs && 0 <= p < USER_PAGES && Lookup(t', d, p).Some?
      ensures UserFrame(kf, bs, Lookup(t', d, p).value.frame)
    {
      assert Lookup(t', d, p) == Lookup(t, d, p);
    }
  }

  lemma ReservedFrames(bs: seq<PBlock>, bs': seq<PBlock>, a: int, n: nat)
    requires Reserved(bs, bs', a, n * 4096)
    ensures 0 <= a && a % 4096 == 0 && a / 4096 + n <= PAGES && Taken(bs, bs', a / 4096, n)
  {
    forall f
      ensures a <= f * 4096 < a + n * 4096 <==> a / 4096 <= f < a / 4096 + n
      ensures Taken1(bs, bs', a, n * 4096, f)
    {
    }
  }

  lemma KernelStaysHeld(kf: set<nat>, bs: seq<PBlock>, bs': seq<PBlock>, a: int, size: int)
    requires Reserved(bs, bs', a, size) && KernelHeld(kf, bs)
    ensures KernelHeld(kf, bs')
  {
    forall f | f in kf
      ensures !FrameFree(bs', f)
    {
      assert Taken1(bs, bs', a, size, f);
    }
  }

  /** `unmap_page` accepts page `p`: it lies in no 4 MiB page, and is mapped or behind an empty slot. */
  predicate PageClearable(t: Tables, dir: nat, p: nat) {
    !LargeAt(t, dir, p) && (Entry(t, dir, p / 1024) == 0 || Lookup(t, dir, p).Some?)
  }

  ghost predicate Clearable(t: Tables, dir: nat, v: nat, n: nat) {
    forall p :: 0 <= p < PAGES && Off(p, v) < n ==> PageClearable(t, dir, p)
  }

  /** Every slot behind the `m` pages from `v` is in use. */
  ghost predicate SlotsUsed(t: Tables, dir: nat, v: nat, m: nat) {
    forall p :: 0 <= p < PAGES && Off(p, v) < m ==> Entry(t, dir, p / 1024) != 0
  }

  /** `unmap_flexible` accepts the range. */
  ghost predicate Unmappable(t: Tables, dir: nat, v: nat, n: nat)
    requires v < PAGES && n < PAGES
  {
    SlotsUsed(t, dir, v, LargePages(v, n)) && Clearable(t, dir, Wrap(v + LargePages(v, n)), n - LargePages(v, n))
  }

  lemma NextClearable(t0: Tables, t1: Tables, dirs: set<nat>, dir: nat, v: nat, m: nat, n: nat)
    requires dir in dirs && v < PAGES && m < n <= PAGES && Outside(t0, t1, dirs, dir, v, m) && SameDirs(t0, t1, dirs)
    ensures PageClearable(t1, dir, Wrap(v + m)) == PageClearable(t0, dir, Wrap(v + m))
    ensures Clearable(t0, dir, v, m) && PageClearable(t0, dir, Wrap(v + m)) ==> Clearable(t0, dir, v, m + 1)
    ensures !PageClearable(t0, dir, Wrap(v + m)) ==> !Clearable(t0, dir, v, n)
  {
    hide Lookup;
    var q := Wrap(v + m);
    assert Off(q, v) == m && Lookup(t1, dir, q) == Lookup(t0, dir, q);
    assert Entry(t1, dir, q / 1024) == Entry(t0, dir, q / 1024);
    forall p | 0 <= p < PAGES && Off(p, v) < m + 1
      ensures Off(p, v) < m || p == q
    {
    }
  }

  lemma NothingToClear(t: Tables, dir: nat, v: nat)
    requires v < PAGES
    ensures Clearable(t, dir, v, 0) && SlotsUsed(t, dir, v, 0)
  {
  }

  lemma NextSlotUsed(t0: Tables, t1: Tables, dir: nat, v: nat, c: nat, n: nat)
    requires v < PAGES && v % 1024 == 0 && c * 1024 + 1024 <= n <= PAGES && OtherSlots(t0, t1, dir, v, c * 1024)
    ensures Entry(t1, dir, Wrap(v + c * 1024) / 1024) == Entry(t0, dir, Wrap(v + c * 1024) / 1024)
    ensures SlotsUsed(t0, dir, v, c * 1024) && Entry(t0, dir, Wrap(v + c * 1024) / 1024) != 0 ==>
              SlotsUsed(t0, dir, v, (c + 1) * 1024)
    ensures Entry(t0, dir, Wrap(v + c * 1024) / 1024) == 0 ==> !SlotsUsed(t0, dir, v, n)
  {
    var q := Wrap(v + c * 1024);
    var b, s := v / 1024, q / 1024;
    assert v == b * 1024 && q == s * 1024 && Off(q, v) == c * 1024;
    forall p | 0 <= p < PAGES && c * 1024 <= Off(p, v) < (c + 1) * 1024
      ensures p / 1024 == s
    {
    }
  }

  /** Clearing the 4 MiB part leaves the 4 KiB part as it was. */
  lemma TailClearable(t0: Tables, t1: Tables, dirs: set<nat>, dir: nat, v: nat, n: nat)
    requires dir in dirs && v < PAGES && n < PAGES
    requires Outside(t0, t1, dirs, dir, v, LargePages(v, n)) && OtherSlots(t0, t1, dir, v, LargePages(v, n))
    ensures Clearable(t1, dir, Wrap(v + LargePages(v, n)), n - LargePages(v, n))
            == Clearable(t0, dir, Wrap(v + LargePages(v, n)), n - LargePages(v, n))
  {
    hide Lookup, LargePages;
    var m := LargePages(v, n);
    forall p | 0 <= p < PAGES && Off(p, Wrap(v + m)) < n - m
      ensures PageClearable(t1, dir, p) == PageClearable(t0, dir, p)
    {
      TailOff(p, v, m, n);
      if m > 0 {
        SlotStart(p, v, m);
      }
      assert Off(p / 1024 * 1024, v) >= m;
      assert Lookup(t1, dir, p) == Lookup(t0, dir, p);
    }
  }

  /** A range that map_flexible has mapped is one that unmap_flexible accepts. */
  lemma MappedUnmappable(t: Tables, dir: nat, v: nat, n: nat)
    requires v < PAGES && n < PAGES && AllMapped(t, dir, v, n) && SmallTail(t, dir, v, n)
    ensures Unmappable(t, dir, v, n)
  {
    var m := LargePages(v, n);
    forall p | 0 <= p < PAGES && Off(p, v) < m
      ensures Entry(t, dir, p / 1024) != 0
    {
      assert Lookup(t, dir, p).Some?;
    }
    forall p | 0 <= p < PAGES && Off(p, Wrap(v + m)) < n - m
      ensures PageClearable(t, dir, p)
    {
      TailOff(p, v, m, n);
      assert Lookup(t, dir, p).Some?;
    }
  }

  lemma NextSlotTaken(t0: Tables, t1: Tables, dir: nat, v: nat, c: nat, n: nat)
    requires v < PAGES && v % 1024 == 0 && c * 1024 < n <= PAGES && n - c * 1024 > 1024
    requires Entry(t1, dir, Wrap(v + c * 1024) / 1024) != 0 && LargeFilled(t0, t1, dir, v, c * 1024)
    ensures SlotTaken(t0, dir, v, LargePages(v, n))
  {
    LargeCount(v, n, c);
    var p := Wrap(v + c * 1024);
    assert p / 1024 * 1024 == p && Off(p, v) == c * 1024;
  }

  /** The physical address does not suit the page sizes the range calls for. */
  predicate Misaligned(physical: int, v: nat, n: nat) {
    0 < n && (physical % 4096 != 0 || (0 < LargePages(v, n) && physical % 0x40_0000 != 0))
  }

  ghost predicate PageTaken(t: Tables, dir: nat, v: nat, n: nat) {
    exists p :: 0 <= p < PAGES && Off(p, v) < n && Lookup(t, dir, p).Some?
  }

  ghost predicate SlotTaken(t: Tables, dir: nat, v: nat, n: nat) {
    exists p :: 0 <= p < PAGES && Off(p, v) < n && Entry(t, dir, p / 1024) != 0
  }

  function Access(kernel: bool): nat {
    if kernel then 259 else 7
  }

  /** The `n` pages from `v` are mapped, with access for user code exactly if `user`. */
  ghost predicate Opened(t: Tables, dir: nat, v: nat, n: nat, user: bool) {
    forall p: nat :: p < PAGES && 0 <= Off(p, v) < n ==> Lookup(t, dir, p).Some? && Grants(Lookup(t, dir, p).value.access, user)
  }

  lemma MappedOpened(t: Tables, dir: nat, v: nat, n: nat, f: nat, kernel: bool)
    requires MappedTo(t, dir, v, n, f, Access(kernel))
    ensures Opened(t, dir, v, n, !kernel)
  {
    hide Lookup;
  }

  /** Pages mapped, byte by byte. */
  lemma MappedBytes(t: Tables, t': Tables, dirs: set<nat>, dir: nat, virt: Word, size: Word, physical: Word, kernel: bool)
    requires Progress(t, t', dirs, dir, FirstPage(virt), PageCount(size, virt), physical / 4096, Access(kernel)) && dir in dirs
    ensures Opened(t', dir, FirstPage(virt), PageCount(size, virt), !kernel)
    ensures size + virt % 4096 <= 0xFFFF_F000 ==> BytesAt(t', dir, virt, size, physical)
    ensures BytesBeyond(t, t', dir, virt, size)
  {
    hide Lookup, PageCount;
    var v, n := FirstPage(virt), PageCount(size, virt);
    MappedOpened(t', dir, v, n, physical / 4096, kernel);
    hide Access, Opened;
    CountRounds(size, virt);
    PagesBeyond(t, t', dirs, dir, virt, size);
    if size + virt % 4096 <= 0xFFFF_F000 {
      forall va: Word | Ahead(va, virt) < size
        ensures Reaches(t', dir, va, (physical - physical % 4096 + virt % 4096 + Ahead(va, virt)) % TWO32)
      {
        PageAhead(va, virt);
        assert Off(va / 4096, v) < n;
        SumWraps(physical, Off(va / 4096, v), va % 4096);
      }
    }
  }

  lemma SumWraps(physical: Word, off: int, low: int)
    requires 0 <= off < PAGES && 0 <= low < 4096
    ensures Wrap(physical / 4096 + off) * 4096 + low == (physical - physical % 4096 + off * 4096 + low) % TWO32
  {
    var s := physical / 4096 + off;
    DivideBy(physical - physical % 4096 + off * 4096 + low, TWO32, if s >= PAGES then 1 else 0, Wrap(s) * 4096 + low);
  }

  lemma ClearedBytes(t: Tables, t': Tables, dirs: set<nat>, dir: nat, virt: Word, size: Word)
    requires Cleared(t, t', dirs, dir, FirstPage(virt), PageCount(size, virt)) && dir in dirs
    ensures size + virt % 4096 <= 0xFFFF_F000 ==> NoBytes(t', dir, virt, size)
    ensures BytesBeyond(t, t', dir, virt, size)
  {
    hide Lookup, PageCount;
    CountRounds(size, virt);
    PagesBeyond(t, t', dirs, dir, virt, size);
    if size + virt % 4096 <= 0xFFFF_F000 {
      forall va: Word | Ahead(va, virt) < size
        ensures Lookup(t', dir, va / 4096) == None
      {
        PageAhead(va, virt);
      }
    }
  }

  lemma PagesBeyond(t: Tables, t': Tables, dirs: set<nat>, dir: nat, virt: Word, size: Word)
    requires Outside(t, t', dirs, dir, FirstPage(virt), PageCount(size, virt)) && dir in dirs
    ensures BytesBeyond(t, t', dir, virt, size)
  {
    hide Lookup, PageCount;
    CountRounds(size, virt);
    forall va: Word | Ahead(va, virt - virt % 4096) >= virt % 4096 + size + 4095
      ensures Lookup(t', dir, va / 4096) == Lookup(t, dir, va / 4096)
    {
      PageAhead(va, virt);
      assert Off(va / 4096, FirstPage(virt)) >= PageCount(size, virt);
    }
  }

  /** No frame below 1 MiB changes hands. */
  ghost predicate LowKept(bs: seq<PBlock>, bs': seq<PBlock>) {
    forall f: nat :: f < 0x100 ==> (FrameFree(bs', f) <==> FrameFree(bs, f))
  }

  lemma LowUntouched(bs: seq<PBlock>, bs': seq<PBlock>, a: int, size: int)
    requires Reserved(bs, bs', a, size) && 0x10_0000 <= a
    ensures LowKept(bs, bs')
  {
    hide FrameFree;
    forall f: nat | f < 0x100
      ensures FrameFree(bs', f) <==> FrameFree(bs, f)
    {
      assert Taken1(bs, bs', a, size, f);
    }
  }

  // ---------------------------------------------------------------- page-heap frames

  /** The page-heap frames that are free. */
  ghost function FreeSet(used: seq<bool>): set<nat> {
    set i: nat | i < |used| && !used[i]
  }

  lemma FrameTaken(used: seq<bool>, i: nat)
    requires i < |used| && !used[i]
    ensures |FreeSet(used[i := true])| == |FreeSet(used)| - 1
  {
    assert FreeSet(used[i := true]) == FreeSet(used) - {i} && i in FreeSet(used);
  }

  /** Slot `i` of `dir` is in use and no other slot has changed. */
  ghost predicate SlotFilled(t: Tables, t': Tables, dir: nat, i: nat) {
    && Entry(t', dir, i) != 0
    && forall k :: 0 <= k < 1024 && (k != i || Entry(t, dir, k) != 0) ==> Entry(t', dir, k) == Entry(t, dir, k)
  }

  lemma FullMeansNone(used: seq<bool>)
    ensures (forall i :: 0 <= i < |used| ==> used[i]) <==> |FreeSet(used)| == 0
  {
    if |FreeSet(used)| == 0 {
      forall i | 0 <= i < |used|
        ensures used[i]
      {
        assert i !in FreeSet(used);
      }
    } else {
      var i :| i in FreeSet(used);
    }
  }

  ghost predicate Touches(v: nat, n: nat, i: nat) {
    exists p :: 0 <= p < PAGES && Off(p, v) < n && p / 1024 == i
  }

  /** The empty slots behind the `n` pages from `v`: each will need a table. */
  ghost function NeedSet(t: Tables, dir: nat, v: nat, n: nat): set<nat> {
    set i: nat | i < 1024 && Entry(t, dir, i) == 0 && Touches(v, n, i)
  }

  /** Tables have been hung into the empty slots behind the `m` pages from `v`, and nowhere else. */
  ghost predicate FilledTo(t0: Tables, t: Tables, dir: nat, v: nat, m: nat) {
    forall i: nat :: i < 1024 ==>
      && (Entry(t, dir, i) == 0 <==> Entry(t0, dir, i) == 0 && !Touches(v, m, i))
      && (Entry(t0, dir, i) != 0 ==> Entry(t, dir, i) == Entry(t0, dir, i))
  }

  lemma NothingFilled(t: Tables, dir: nat, v: nat)
    requires v < PAGES
    ensures FilledTo(t, t, dir, v, 0) && NeedSet(t, dir, v, 0) == {}
  {
  }

  /** The slot of the `m`-th page from `v`. */
  function NextSlot(v: nat, m: nat): (s: nat)
    requires v < PAGES && m < PAGES
    ensures s < 1024
  {
    Wrap(v + m) / 1024
  }

  lemma TouchesNext(v: nat, m: nat, i: nat)
    requires v < PAGES && m < PAGES
    ensures Touches(v, m + 1, i) <==> Touches(v, m, i) || i == NextSlot(v, m)
  {
    var q := Wrap(v + m);
    assert Off(q, v) == m;
    if Touches(v, m, i) {
      var p :| 0 <= p < PAGES && Off(p, v) < m && p / 1024 == i;
      assert Off(p, v) < m + 1;
    }
    if p :| 0 <= p < PAGES && Off(p, v) < m + 1 && p / 1024 == i {
      assert Off(p, v) < m || p == q;
    }
  }

  lemma FilledNext(t0: Tables, t1: Tables, t2: Tables, dir: nat, v: nat, m: nat)
    requires v < PAGES && m < PAGES && FilledTo(t0, t1, dir, v, m) && SlotFilled(t1, t2, dir, NextSlot(v, m))
    ensures FilledTo(t0, t2, dir, v, m + 1)
  {
    hide Touches, Entry, NextSlot;
    forall i: nat | i < 1024
      ensures Entry(t2, dir, i) == 0 <==> Entry(t0, dir, i) == 0 && !Touches(v, m + 1, i)
      ensures Entry(t0, dir, i) != 0 ==> Entry(t2, dir, i) == Entry(t0, dir, i)
    {
      TouchesNext(v, m, i);
    }
  }

  lemma NeedNext(t0: Tables, t1: Tables, dir: nat, v: nat, m: nat)
    requires v < PAGES && m < PAGES && FilledTo(t0, t1, dir, v, m)
    ensures |NeedSet(t0, dir, v, m + 1)| ==
            |NeedSet(t0, dir, v, m)| + if Entry(t1, dir, NextSlot(v, m)) == 0 then 1 else 0
  {
    hide Touches, Entry, NextSlot, NeedSet, FilledTo;
    var s := NextSlot(v, m);
    var a, b := NeedSet(t0, dir, v, m), NeedSet(t0, dir, v, m + 1);
    FilledAt(t0, t1, dir, v, m, s);
    forall i: nat
      ensures i in b <==> i in a || (i == s && Entry(t1, dir, s) == 0)
    {
      InNeed(t0, dir, v, m, i);
      InNeed(t0, dir, v, m + 1, i);
      TouchesNext(v, m, i);
    }
    InNeed(t0, dir, v, m, s);
    if Entry(t1, dir, s) == 0 {
      assert b == a + {s};
    } else {
      assert b == a;
    }
  }

  lemma InNeed(t: Tables, dir: nat, v: nat, n: nat, i: nat)
    ensures i in NeedSet(t, dir, v, n) <==> i < 1024 && Entry(t, dir, i) == 0 && Touches(v, n, i)
  {
  }

  lemma FilledAt(t0: Tables, t: Tables, dir: nat, v: nat, m: nat, i: nat)
    requires FilledTo(t0, t, dir, v, m) && i < 1024
    ensures Entry(t, dir, i) == 0 <==> Entry(t0, dir, i) == 0 && !Touches(v, m, i)
    ensures Entry(t0, dir, i) != 0 ==> Entry(t, dir, i) == Entry(t0, dir, i)
  {
  }

  lemma NeedMono(t: Tables, dir: nat, v: nat, m: nat, n: nat)
    requires m <= n
    ensures |NeedSet(t, dir, v, m)| <= |NeedSet(t, dir, v, n)|
  {
    forall i | i in NeedSet(t, dir, v, m)
      ensures i in NeedSet(t, dir, v, n)
    {
      var p :| 0 <= p < PAGES && Off(p, v) < m && p / 1024 == i;
      assert Off(p, v) < n;
    }
    SubsetSize(NeedSet(t, dir, v, m), NeedSet(t, dir, v, n));
  }

  lemma {:induction false} SubsetSize(a: set<nat>, b: set<nat>)
    requires a <= b
    ensures |a| <= |b|
  {
    assert b == a + (b - a);
  }

  /** The page heap has a frame for every table the 4 KiB part of the range still lacks. */
  ghost predicate Enough(t: Tables, used: seq<bool>, dir: nat, v: nat, n: nat)
    requires v < PAGES && n < PAGES
  {
    |TailNeed(t, dir, v, n)| <= |FreeSet(used)|
  }

  ghost function TailNeed(t: Tables, dir: nat, v: nat, n: nat): set<nat>
    requires v < PAGES && n < PAGES
  {
    NeedSet(t, dir, Wrap(v + LargePages(v, n)), n - LargePages(v, n))
  }

  /** The slots of the 4 MiB part, empty before, are the only ones that have changed. */
  ghost predicate LargeFilled(t: Tables, t': Tables, dir: nat, v: nat, m: nat) {
    forall i :: 0 <= i < 1024 ==>
      if Off(i * 1024, v) >= m then Entry(t', dir, i) == Entry(t, dir, i) else Entry(t, dir, i) == 0
  }

  /** The first `m` pages from `v` lie in 4 MiB pages. */
  ghost predicate LargeHead(t: Tables, dir: nat, v: nat, m: nat) {
    forall p :: 0 <= p < PAGES && Off(p, v) < m ==> LargeAt(t, dir, p)
  }

  lemma NextLargeHead(t1: Tables, t2: Tables, dir: nat, v: nat, c: nat)
    requires v < PAGES && v % 1024 == 0 && c < 1024 && LargeHead(t1, dir, v, c * 1024)
    requires Large(Entry(t2, dir, Wrap(v + c * 1024) / 1024))
    requires forall k :: 0 <= k < 1024 && k != Wrap(v + c * 1024) / 1024 ==> Entry(t2, dir, k) == Entry(t1, dir, k)
    ensures LargeHead(t2, dir, v, (c + 1) * 1024)
  {
    hide Large;
    var q := Wrap(v + c * 1024);
    var b, s := v / 1024, q / 1024;
    assert v == b * 1024 && q == s * 1024;
    forall p | 0 <= p < PAGES && Off(p, v) < (c + 1) * 1024
      ensures LargeAt(t2, dir, p)
    {
      if Off(p, v) < c * 1024 {
        assert LargeAt(t1, dir, p);
        SlotStart(p, v, c * 1024);
        assert p / 1024 != s;
      } else {
        assert p / 1024 == s;
      }
    }
  }

  lemma LargeStays(t1: Tables, t2: Tables, dir: nat, v: nat, m: nat, w: nat, n: nat)
    requires LargeHead(t1, dir, v, m) && FilledTo(t1, t2, dir, w, n)
    ensures LargeHead(t2, dir, v, m)
  {
    forall p | 0 <= p < PAGES && Off(p, v) < m
      ensures LargeAt(t2, dir, p)
    {
      assert LargeAt(t1, dir, p) && p / 1024 < 1024;
    }
  }

  lemma NoLargeFilled(t: Tables, dir: nat, v: nat)
    requires v < PAGES
    ensures LargeFilled(t, t, dir, v, 0) && LargeHead(t, dir, v, 0)
  {
  }

  lemma NextLargeFilled(t0: Tables, t1: Tables, t2: Tables, dir: nat, v: nat, c: nat)
    requires v < PAGES && v % 1024 == 0 && c < 1024 && LargeFilled(t0, t1, dir, v, c * 1024)
    requires Entry(t1, dir, Wrap(v + c * 1024) / 1024) == 0
    requires forall k :: 0 <= k < 1024 && k != Wrap(v + c * 1024) / 1024 ==> Entry(t2, dir, k) == Entry(t1, dir, k)
    ensures LargeFilled(t0, t2, dir, v, (c + 1) * 1024)
  {
    var b := v / 1024;
    assert v == b * 1024;
    var s := if b + c >= 1024 then b + c - 1024 else b + c;
    assert Wrap(v + c * 1024) == s * 1024;
    forall i | 0 <= i < 1024
      ensures Off(i * 1024, v) == (if i >= b then i - b else i - b + 1024) * 1024
      ensures Off(i * 1024, v) == c * 1024 <==> i == s
    {
    }
  }

  /** Slots behind the first `m` pages from `v` are the only ones that may have changed. */
  ghost predicate OtherSlots(t: Tables, t': Tables, dir: nat, v: nat, m: nat) {
    forall i :: 0 <= i < 1024 && Off(i * 1024, v) >= m ==> Entry(t', dir, i) == Entry(t, dir, i)
  }

  lemma NextOtherSlots(t0: Tables, t1: Tables, t2: Tables, dir: nat, v: nat, c: nat)
    requires v < PAGES && v % 1024 == 0 && c < 1024 && OtherSlots(t0, t1, dir, v, c * 1024)
    requires forall k :: 0 <= k < 1024 && k != Wrap(v + c * 1024) / 1024 ==> Entry(t2, dir, k) == Entry(t1, dir, k)
    ensures OtherSlots(t0, t2, dir, v, (c + 1) * 1024)
  {
    var s := Wrap(v + c * 1024) / 1024;
    assert Off(s * 1024, v) == c * 1024;
  }

  lemma OtherSlotsSame(t0: Tables, t1: Tables, t2: Tables, dirs: set<nat>, dir: nat, v: nat, m: nat)
    requires OtherSlots(t0, t1, dir, v, m) && SameDirs(t1, t2, dirs) && dir in dirs
    ensures OtherSlots(t0, t2, dir, v, m)
  {
  }

  lemma AllSlotsSame(t: Tables, dir: nat, v: nat)
    ensures OtherSlots(t, t, dir, v, 0)
  {
  }

  lemma FreeSlot(t: Tables, dir: nat, v: nat, m: nat, i: nat)
    requires !SlotTaken(t, dir, v, m) && i < 1024 && Off(i * 1024, v) < m
    ensures Entry(t, dir, i) == 0
  {
    assert i * 1024 / 1024 == i;
  }

  /** A table in common survives mapping and unmapping, with the pages behind it as they were. */
  lemma RoundTrip(t0: Tables, t1: Tables, t2: Tables, dirs: set<nat>, dir: nat, v: nat, n: nat, d: nat, p: nat)
    requires v < PAGES && n < PAGES && dir in dirs && d in dirs && d != dir && p < PAGES
    requires Outside(t0, t1, dirs, dir, v, n) && Unmapped(t0, dir, v, n) && !SlotTaken(t0, dir, v, LargePages(v, n))
    requires SlotsKept(t0, t1, dir) && Aside(t0, t1, dirs, dir)
    requires Cleared(t1, t2, dirs, dir, v, n) && OtherSlots(t1, t2, dir, v, LargePages(v, n)) && Aside(t1, t2, dirs, dir)
    ensures Lookup(t2, d, p) == Lookup(t0, d, p)
  {
    hide Lookup;
    var i := p / 1024;
    if Off(p, v) >= n {
      assert Lookup(t1, d, p) == Lookup(t0, d, p);
    } else if !SharesTable(t0, d, dir, i) {
      assert Lookup(t1, d, p) == Lookup(t0, d, p);
      assert !SharesTable(t1, d, dir, i);
    } else {
      if Off(i * 1024, v) < LargePages(v, n) {
        FreeSlot(t0, dir, v, LargePages(v, n), i);
      }
      assert Entry(t2, dir, i) == Entry(t1, dir, i) == Entry(t0, dir, i);
      assert Entry(t2, d, i) == Entry(t1, d, i) == Entry(t0, d, i);
      SharedLookup(t0, d, dir, p);
      SharedLookup(t2, d, dir, p);
    }
  }

  lemma LargeFree(t: Tables, t': Tables, dir: nat, v: nat, m: nat)
    requires v < PAGES && v % 1024 == 0 && m % 1024 == 0 && LargeFilled(t, t', dir, v, m)
    ensures !SlotTaken(t, dir, v, m)
  {
    forall p | 0 <= p < PAGES && Off(p, v) < m
      ensures Entry(t, dir, p / 1024) == 0
    {
      SlotStart(p, v, m);
    }
  }

  /** A page and the first page of its slot lie on the same side of a slot boundary. */
  lemma SlotStart(p: nat, v: nat, m: nat)
    requires p < PAGES && v < PAGES && v % 1024 == 0 && m % 1024 == 0
    ensures Off(p, v) < m <==> Off(p / 1024 * 1024, v) < m
  {
    var a, b, c := p / 1024, v / 1024, m / 1024;
    assert v == b * 1024 && m == c * 1024 && p == a * 1024 + p % 1024;
  }

  /** The 4 MiB part does not touch the slots of the 4 KiB part. */
  lemma TailNeedKept(t: Tables, t': Tables, dir: nat, v: nat, n: nat)
    requires v < PAGES && n < PAGES
    requires LargeFilled(t, t', dir, v, LargePages(v, n))
    ensures TailNeed(t', dir, v, n) == TailNeed(t, dir, v, n)
  {
    var m := LargePages(v, n);
    forall i: nat | i < 1024 && Touches(Wrap(v + m), n - m, i)
      ensures Entry(t', dir, i) == Entry(t, dir, i)
    {
      var p :| 0 <= p < PAGES && Off(p, Wrap(v + m)) < n - m && p / 1024 == i;
      TailOff(p, v, m, n);
      if m > 0 {
        SlotStart(p, v, m);
      }
      assert Off(i * 1024, v) >= m;
    }
  }

  /** The range can be mapped to `physical`: alignment, free pages and slots, and frames for the tables. */
  ghost predicate Mappable(t: Tables, used: seq<bool>, dir: nat, physical: int, v: nat, n: nat)
    requires v < PAGES && n < PAGES
  {
    !Misaligned(physical, v, n) && !Occupied(t, dir, v, n) && Enough(t, used, dir, v, n)
  }

  /** No slot in use has changed. */
  ghost predicate SlotsKept(t: Tables, t': Tables, dir: nat) {
    forall i :: 0 <= i < 1024 && Entry(t, dir, i) != 0 ==> Entry(t', dir, i) == Entry(t, dir, i)
  }

  /** Slots that the range does not touch have not changed. */
  ghost predicate UntouchedSame(t: Tables, t': Tables, dir: nat, v: nat, n: nat) {
    forall i: nat :: i < 1024 && !Touches(v, n, i) ==> Entry(t', dir, i) == Entry(t, dir, i)
  }

  lemma UntouchedSlots(t0: Tables, t1: Tables, t2: Tables, dir: nat, v: nat, m: nat, n: nat)
    requires v < PAGES && m <= n < PAGES && LargeFilled(t0, t1, dir, v, m) && FilledTo(t1, t2, dir, Wrap(v + m), n - m)
    ensures UntouchedSame(t0, t2, dir, v, n)
  {
    forall i: nat | i < 1024 && !Touches(v, n, i)
      ensures Entry(t2, dir, i) == Entry(t0, dir, i)
    {
      if Off(i * 1024, v) < m {
        assert i * 1024 / 1024 == i;
        assert Touches(v, n, i);
      }
      if Touches(Wrap(v + m), n - m, i) {
        var p :| 0 <= p < PAGES && Off(p, Wrap(v + m)) < n - m && p / 1024 == i;
        TailOff(p, v, m, n);
        assert Touches(v, n, i);
      }
    }
  }

  /** What a successful map_flexible has done to the slots, and that it could succeed. */
  lemma MappedWell(t0: Tables, t1: Tables, t2: Tables, used: seq<bool>, dir: nat, v: nat, n: nat, physical: int)
    requires v < PAGES && n < PAGES
    requires LargeFilled(t0, t1, dir, v, LargePages(v, n)) && Unmapped(t0, dir, v, n) && !Misaligned(physical, v, n)
    requires FilledTo(t1, t2, dir, Wrap(v + LargePages(v, n)), n - LargePages(v, n))
    requires |NeedSet(t1, dir, Wrap(v + LargePages(v, n)), n - LargePages(v, n))| <= |FreeSet(used)|
    ensures Mappable(t0, used, dir, physical, v, n) && SlotsKept(t0, t2, dir) && UntouchedSame(t0, t2, dir, v, n)
    ensures LargePages(v, n) == 0 ==> FilledTo(t0, t2, dir, v, n)
  {
    hide Misaligned, Touches, Lookup, FreeSet, NeedSet, LargeFilled, FilledTo, SlotTaken, LargePages, SlotsKept, Entry,
         UntouchedSame;
    var m := LargePages(v, n);
    TailNeedKept(t0, t1, dir, v, n);
    BothKeep(t0, t1, t2, dir, v, m, n);
    UntouchedSlots(t0, t1, t2, dir, v, m, n);
    NoneTaken(t0, dir, v, n);
    if m > 0 {
      LargeFree(t0, t1, dir, v, m);
    } else {
      NoSlots(t0, dir, v);
    }
  }

  lemma NoneTaken(t: Tables, dir: nat, v: nat, n: nat)
    requires Unmapped(t, dir, v, n)
    ensures !PageTaken(t, dir, v, n)
  {
  }

  lemma NoSlots(t: Tables, dir: nat, v: nat)
    requires v < PAGES
    ensures !SlotTaken(t, dir, v, 0)
  {
  }

  lemma BothKeep(t0: Tables, t1: Tables, t2: Tables, dir: nat, v: nat, m: nat, n: nat)
    requires v < PAGES && m <= n < PAGES && LargeFilled(t0, t1, dir, v, m) && FilledTo(t1, t2, dir, Wrap(v + m), n - m)
    ensures SlotsKept(t0, t2, dir) && (m == 0 ==> FilledTo(t0, t2, dir, v, n))
  {
    hide Touches, Entry;
    forall i | 0 <= i < 1024 && Entry(t0, dir, i) != 0
      ensures Entry(t2, dir, i) == Entry(t0, dir, i)
    {
      assert Entry(t1, dir, i) == Entry(t0, dir, i);
    }
  }

  /** One such range: 8 MiB and a page at address 0, when the first free block that fits starts behind a single
      page already taken. map_memory dies although memory and address range are free. */
  lemma MisalignedFit(t: Tables, used: seq<bool>, dir: nat)
    ensures var bs := [PBlock(0xC0_0000, 0x1000, USER), PBlock(0xC0_1000, 0x800_0000, FREE)];
            && ListOk(bs) && Room(bs, 2049 * 4096)
            && !Mappable(t, used, dir, FitBase(bs, 2049 * 4096), 0, 2049)
  {
    var bs := [PBlock(0xC0_0000, 0x1000, USER), PBlock(0xC0_1000, 0x800_0000, FREE)];
    assert Fits(bs[1], 2049 * 4096) && !Fits(bs[0], 2049 * 4096);
    assert FirstFit(bs, 2049 * 4096) == 1;
  }

  lemma TailOff(p: nat, v: nat, m: nat, n: nat)
    requires p < PAGES && v < PAGES && m <= n < PAGES && Off(p, Wrap(v + m)) < n - m
    ensures m <= Off(p, v) < n
  {
  }

  /** The contents of a frame. */
  type Page = p: seq<Byte> | |p| == 4096 witness seq(4096, _ => 0)

  // ---------------------------------------------------------------- the kernel's state

  class Mmu {
    var tables: Tables          // every directory and table
    var used: seq<bool>         // kpheap_blocks
    var blocks: seq<PBlock>     // the list from first_block
    var ram: seq<Page>          // contents of the frames that hold data
    var heap: HeapState         // the blocks of the kernel heap
    var current: nat            // current_page_directory
    const kernelDir: nat        // kernel_page_directory
    ghost var kernelFrames: set<nat> // frames of directories, tables and the kernel heap
    ghost var dirs: set<nat>    // the directories in existence

    ghost predicate Valid()
      reads this
    {
      && Sound(tables, dirs, used)
      && kernelDir in dirs && current in dirs
      && ListOk(blocks)
      && tables.Keys <= kernelFrames && KernelHeld(kernelFrames, blocks)
      && |ram| == PAGES && HeapOk(heap) && Usable(tables, dirs, kernelDir)
    }

    /** `kheap_install`, `physmem_get` and `install_page_heap`: the state in which paging starts. */
    constructor Boot(kernel: nat, low: nat, pages: nat, heapTable: nat, bs: seq<PBlock>, ram: seq<Page>, h: HeapState)
      requires BootFrames(kernel, low, pages, heapTable) && |ram| == PAGES && HeapOk(h) && BootSize(h)
      requires ListOk(bs) && forall f :: 0x100 <= f < 0xC00 ==> !FrameFree(bs, f)
      ensures Valid() && Backed() && HeapMapped() && current == kernelDir == kernel && dirs == {kernel}
      ensures blocks == bs && this.ram == ram && heap == h && |FreeSet(used)| == 1024
      ensures kernelFrames == BootKernelFrames() && forall i :: 771 <= i < 1024 ==> Entry(tables, kernel, i) == 0
      ensures forall p :: 0 <= p < USER_PAGES ==> Lookup(tables, kernel, p) == None
      ensures forall p :: 0xC_0000 <= p < 0xC_0C00 ==> Lookup(tables, kernel, p) == Some(Leaf(p - 0xC_0000, 3))
      ensures forall p :: 0xC_0C00 <= p < PAGES ==> Lookup(tables, kernel, p) == None
    {
      tables := BootTables(kernel, low, pages, heapTable);
      used := seq(1024, _ => false);
      blocks := bs;
      this.ram := ram;
      heap := h;
      current := kernel;
      kernelDir := kernel;
      dirs := {kernel};
      kernelFrames := BootKernelFrames();
      new;
      hide BootTables, FrameFree, HeapOk, ListOk, Sound, HeapViewed, KernelHeld, AllBacked, Lookup, Usable;
      BootSound(kernel, low, pages, heapTable);
      BootHeapViewed(kernel, low, pages, heapTable, h);
      BootUser(kernel, low, pages, heapTable, bs);
      BootTop(kernel, low, pages, heapTable);
      AllFrames(1024);
      BootUsable(kernel, low, pages, heapTable);
      BootPages(kernel, low, pages, heapTable);
    }

    ghost predicate HeapMapped()
      reads this
    {
      HeapViewed(tables, dirs, heap.end, kernelFrames)
    }

    ghost predicate Backed()
      reads this
    {
      AllBacked(tables, dirs, kernelFrames, blocks)
    }

    /** `pt_alloc`: the lowest free frame, zeroed. None is the fatal "page heap is full". */
    method PtAlloc() returns (r: Option<nat>)
      requires Valid()
      modifies this`tables, this`used
      ensures r.None? ==> tables == old(tables) && used == old(used) && forall i :: 0 <= i < 1024 ==> used[i]
      ensures r.Some? ==> && FreeFrame(old(used), r.value) && used == old(used)[r.value - HEAP_FRAME := true]
                          && tables == old(tables)[r.value := Zeros()]
                          && forall i :: 0 <= i < r.value - HEAP_FRAME ==> old(used)[i]
    {
      for i := 0 to 1024
        invariant forall k :: 0 <= k < i ==> used[k]
        invariant tables == old(tables) && used == old(used)
      {
        if !used[i] {
          used := used[i := true];
          tables := tables[HEAP_FRAME + i := Zeros()];
          return Some(HEAP_FRAME + i);
        }
      }
      return None;
    }

    ghost predicate HeapFull()
      reads this
    {
      forall i :: 0 <= i < |used| ==> used[i]
    }

    /** The branch of `map_page` that hangs a new table into an empty slot. 0 is the fatal exit. */
    method AddTable(dir: nat, i: nat) returns (e: Word)
      requires Valid() && dir in dirs && i < 1024 && Entry(tables, dir, i) == 0
      modifies this`tables, this`used
      ensures Valid() && tables.Keys == old(tables.Keys)
      ensures (e == 0) == old(HeapFull())
      ensures e == 0 ==> tables == old(tables) && used == old(used)
      ensures e != 0 ==> IsTable(e) && Entry(tables, dir, i) == e && Grants(e % 4096, dir != kernelDir)
      ensures forall k :: 0 <= k < 1024 && k != i ==> Entry(tables, dir, k) == Entry(old(tables), dir, k)
      ensures OtherDirs(old(tables), tables, dirs, dir) && Aside(old(tables), tables, dirs, dir)
      ensures forall d, p :: d in dirs && 0 <= p < PAGES ==> Lookup(tables, d, p) == Lookup(old(tables), d, p)
      ensures e != 0 ==> |FreeSet(used)| == |FreeSet(old(used))| - 1
    {
      hide Lookup, Unshared, TableLive, Aside, SharesTable, HeapOk, KernelHeld, ListOk, Usable;
      AsideSame(tables, dirs, dir);
      var f := PtAlloc();
      if f.None? {
        return 0;
      }
      var flags := if dir == kernelDir then 259 else 7;
      NewTable(old(tables), dirs, old(used), dir, i, f.value, flags);
      NewTableAside(old(tables), dirs, old(used), dir, i, f.value, flags);
      FrameTaken(old(used), f.value - HEAP_FRAME);
      e := f.value * 4096 + flags;
      FlagsFit(f.value * 4096, flags);
      tables := SetWord(tables, dir, i, e);
      assert tables.Keys == old(tables.Keys);
      UsableTable(old(tables), tables, dirs, kernelDir, dir, i, e);
    }

    method WritePte(dir: nat, v: nat, f: nat, w: Word)
      requires Valid() && dir in dirs && v < PAGES
      requires IsTable(Entry(tables, dir, v / 1024)) && FrameOf(Entry(tables, dir, v / 1024)) == f
      requires w != 0 ==> Grants(w % 4096, dir != kernelDir)
      modifies this`tables
      ensures Valid() && SameDirs(old(tables), tables, dirs)
      ensures Outside(old(tables), tables, dirs, dir, v, 1) && Lookup(tables, dir, v) == PteLeaf(w)
      ensures Aside(old(tables), tables, dirs, dir)
    {
      hide Aside, HeapOk, KernelHeld, ListOk, Usable;
      SetPte(tables, dirs, used, dir, v, w);
      SetPteAside(tables, dirs, used, dir, v, w);
      UsablePte(tables, SetWord(tables, f, v % 1024, w), dirs, kernelDir, dir, v, w);
      tables := SetWord(tables, f, v % 1024, w);
    }

    /** `map_page`. A false result is one of the `fatal_kernel_error` exits. */
    method MapPage(phys: Word, virt: Word, dir: nat) returns (ok: bool)
      requires Valid() && dir in dirs
      modifies this`tables, this`used
      ensures Valid()
      ensures ok == (phys % 4096 == 0 && virt % 4096 == 0 && Lookup(old(tables), dir, virt / 4096) == None
                     && (Entry(old(tables), dir, virt / 4096 / 1024) == 0 ==> !old(HeapFull())))
      ensures ok ==> Outside(old(tables), tables, dirs, dir, virt / 4096, 1)
      ensures ok ==> Lookup(tables, dir, virt / 4096) == Some(Leaf(phys / 4096, Access(dir == kernelDir)))
      ensures ok ==> Grants(Lookup(tables, dir, virt / 4096).value.access, dir != kernelDir)
      ensures forall i :: 0 <= i < 1024 && Large(Entry(tables, dir, i)) ==> Large(Entry(old(tables), dir, i))
      ensures ok ==> IsTable(Entry(tables, dir, virt / 4096 / 1024))
      ensures !ok ==> used == old(used)
      ensures tables.Keys == old(tables.Keys) && Aside(old(tables), tables, dirs, dir)
      ensures ok ==> SlotFilled(old(tables), tables, dir, virt / 4096 / 1024)
      ensures ok ==> |FreeSet(used)| == |FreeSet(old(used))| - if Entry(old(tables), dir, virt / 4096 / 1024) == 0 then 1 else 0
    {
      hide Aside, Sound, FreeSet, FrameFree, ListOk, HeapOk, KernelHeld, Usable;
      AsideSame(tables, dirs, dir);
      if phys % 4096 != 0 || virt % 4096 != 0 {
        return false;
      }
      var i, j := virt / 0x40_0000, virt / 4096 % 1024;
      var v := virt / 4096;
      assert i == v / 1024 && j == v % 1024;
      var e := Entry(tables, dir, i);
      if e == 0 {
        e := AddTable(dir, i);
      }
      ok := IsTable(e) && Entry(tables, FrameOf(e), j) == 0;
      if ok {
        ghost var t1 := tables;
        FlagsFit(phys, if dir == kernelDir then 259 else 7);
        WritePte(dir, v, FrameOf(e), phys + if dir == kernelDir then 259 else 7);
        AsideTrans(old(tables), t1, tables, dirs, dir);
      }
    }

    method WritePde(dir: nat, i: nat, e: Word)
      requires Valid() && dir in dirs && i < 1024 && !IsTable(e)
      requires e != 0 ==> Grants(e % 4096, dir != kernelDir) && Grants(e % 4096 - 128, dir != kernelDir)
      modifies this`tables
      ensures Valid() && tables.Keys == old(tables.Keys)
      ensures Outside(old(tables), tables, dirs, dir, i * 1024, 1024)
      ensures forall p :: 0 <= p < PAGES && Off(p, i * 1024) < 1024 ==>
                Lookup(tables, dir, p) == if e == 0 then None else LargeLeaf(e, Off(p, i * 1024))
      ensures forall k :: 0 <= k < 1024 && k != i ==> Entry(tables, dir, k) == Entry(old(tables), dir, k)
      ensures Entry(tables, dir, i) == e && Aside(old(tables), tables, dirs, dir)
    {
      hide Aside, HeapOk, KernelHeld, ListOk, Usable;
      SetPdeAside(tables, dirs, used, dir, i, e);
      SetPde(tables, dirs, used, dir, i, e);
      UsablePde(tables, SetWord(tables, dir, i, e), dirs, kernelDir, dir, i, e);
      tables := SetWord(tables, dir, i, e);
      forall p | 0 <= p < PAGES
        ensures InSlot(p, i) <==> Off(p, i * 1024) < 1024
      {
      }
    }

    /** `map_page_table` with 4 MiB pages available. */
    method MapPageTable(phys: Word, virt: Word, dir: nat) returns (ok: bool)
      requires Valid() && dir in dirs
      modifies this`tables
      ensures Valid() && tables.Keys == old(tables.Keys)
      ensures ok == (phys % 0x40_0000 == 0 && virt % 0x40_0000 == 0
                     && Entry(old(tables), dir, virt / 0x40_0000) == 0)
      ensures ok ==> Progress(old(tables), tables, dirs, dir, virt / 4096, 1024, phys / 4096, Access(dir == kernelDir))
      ensures ok ==> Opened(tables, dir, virt / 4096, 1024, dir != kernelDir)
      ensures forall k :: 0 <= k < 1024 && k != virt / 0x40_0000 ==>
                Entry(tables, dir, k) == Entry(old(tables), dir, k)
      ensures Aside(old(tables), tables, dirs, dir) && (ok ==> Large(Entry(tables, dir, virt / 0x40_0000)))
    {
      hide Sound, TableLive, Unshared, Outside, Aside, HeapOk, KernelHeld, ListOk, Usable;
      AsideSame(tables, dirs, dir);
      var i := virt / 0x40_0000;
      ok := phys % 0x40_0000 == 0 && virt % 0x40_0000 == 0 && Entry(tables, dir, i) == 0;
      if ok {
        assert virt / 4096 == i * 1024;
        var access := if dir == kernelDir then 259 else 7;
        LargeFlagsFit(phys, access, 0);
        LargeBit(phys / 0x40_0000, access + 128);
        WritePde(dir, i, phys + access + 128);
        forall p: nat | p < PAGES && Off(p, i * 1024) < 1024
          ensures Lookup(tables, dir, p) == Some(Leaf(Wrap(phys / 4096 + Off(p, i * 1024)), access))
          ensures Lookup(old(tables), dir, p) == None
        {
          LargeFlagsFit(phys, access, Off(p, i * 1024));
          assert p / 1024 == i;
        }
      }
    }

    /** `unmap_page`. */
    method UnmapPage(virt: Word, dir: nat) returns (ok: bool)
      requires Valid() && dir in dirs
      modifies this`tables
      ensures Valid() && tables.Keys == old(tables.Keys)
      ensures ok == (virt % 4096 == 0 && !LargeAt(old(tables), dir, virt / 4096)
                     && (Entry(old(tables), dir, virt / 0x40_0000) == 0
                         || Lookup(old(tables), dir, virt / 4096).Some?))
      ensures ok ==> Outside(old(tables), tables, dirs, dir, virt / 4096, 1)
      ensures ok ==> Lookup(tables, dir, virt / 4096) == None
      ensures SameDirs(old(tables), tables, dirs) && Aside(old(tables), tables, dirs, dir)
    {
      hide Aside, HeapOk, KernelHeld, ListOk, Usable;
      AsideSame(tables, dirs, dir);
      var v, i, j := virt / 4096, virt / 0x40_0000, virt / 4096 % 1024;
      assert i == v / 1024;
      if virt % 4096 != 0 {
        return false;
      }
      var e := Entry(tables, dir, i);
      if e == 0 {
        return true;
      }
      ok := !Large(e) && Entry(tables, FrameOf(e), j) != 0;
      if ok {
        WritePte(dir, v, FrameOf(e), 0);
      }
    }

    /** `unmap_page_table` with 4 MiB pages available: clears the slot whatever it holds. */
    method UnmapPageTable(virt: Word, dir: nat) returns (ok: bool)
      requires Valid() && dir in dirs
      modifies this`tables
      ensures Valid() && tables.Keys == old(tables.Keys)
      ensures ok == (virt % 0x40_0000 == 0 && Entry(old(tables), dir, virt / 0x40_0000) != 0)
      ensures ok ==> Outside(old(tables), tables, dirs, dir, virt / 4096, 1024)
      ensures ok ==> Unmapped(tables, dir, virt / 4096, 1024) && Entry(tables, dir, virt / 0x40_0000) == 0
      ensures forall k :: 0 <= k < 1024 && k != virt / 0x40_0000 ==>
                Entry(tables, dir, k) == Entry(old(tables), dir, k)
      ensures Aside(old(tables), tables, dirs, dir)
    {
      hide Aside, HeapOk, KernelHeld, ListOk, Usable;
      AsideSame(tables, dirs, dir);
      var i := virt / 0x40_0000;
      ok := virt % 0x40_0000 == 0 && Entry(tables, dir, i) != 0;
      if ok {
        assert virt / 4096 == i * 1024;
        WritePde(dir, i, 0);
      }
    }

    /** The 4 MiB loop of `map_flexible`, at an address on a 4 MiB boundary. */
    method MapLarge(size: Word, physical: Word, virt: Word, dir: nat) returns (ok: bool, add: Word)
      requires Valid() && dir in dirs
      requires virt % 0x40_0000 == 0 && size % 4096 == 0 && size > 0x40_0000
      modifies this`tables
      ensures Valid() && tables.Keys == old(tables.Keys)
      ensures ok ==> add == LargePages(virt / 4096, size / 4096) * 4096
      ensures ok ==> Progress(old(tables), tables, dirs, dir, virt / 4096, LargePages(virt / 4096, size / 4096),
                              physical / 4096, Access(dir == kernelDir))
      ensures ok ==> physical % 0x40_0000 == 0
      ensures ok ==> LargeFilled(old(tables), tables, dir, virt / 4096, LargePages(virt / 4096, size / 4096))
      ensures ok ==> LargeHead(tables, dir, virt / 4096, LargePages(virt / 4096, size / 4096))
      ensures ok ==> Aside(old(tables), tables, dirs, dir)
      ensures !ok ==> physical % 0x40_0000 != 0
                      || SlotTaken(old(tables), dir, virt / 4096, LargePages(virt / 4096, size / 4096))
    {
      hide Sound, Outside, MappedTo, Unmapped, Small, Aside, LargeFilled, LargeHead, HeapOk, KernelHeld, ListOk, Usable;
      var sz: int := size;
      add := 0;
      ok := true;
      ghost var c, n := 0, size / 4096;
      AsideSame(tables, dirs, dir);
      ghost var v0, f0, access := virt / 4096, physical / 4096, Access(dir == kernelDir);
      SlotStep(virt, 0, 0);
      NoProgress(tables, dirs, dir, v0, f0, access);
      NoLargeFilled(tables, dir, v0);
      while sz > 0x40_0000
        invariant 0 <= c && add == c * 0x40_0000 && c * 1024 < n && sz == (n - c * 1024) * 4096
        invariant Valid() && tables.Keys == old(tables.Keys)
        invariant 0 < c ==> physical % 0x40_0000 == 0
        invariant Progress(old(tables), tables, dirs, dir, v0, c * 1024, f0, access)
        invariant LargeHead(tables, dir, v0, c * 1024)
        invariant LargeFilled(old(tables), tables, dir, v0, c * 1024) && Aside(old(tables), tables, dirs, dir)
        decreases n - c * 1024
      {
        SlotStep(virt, add, c);
        SlotStep(physical, add, c);
        ghost var t1 := tables;
        ok := MapPageTable(Add32(physical, add), Add32(virt, add), dir);
        if !ok {
          if physical % 0x40_0000 == 0 {
            NextSlotTaken(old(tables), t1, dir, v0, c, n);
          }
          return;
        }
        ChainMapped(old(tables), t1, tables, dirs, dir, v0, c * 1024, 1024, f0, access);
        NextLargeFilled(old(tables), t1, tables, dir, v0, c);
        NextLargeHead(t1, tables, dir, v0, c);
        AsideTrans(old(tables), t1, tables, dirs, dir);
        sz := sz - 0x40_0000;
        add := add + 0x40_0000;
        c := c + 1;
      }
      LargeCount(v0, n, c);
    }

    /** The 4 KiB loop of `map_flexible`. */
    method MapSmall(size: Word, physical: Word, virt: Word, dir: nat) returns (ok: bool)
      requires Valid() && dir in dirs
      requires virt % 4096 == 0 && size % 4096 == 0
      modifies this`tables, this`used
      ensures Valid() && tables.Keys == old(tables.Keys)
      ensures ok ==> Progress(old(tables), tables, dirs, dir, virt / 4096, size / 4096,
                              physical / 4096, Access(dir == kernelDir))
      ensures ok ==> Small(tables, dir, virt / 4096, size / 4096)
      ensures ok && 0 < size ==> physical % 4096 == 0
      ensures size == 0 ==> ok
      ensures ok ==> FilledTo(old(tables), tables, dir, virt / 4096, size / 4096)
      ensures ok ==> |FreeSet(used)| == |FreeSet(old(used))| - |NeedSet(old(tables), dir, virt / 4096, size / 4096)|
      ensures ok ==> Aside(old(tables), tables, dirs, dir)
      ensures !ok ==> || physical % 4096 != 0 || PageTaken(old(tables), dir, virt / 4096, size / 4096)
                      || (HeapFull() && |NeedSet(old(tables), dir, virt / 4096, size / 4096)| > |FreeSet(old(used))|)
    {
      hide Sound, Outside, MappedTo, Unmapped, Small, Aside, FilledTo, NeedSet, SlotFilled, FreeSet, HeapOk, KernelHeld, ListOk, Usable;
      var sz: int, add: int := size, 0;
      ok := true;
      ghost var m, n := 0, size / 4096;
      ghost var v0, f0, access := virt / 4096, physical / 4096, Access(dir == kernelDir);
      NoProgress(tables, dirs, dir, v0, f0, access);
      NothingFilled(tables, dir, v0);
      AsideSame(tables, dirs, dir);
      while sz != 0
        invariant 0 <= m <= n && add == m * 4096 && sz == (n - m) * 4096
        invariant Valid() && tables.Keys == old(tables.Keys)
        invariant 0 < m ==> physical % 4096 == 0
        invariant Progress(old(tables), tables, dirs, dir, v0, m, f0, access)
        invariant Small(tables, dir, v0, m)
        invariant FilledTo(old(tables), tables, dir, v0, m) && Aside(old(tables), tables, dirs, dir)
        invariant |FreeSet(used)| == |FreeSet(old(used))| - |NeedSet(old(tables), dir, v0, m)|
        decreases n - m
      {
        PageStep(virt, add, m);
        PageStep(physical, add, m);
        ghost var t1 := tables;
        NeedNext(old(tables), t1, dir, v0, m);
        ok := MapPage(Add32(physical, add), Add32(virt, add), dir);
        if !ok {
          if Lookup(t1, dir, Wrap(v0 + m)).Some? {
            NextPageTaken(old(tables), t1, dirs, dir, v0, m, n);
          }
          FullMeansNone(used);
          NeedMono(old(tables), dir, v0, m + 1, n);
          return;
        }
        FilledNext(old(tables), t1, tables, dir, v0, m);
        AsideTrans(old(tables), t1, tables, dirs, dir);
        SmallStep(old(tables), t1, tables, dirs, dir, v0, m, f0, access);
        sz := sz - 4096;
        add := add + 4096;
        m := m + 1;
      }
    }

    /** `map_flexible`: 4 MiB pages while more than 4 MiB is left of an aligned range, then 4 KiB pages. */
    method MapFlexible(size: Word, physical: Word, virt: Word, dir: nat) returns (ok: bool)
      requires Valid() && dir in dirs
      modifies this`tables, this`used
      ensures Valid() && tables.Keys == old(tables.Keys)
      ensures ok ==> Progress(old(tables), tables, dirs, dir, FirstPage(virt), PageCount(size, virt),
                              physical / 4096, Access(dir == kernelDir))
      ensures ok ==> Opened(tables, dir, FirstPage(virt), PageCount(size, virt), dir != kernelDir)
      ensures ok && size + virt % 4096 <= 0xFFFF_F000 ==> BytesAt(tables, dir, virt, size, physical)
      ensures ok ==> BytesBeyond(old(tables), tables, dir, virt, size)
      ensures ok ==> SmallTail(tables, dir, FirstPage(virt), PageCount(size, virt))
      ensures ok ==> !Misaligned(physical, FirstPage(virt), PageCount(size, virt))
      ensures ok == Mappable(old(tables), old(used), dir, physical, FirstPage(virt), PageCount(size, virt))
      ensures !ok ==> HeapFull() || Misaligned(physical, FirstPage(virt), PageCount(size, virt))
                      || Occupied(old(tables), dir, FirstPage(virt), PageCount(size, virt))
      ensures ok ==> |FreeSet(used)| == |FreeSet(old(used))| - |TailNeed(old(tables), dir, FirstPage(virt), PageCount(size, virt))|
      ensures ok ==> SlotsKept(old(tables), tables, dir) && Aside(old(tables), tables, dirs, dir)
      ensures ok ==> UntouchedSame(old(tables), tables, dir, FirstPage(virt), PageCount(size, virt))
      ensures ok ==> LargeHead(tables, dir, FirstPage(virt), LargePages(FirstPage(virt), PageCount(size, virt)))
      ensures ok && LargePages(FirstPage(virt), PageCount(size, virt)) == 0 ==>
                FilledTo(old(tables), tables, dir, FirstPage(virt), PageCount(size, virt))
      ensures ok && old(Backed()) && FramesReserved(kernelFrames, blocks, physical / 4096, PageCount(size, virt)) ==> Backed()
    {
      hide Sound, Outside, MappedTo, Unmapped, Small, SmallTail, PageTaken, SlotTaken, AllBacked, FramesReserved, FrameFree,
           LargeFilled, LargeHead, UntouchedSame, FilledTo, NeedSet, FreeSet, Aside, SlotsKept, Add32, HeapOk, KernelHeld, ListOk,
           AlignUp, AlignDown, PageCount, FirstPage, Usable;
      var v := AlignDown(virt, 4096);
      var sz := AlignUp((size + (virt - v)) % TWO32, 4096);
      var add := 0;
      ghost var v0, n, f0 := FirstPage(virt), PageCount(size, virt), physical / 4096;
      ghost var access := Access(dir == kernelDir);
      ghost var m := LargePages(v0, n);
      RangeNumbers(size, virt);
      NoProgress(tables, dirs, dir, v0, f0, access);
      NoLargeFilled(tables, dir, v0);
      AsideSame(tables, dirs, dir);
      if v % 0x40_0000 == 0 && sz > 0x40_0000 {
        ok, add := MapLarge(sz, physical, v, dir);
        if !ok {
          return;
        }
      }
      assert add == m * 4096;
      PagesIn(sz - add, n - m);
      PageStep(v, add, m);
      PageStep(physical, add, m);
      ghost var t1 := tables;
      TailNeedKept(old(tables), t1, dir, v0, n);
      ok := MapSmall(sz - add, Add32(physical, add), Add32(v, add), dir);
      if ok {
        AsideTrans(old(tables), t1, tables, dirs, dir);
        LargeStays(t1, tables, dir, v0, m, Wrap(v0 + m), n - m);
        ChainMapped(old(tables), t1, tables, dirs, dir, v0, m, n - m, f0, access);
        TailIsSmall(tables, dir, v0, n);
        MappedWell(old(tables), t1, tables, old(used), dir, v0, n, physical);
        MappedBytes(old(tables), tables, dirs, dir, virt, size, physical, dir == kernelDir);
        if old(Backed()) && FramesReserved(kernelFrames, blocks, f0, n) {
          MappedBacked(old(tables), tables, dirs, dir, v0, n, kernelFrames, blocks, f0, access);
        }
      } else if PageTaken(t1, dir, Wrap(v0 + m), n - m) {
        TakenBefore(old(tables), t1, dirs, dir, v0, m, n);
      }
    }

    /** The 4 MiB loop of `unmap_flexible`. */
    method UnmapLarge(size: Word, virt: Word, dir: nat) returns (ok: bool, add: Word)
      requires Valid() && dir in dirs
      requires virt % 0x40_0000 == 0 && size % 4096 == 0 && size > 0x40_0000
      modifies this`tables
      ensures Valid() && tables.Keys == old(tables.Keys)
      ensures ok ==> add == LargePages(virt / 4096, size / 4096) * 4096
      ensures ok ==> Cleared(old(tables), tables, dirs, dir, virt / 4096, LargePages(virt / 4096, size / 4096))
      ensures ok ==> NoNewLarge(old(tables), tables, dir)
      ensures ok == SlotsUsed(old(tables), dir, virt / 4096, LargePages(virt / 4096, size / 4096))
      ensures ok ==> OtherSlots(old(tables), tables, dir, virt / 4096, LargePages(virt / 4096, size / 4096))
      ensures ok ==> Aside(old(tables), tables, dirs, dir)
    {
      hide Sound, Outside, Unmapped, SlotsUsed, OtherSlots, Aside, NoNewLarge, HeapOk, KernelHeld, ListOk, Usable,
           LargePages, Wrap, Off;
      AsideSame(tables, dirs, dir);
      var sz: int := size;
      add := 0;
      ok := true;
      ghost var v0, c, n := virt / 4096, 0, size / 4096;
      SlotStep(virt, 0, 0);
      NothingCleared(tables, dirs, dir, v0);
      AllSlotsSame(tables, dir, v0);
      SameLarge(tables, dir);
      NothingToClear(tables, dir, v0);
      while sz > 0x40_0000
        invariant 0 <= c && add == c * 0x40_0000 && c * 1024 < n && sz == (n - c * 1024) * 4096
        invariant Valid() && tables.Keys == old(tables.Keys) && ok
        invariant Cleared(old(tables), tables, dirs, dir, v0, c * 1024)
        invariant OtherSlots(old(tables), tables, dir, v0, c * 1024) && Aside(old(tables), tables, dirs, dir)
        invariant SlotsUsed(old(tables), dir, v0, c * 1024)
        invariant NoNewLarge(old(tables), tables, dir)
        decreases n - c * 1024
      {
        SlotStep(virt, add, c);
        LargeCount(v0, n, c);
        ghost var t1 := tables;
        NextSlotUsed(old(tables), t1, dir, v0, c, LargePages(v0, n));
        ok := UnmapPageTable(Add32(virt, add), dir);
        if !ok {
          return;
        }
        ChainUnmapped(old(tables), t1, tables, dirs, dir, v0, c * 1024, 1024);
        NextOtherSlots(old(tables), t1, tables, dir, v0, c);
        AsideTrans(old(tables), t1, tables, dirs, dir);
        SlotCleared(old(tables), t1, tables, dir, Add32(virt, add) / 0x40_0000);
        sz := sz - 0x40_0000;
        add := add + 0x40_0000;
        c := c + 1;
      }
      LargeCount(v0, n, c);
    }

    /** The 4 KiB loop of `unmap_flexible`. */
    method UnmapSmall(size: Word, virt: Word, dir: nat) returns (ok: bool)
      requires Valid() && dir in dirs
      requires virt % 4096 == 0 && size % 4096 == 0
      modifies this`tables
      ensures Valid() && tables.Keys == old(tables.Keys)
      ensures ok ==> Cleared(old(tables), tables, dirs, dir, virt / 4096, size / 4096)
      ensures ok == Clearable(old(tables), dir, virt / 4096, size / 4096)
      ensures SameDirs(old(tables), tables, dirs) && Aside(old(tables), tables, dirs, dir)
    {
      hide Sound, Outside, Unmapped, Clearable, Aside, HeapOk, KernelHeld, ListOk, Usable;
      AsideSame(tables, dirs, dir);
      var sz: int, add: int := size, 0;
      ok := true;
      ghost var v0, m, n := virt / 4096, 0, size / 4096;
      NothingCleared(tables, dirs, dir, v0);
      NothingToClear(tables, dir, v0);
      while sz != 0
        invariant 0 <= m <= n && add == m * 4096 && sz == (n - m) * 4096
        invariant Valid() && tables.Keys == old(tables.Keys) && ok
        invariant Cleared(old(tables), tables, dirs, dir, v0, m) && Clearable(old(tables), dir, v0, m)
        invariant SameDirs(old(tables), tables, dirs) && Aside(old(tables), tables, dirs, dir)
        decreases n - m
      {
        PageStep(virt, add, m);
        ghost var t1 := tables;
        NextClearable(old(tables), t1, dirs, dir, v0, m, n);
        ok := UnmapPage(Add32(virt, add), dir);
        AsideTrans(old(tables), t1, tables, dirs, dir);
        if !ok {
          return;
        }
        OneCleared(t1, tables, dirs, dir, Wrap(v0 + m));
        ChainUnmapped(old(tables), t1, tables, dirs, dir, v0, m, 1);
        sz := sz - 4096;
        add := add + 4096;
        m := m + 1;
      }
    }

    /** `unmap_flexible`. */
    method UnmapFlexible(size: Word, virt: Word, dir: nat) returns (ok: bool)
      requires Valid() && dir in dirs
      modifies this`tables
      ensures Valid() && tables.Keys == old(tables.Keys)
      ensures ok ==> Cleared(old(tables), tables, dirs, dir, FirstPage(virt), PageCount(size, virt))
      ensures ok == Unmappable(old(tables), dir, FirstPage(virt), PageCount(size, virt))
      ensures ok && size + virt % 4096 <= 0xFFFF_F000 ==> NoBytes(tables, dir, virt, size)
      ensures ok ==> BytesBeyond(old(tables), tables, dir, virt, size)
      ensures ok && old(Backed()) ==> Backed()
      ensures ok ==> OtherSlots(old(tables), tables, dir, FirstPage(virt), LargePages(FirstPage(virt), PageCount(size, virt)))
      ensures ok ==> Aside(old(tables), tables, dirs, dir)
    {
      hide Sound, Outside, Unmapped, SlotsUsed, Clearable, AllBacked, OtherSlots, Aside, HeapOk, KernelHeld,
           ListOk, Add32, AlignUp, AlignDown, PageCount, FirstPage, Usable;
      AsideSame(tables, dirs, dir);
      var v := AlignDown(virt, 4096);
      var sz := AlignUp((size + (virt - v)) % TWO32, 4096);
      var add := 0;
      ghost var v0, n := FirstPage(virt), PageCount(size, virt);
      ghost var m := LargePages(v0, n);
      RangeNumbers(size, virt);
      NothingCleared(tables, dirs, dir, v0);
      AllSlotsSame(tables, dir, v0);
      NothingToClear(tables, dir, v0);
      if v % 0x40_0000 == 0 && sz > 0x40_0000 {
        ok, add := UnmapLarge(sz, v, dir);
        if !ok {
          return;
        }
      }
      assert add == m * 4096;
      PagesIn(sz - add, n - m);
      PageStep(v, add, m);
      ghost var t1 := tables;
      TailClearable(old(tables), t1, dirs, dir, v0, n);
      ok := UnmapSmall(sz - add, Add32(v, add), dir);
      if ok {
        AsideTrans(old(tables), t1, tables, dirs, dir);
        OtherSlotsSame(old(tables), t1, tables, dirs, dir, v0, m);
        ChainUnmapped(old(tables), t1, tables, dirs, dir, v0, m, n - m);
        ClearedBytes(old(tables), tables, dirs, dir, virt, size);
        if old(Backed()) {
          ClearedBacked(old(tables), tables, dirs, dir, v0, n, kernelFrames, blocks);
        }
      }
    }

    /** `unmap_flexible` after a successful `map_flexible` of the same range cannot fail, and brings
        the whole translation of every directory back. */
    method MapThenUnmap(size: Word, physical: Word, virt: Word, dir: nat) returns (mapped: bool, unmapped: bool)
      requires Valid() && dir in dirs
      modifies this`tables, this`used
      ensures Valid()
      ensures mapped == Mappable(old(tables), old(used), dir, physical, FirstPage(virt), PageCount(size, virt))
      ensures unmapped == mapped
      ensures unmapped ==> forall d, p :: d in dirs && 0 <= p < PAGES ==> Lookup(tables, d, p) == Lookup(old(tables), d, p)
    {
      hide Lookup, Sound, Aside, SlotsKept, OtherSlots, Enough, SlotTaken, Misaligned, PageTaken, HeapOk, KernelHeld, ListOk, Usable;
      unmapped := false;
      mapped := MapFlexible(size, physical, virt, dir);
      if mapped {
        ghost var t1, v, n := tables, FirstPage(virt), PageCount(size, virt);
        MappedUnmappable(t1, dir, v, n);
        unmapped := UnmapFlexible(size, virt, dir);
        forall d, p | d in dirs && 0 <= p < PAGES
          ensures Lookup(tables, d, p) == Lookup(old(tables), d, p)
        {
          if d != dir {
            RoundTrip(old(tables), t1, tables, dirs, dir, v, n, d, p);
          } else if Off(p, v) >= n {
            assert Lookup(t1, d, p) == Lookup(old(tables), d, p);
          }
        }
      }
    }

    /** `is_mapped`. */
    method IsMapped(virt: Word, dir: nat) returns (r: bool)
      requires Valid() && dir in dirs
      ensures r == Lookup(tables, dir, virt / 4096).Some?
    {
      var i, j := virt / 0x40_0000, virt / 4096 % 1024;
      assert i == virt / 4096 / 1024;
      var e := Entry(tables, dir, i);
      r := e != 0 && (Large(e) || Entry(tables, FrameOf(e), j) != 0);
    }

    /** `get_physical` of an address outside 4 MiB pages; 0 when it is not mapped. */
    method GetPhysical(virt: Word, dir: nat) returns (r: int)
      requires Valid() && dir in dirs && !LargeAt(tables, dir, virt / 4096)
      ensures match Lookup(tables, dir, virt / 4096)
              case None => r == 0
              case Some(l) => r == l.frame * 4096 + virt % 4096
    {
      var i, j := virt / 0x40_0000, virt / 4096 % 1024;
      assert i == virt / 4096 / 1024;
      var e := Entry(tables, dir, i);
      if e == 0 {
        return 0;
      }
      var page := Entry(tables, FrameOf(e), j);
      r := if page != 0 then page / 4096 * 4096 + virt % 4096 else 0;
    }

    /** `reserve_block`: first fit, with a list node from the kernel heap. None: it does not return, be it for
        the fatal "more physical memory than available" or because the heap has no block for the node (then
        kmalloc calls kheap_expand, and that reserve_block again, with nothing changed). */
    method ReserveBlock(size: Word, kind: int) returns (r: Option<Word>)
      requires ListOk(blocks) && HeapOk(heap) && kind != FREE
      modifies this`blocks, this`heap
      ensures ListOk(blocks) && HeapOk(heap)
      ensures r.Some? == (Room(old(blocks), AlignUp(size, 4096)) && HeapFits(old(heap), NODE))
      ensures r.None? ==> blocks == old(blocks) && heap == old(heap)
      ensures r.Some? ==> Reserved(old(blocks), blocks, r.value, AlignUp(size, 4096))
      ensures r.Some? ==> CarvedFirst(old(blocks), blocks, r.value, AlignUp(size, 4096), kind)
      ensures r.Some? ==> heap == HeapTake(old(heap), NODE)
      ensures r.Some? ==> exists n: int :: PageRounded(n, size) && PBlock(r.value, n, kind) in blocks
                                           && Reserved(old(blocks), blocks, r.value, n)
      ensures r.Some? ==> 0x10_0000 <= r.value && LowKept(old(blocks), blocks)
    {
      hide ListOk, FrameFree, HeapOk, HeapTake, HeapFits, KernelHeld, Usable;
      var sz := AlignUp(size, 4096);
      var k := 0;
      while k < |blocks|
        invariant 0 <= k <= |blocks| && blocks == old(blocks) && heap == old(heap)
        invariant forall i :: 0 <= i < k ==> !Fits(blocks[i], sz)
      {
        if Fits(blocks[k], sz) {
          if !HeapFits(heap, NODE) {
            return None;
          }
          NodeTaken(heap);
          heap := HeapTake(heap, NODE);
          CarveSorted(blocks, k, sz, kind);
          CarveReserves(blocks, k, sz, kind);
          assert FirstFit(blocks, sz) == k;
          r := Some(blocks[k].base);
          blocks := Carve(blocks, k, sz, kind);
          RoundsToPages(size);
          assert blocks[k] == PBlock(r.value, sz, kind);
          LowUntouched(old(blocks), blocks, r.value, sz);
          return;
        }
        k := k + 1;
      }
      return None;
    }

    /** `map_memory`: fresh frames for the pages of the range. */
    method MapMemory(size: Word, virt: Word, dir: nat) returns (ok: bool, ghost first: nat)
      requires Valid() && dir in dirs
      modifies this`tables, this`used, this`blocks, this`heap
      ensures Valid() && tables.Keys == old(tables.Keys)
      ensures ok ==> first + PageCount(size, virt) <= PAGES
      ensures ok ==> Progress(old(tables), tables, dirs, dir, FirstPage(virt), PageCount(size, virt),
                              first, Access(dir == kernelDir))
      ensures ok ==> Opened(tables, dir, FirstPage(virt), PageCount(size, virt), dir != kernelDir)
      ensures ok && size + virt % 4096 <= 0xFFFF_F000 ==> BytesAt(tables, dir, virt, size, first * 4096)
      ensures ok ==> BytesBeyond(old(tables), tables, dir, virt, size)
      ensures ok ==> 0x100 <= first && LowKept(old(blocks), blocks)
      ensures ok ==> Taken(old(blocks), blocks, first, PageCount(size, virt))
      ensures ok ==> CarvedFirst(old(blocks), blocks, first * 4096, PageCount(size, virt) * 4096,
                                 if dir == kernelDir then KERNELF else USER)
      ensures ok ==> HeapFits(old(heap), NODE) && heap == HeapTake(old(heap), NODE)
      ensures ok && old(Backed()) ==> Backed()
      ensures ok == (Room(old(blocks), PageCount(size, virt) * 4096) && HeapFits(old(heap), NODE)
                     && Mappable(old(tables), old(used), dir, FitBase(old(blocks), PageCount(size, virt) * 4096),
                                 FirstPage(virt), PageCount(size, virt)))
      ensures !Room(old(blocks), PageCount(size, virt) * 4096) || !HeapFits(old(heap), NODE) ==>
                blocks == old(blocks) && heap == old(heap)
      ensures !ok && Room(old(blocks), PageCount(size, virt) * 4096) && HeapFits(old(heap), NODE) ==>
                HeapFull() || Occupied(old(tables), dir, FirstPage(virt), PageCount(size, virt))
                || Misaligned(FitBase(old(blocks), PageCount(size, virt) * 4096), FirstPage(virt), PageCount(size, virt))
      ensures ok ==> |FreeSet(used)| == |FreeSet(old(used))| - |TailNeed(old(tables), dir, FirstPage(virt), PageCount(size, virt))|
      ensures ok ==> Aside(old(tables), tables, dirs, dir) && SlotsKept(old(tables), tables, dir)
      ensures ok ==> UntouchedSame(old(tables), tables, dir, FirstPage(virt), PageCount(size, virt))
      ensures ok ==> LargeHead(tables, dir, FirstPage(virt), LargePages(FirstPage(virt), PageCount(size, virt)))
      ensures ok ==> SmallTail(tables, dir, FirstPage(virt), PageCount(size, virt))
      ensures ok && LargePages(FirstPage(virt), PageCount(size, virt)) == 0 ==>
                FilledTo(old(tables), tables, dir, FirstPage(virt), PageCount(size, virt))
    {
      hide Sound, Outside, MappedTo, Unmapped, Small, SmallTail, PageTaken, SlotTaken, ListOk, FrameFree, Occupied, LargeHead,
           UntouchedSame,
           AllBacked, FramesReserved, Taken, Misaligned, Enough, TailNeed, FilledTo, SlotsKept, Aside, FreeSet,
           KernelHeld, HeapOk, HeapFits, HeapTake, Usable;
      var v := AlignDown(virt, 4096);
      var sz := AlignUp((size + (virt - v)) % TWO32, 4096);
      assert sz == PageCount(size, virt) * 4096 && AlignUp(sz, 4096) == sz;
      assert FirstPage(v) == FirstPage(virt) && PageCount(sz, v) == PageCount(size, virt);
      var phys := ReserveBlock(sz, if dir == kernelDir then KERNELF else USER);
      if phys.None? {
        return false, 0;
      }
      first := phys.value / 4096;
      ReservedFrames(old(blocks), blocks, phys.value, PageCount(size, virt));
      KernelStaysHeld(kernelFrames, old(blocks), blocks, phys.value, sz);
      ok := MapFlexible(sz, phys.value, v, dir);
      if ok {
        MappedBytes(old(tables), tables, dirs, dir, virt, size, phys.value, dir == kernelDir);
      }
      if ok && old(Backed()) {
        TakenBacked(old(tables), tables, dirs, dir, FirstPage(virt), PageCount(size, virt), kernelFrames, old(blocks), blocks,
                    first, Access(dir == kernelDir));
      }
    }
  }

  // ---------------------------------------------------------------- boot

  /** Every directory has the pages of the kernel heap, up to `end`, in frames of the kernel, and different pages in
      different frames. Different directories may have the same page in different frames. */
  ghost predicate HeapViewed(t: Tables, dirs: set<nat>, end: int, kf: set<nat>) {
    && (forall d, p :: d in dirs && HEAP_PAGE <= p < end / 4096 ==> Lookup(t, d, p).Some? && Lookup(t, d, p).value.frame in kf)
    && (forall d, e, p, q :: d in dirs && e in dirs && HEAP_PAGE <= p < q < end / 4096 ==> Elsewhere(t, d, p, e, q))
  }

  /** Page `p` of `d` and page `q` of `e` are not in the same frame. */
  ghost predicate Elsewhere(t: Tables, d: nat, p: nat, e: nat, q: nat) {
    Lookup(t, d, p).Some? && Lookup(t, e, q).Some? ==> Lookup(t, d, p).value.frame != Lookup(t, e, q).value.frame
  }

  /** `d` and `e` see the kernel heap, up to `end`, in the same frames. */
  ghost predicate HeapAlike(t: Tables, d: nat, e: nat, end: int) {
    forall p :: HEAP_PAGE <= p < end / 4096 ==> Lookup(t, d, p) == Lookup(t, e, p)
  }

  /** A table over the 1024 frames from `first`, as boot fills it. */
  function BootTable(first: nat): (w: seq<Word>)
    requires first + 1024 <= PAGES
    ensures |w| == 1024
  {
    seq(1024, i requires 0 <= i < 1024 => (first + i) * 4096 + 3)
  }

  /** The page directory of the kernel, its three tables and the page heap. `kernel`, `low`, `pages` and `heap`
      are the frames of kernel_page_directory, kernel_page_table, kpheap_page_table and kheap_page_table. */
  function BootTables(kernel: nat, low: nat, pages: nat, heap: nat): Tables
    requires low < 0x400 && pages < 0x400 && heap < 0x400
  {
    PageHeap(HEAP_FRAME)[kernel := BootDir(low, pages, heap)]
    [low := BootTable(0)][pages := BootTable(HEAP_FRAME)][heap := BootTable(0x800)]
  }

  predicate InChunk(f: nat, first: nat) {
    first <= f < first + 1024
  }

  function PageHeap(first: nat): Tables {
    map f: nat | f < first + 1024 && InChunk(f, first) :: Zeros()
  }

  function BootDir(low: nat, pages: nat, heap: nat): (dir: seq<Word>)
    requires low < 0x400 && pages < 0x400 && heap < 0x400
    ensures |dir| == 1024
  {
    Zeros()[768 := low * 4096 + 3][769 := pages * 4096 + 3][770 := heap * 4096 + 3]
  }

  /** The kernel image, the page heap and the kernel heap lie in frames 0x100 to 0xBFF. */
  predicate KernelFrame(f: nat) {
    0x100 <= f < 0xC00
  }

  ghost predicate BootFrames(kernel: nat, low: nat, pages: nat, heap: nat) {
    && 0x100 <= kernel < 0x400 && 0x100 <= low < 0x400 && 0x100 <= pages < 0x400 && 0x100 <= heap < 0x400
    && kernel != low && kernel != pages && kernel != heap && low != pages && low != heap && pages != heap
  }

  lemma BootWord(f: nat)
    requires f < PAGES
    ensures 0 <= f * 4096 + 3 < TWO32 && IsTable(f * 4096 + 3) && FrameOf(f * 4096 + 3) == f
    ensures PteLeaf(f * 4096 + 3) == Some(Leaf(f, 3))
  {
    var w, h := f * 4096 + 3, f * 16;
    DivideBy(w, 128, 2 * h, 3);
    DivideBy(w, 4096, f, 3);
    DivideBy(2 * h, 2, h, 0);
  }

  function BootEntry(low: nat, pages: nat, heap: nat, i: nat): int {
    if i == 768 then low * 4096 + 3 else if i == 769 then pages * 4096 + 3 else if i == 770 then heap * 4096 + 3 else 0
  }

  lemma BootEntries(kernel: nat, low: nat, pages: nat, heap: nat)
    requires BootFrames(kernel, low, pages, heap)
    ensures var t := BootTables(kernel, low, pages, heap);
            && (forall f :: f in t ==> |t[f]| == 1024)
            && (forall f :: f in t <==> HEAP_FRAME <= f < HEAP_FRAME + 1024 || f == kernel || f == low || f == pages || f == heap)
            && (forall i :: 0 <= i < 1024 ==> Entry(t, kernel, i) == BootEntry(low, pages, heap, i))
            && (forall j :: 0 <= j < 1024 ==> Entry(t, heap, j) == (0x800 + j) * 4096 + 3)
            && (forall j :: 0 <= j < 1024 ==> Entry(t, low, j) == j * 4096 + 3)
            && (forall j :: 0 <= j < 1024 ==> Entry(t, pages, j) == (0x400 + j) * 4096 + 3)
  {
  }

  lemma BootSound(kernel: nat, low: nat, pages: nat, heap: nat)
    requires BootFrames(kernel, low, pages, heap)
    ensures Sound(BootTables(kernel, low, pages, heap), {kernel}, seq(1024, _ => false))
  {
    hide BootTables, IsTable, FrameOf;
    var t, used := BootTables(kernel, low, pages, heap), seq(1024, _ => false);
    BootEntries(kernel, low, pages, heap);
    BootWord(low);
    BootWord(pages);
    BootWord(heap);
    ZeroNoTable();
    forall d, i | d in {kernel} && 0 <= i < 1024
      ensures TableLive(t, {kernel}, used, Entry(t, d, i))
    {
    }
  }

  lemma ZeroNoTable()
    ensures !IsTable(0)
  {
  }

  lemma BootHeapPage(kernel: nat, low: nat, pages: nat, heap: nat, p: nat)
    requires BootFrames(kernel, low, pages, heap) && HEAP_PAGE <= p < HEAP_PAGE + 1024
    ensures Lookup(BootTables(kernel, low, pages, heap), kernel, p) == Some(Leaf(0x800 + (p - HEAP_PAGE), 3))
  {
    hide BootTables, IsTable, FrameOf, PteLeaf;
    BootEntries(kernel, low, pages, heap);
    BootWord(heap);
    BootWord(0x800 + (p - HEAP_PAGE));
    DivideBy(p, 1024, 770, p - HEAP_PAGE);
    TableIsNot(heap * 4096 + 3);
  }

  /** The kernel half after boot: page 0xC0000 + k is frame k up to the end of the heap, the rest is empty. */
  lemma BootPages(kernel: nat, low: nat, pages: nat, heap: nat)
    requires BootFrames(kernel, low, pages, heap)
    ensures var t := BootTables(kernel, low, pages, heap);
            && (forall p :: 0xC_0000 <= p < 0xC_0C00 ==> Lookup(t, kernel, p) == Some(Leaf(p - 0xC_0000, 3)))
            && (forall p :: 0xC_0C00 <= p < PAGES ==> Lookup(t, kernel, p) == None)
  {
    hide BootTables, IsTable, FrameOf, PteLeaf;
    BootEntries(kernel, low, pages, heap);
    var t := BootTables(kernel, low, pages, heap);
    forall p | 0xC_0000 <= p < 0xC_0C00
      ensures Lookup(t, kernel, p) == Some(Leaf(p - 0xC_0000, 3))
    {
      var i := (p - 0xC_0000) / 1024;
      BootWord(if i == 0 then low else if i == 1 then pages else heap);
      TableIsNot((if i == 0 then low else if i == 1 then pages else heap) * 4096 + 3);
      BootWord(p - 0xC_0000);
      DivideBy(p, 1024, 768 + i, (p - 0xC_0000) % 1024);
    }
  }

  lemma BootUsable(kernel: nat, low: nat, pages: nat, heap: nat)
    requires BootFrames(kernel, low, pages, heap)
    ensures Usable(BootTables(kernel, low, pages, heap), {kernel}, kernel)
  {
    hide BootTables, Grants;
    BootEntries(kernel, low, pages, heap);
  }

  ghost function BootKernelFrames(): set<nat> {
    set f: nat | f < 0xC00 && KernelFrame(f)
  }

  lemma BootHeapViewed(kernel: nat, low: nat, pages: nat, heap: nat, h: HeapState)
    requires BootFrames(kernel, low, pages, heap) && HeapOk(h) && BootSize(h)
    ensures HeapViewed(BootTables(kernel, low, pages, heap), {kernel}, h.end, BootKernelFrames())
  {
    hide BootTables, Lookup, HeapOk;
    HeapPages(h);
    forall p | HEAP_PAGE <= p < HEAP_PAGE + 1024
      ensures Lookup(BootTables(kernel, low, pages, heap), kernel, p) == Some(Leaf(0x800 + (p - HEAP_PAGE), 3))
    {
      BootHeapPage(kernel, low, pages, heap, p);
    }
  }

  lemma BootUser(kernel: nat, low: nat, pages: nat, heap: nat, bs: seq<PBlock>)
    requires BootFrames(kernel, low, pages, heap) && forall f :: 0x100 <= f < 0xC00 ==> !FrameFree(bs, f)
    ensures BootTables(kernel, low, pages, heap).Keys <= BootKernelFrames() && KernelHeld(BootKernelFrames(), bs)
    ensures forall p :: 0 <= p < USER_PAGES ==> Lookup(BootTables(kernel, low, pages, heap), kernel, p) == None
    ensures AllBacked(BootTables(kernel, low, pages, heap), {kernel}, BootKernelFrames(), bs)
  {
    hide BootTables, FrameFree;
    BootEntries(kernel, low, pages, heap);
  }

  lemma BootTop(kernel: nat, low: nat, pages: nat, heap: nat)
    requires BootFrames(kernel, low, pages, heap)
    ensures forall i :: 771 <= i < 1024 ==> Entry(BootTables(kernel, low, pages, heap), kernel, i) == 0
  {
    hide BootTables;
    BootEntries(kernel, low, pages, heap);
  }

  lemma {:induction false} AllFrames(n: nat)
    ensures |FreeSet(seq(n, _ => false))| == n
    decreases n
  {
    if n > 0 {
      AllFrames(n - 1);
      assert FreeSet(seq(n, _ => false)) == FreeSet(seq(n - 1, _ => false)) + {n - 1};
    }
  }

  lemma TableIsNot(e: Word)
    requires IsTable(e)
    ensures e != 0 && !Large(e)
  {
  }

  lemma NodeTaken(h: HeapState)
    requires HeapOk(h) && HeapFits(h, NODE)
    ensures HeapOk(HeapTake(h, NODE)) && HeapTake(h, NODE).end == h.end
  {
    TakeAdds(h, NODE);
  }
}
