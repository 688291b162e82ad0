/** 32-bit page tables as words in page frames (section 4.3 of the Intel SDM, volume 3A),
    and the invariant that keeps the tables of different directories apart. */
module PageTables {
  import opened Machine

  const PAGES := 0x10_0000       // pages in the 4 GiB address space
  const USER_PAGES := 0xC_0000   // pages below KERNEL_VIRTUAL_BASE
  const KERNEL_SLOT := 768       // first directory slot of the kernel half
  const HEAP_FRAME := 0x400      // first frame of the page heap (KPHEAP_VIRT_BASE - KERNEL_VIRTUAL_BASE)

  /** Every directory or table: 1024 words, indexed by the frame that holds it. */
  type Tables = map<nat, seq<Word>>

  /** What a page is mapped to: a frame, and the flag bits without the page-size bit. */
  datatype Leaf = Leaf(frame: nat, access: int)

  /** Bit 7 of a directory word: the word maps 4 MiB instead of naming a table. */
  predicate Large(e: Word) {
    e / 128 % 2 == 1
  }

  predicate IsTable(e: Word) {
    e != 0 && !Large(e)
  }

  function FrameOf(e: Word): nat {
    e / 4096
  }

  function Entry(t: Tables, f: nat, i: nat): Word {
    if f in t && i < |t[f]| then t[f][i] else 0
  }

  function PteLeaf(w: Word): Option<Leaf> {
    if w == 0 then None else Some(Leaf(w / 4096, w % 4096))
  }

  function LargeLeaf(e: Word, j: nat): Option<Leaf>
    requires Large(e)
  {
    Some(Leaf(e / 0x40_0000 * 1024 + j, e % 4096 - 128))
  }

  /** The walk of the processor: slot `i` of directory `d`, then slot `j` of its table. */
  function Walk(t: Tables, d: nat, i: nat, j: nat): Option<Leaf> {
    var e := Entry(t, d, i);
    if e == 0 then None
    else if Large(e) then LargeLeaf(e, j)
    else PteLeaf(Entry(t, FrameOf(e), j))
  }

  /** The translation of page `p` in directory `d`. */
  function Lookup(t: Tables, d: nat, p: nat): Option<Leaf> {
    Walk(t, d, p / 1024, p % 1024)
  }

  lemma FrameBound(t: Tables, d: nat, p: nat)
    ensures Lookup(t, d, p).Some? ==> Lookup(t, d, p).value.frame < PAGES
  {
    var e := Entry(t, d, p / 1024);
    assert e / 0x40_0000 < 1024;
  }

  /** Page-heap frame `f` is marked free in `kpheap_blocks`. */
  predicate FreeFrame(used: seq<bool>, f: nat) {
    HEAP_FRAME <= f < HEAP_FRAME + |used| && !used[f - HEAP_FRAME]
  }

  /** A table frame sits in one slot number only, and below the kernel half in one directory only. */
  ghost predicate Unshared(t: Tables, dirs: set<nat>) {
    forall d, d', i, i' :: d in dirs && d' in dirs && 0 <= i < 1024 && 0 <= i' < 1024
      && IsTable(Entry(t, d, i)) && IsTable(Entry(t, d', i'))
      && FrameOf(Entry(t, d, i)) == FrameOf(Entry(t, d', i'))
      ==> i == i' && (d == d' || i >= KERNEL_SLOT)
  }

  /** The table named by slot `i` of `d` is a live frame that is no directory. */
  ghost predicate TableLive(t: Tables, dirs: set<nat>, used: seq<bool>, e: Word) {
    IsTable(e) ==> FrameOf(e) in t && FrameOf(e) !in dirs && !FreeFrame(used, FrameOf(e))
  }

  ghost predicate Sound(t: Tables, dirs: set<nat>, used: seq<bool>) {
    && |used| == 1024
    && (forall f :: f in t ==> |t[f]| == 1024)
    && (forall f :: HEAP_FRAME <= f < HEAP_FRAME + 1024 ==> f in t)
    && (forall d :: d in dirs ==> d in t && !FreeFrame(used, d))
    && (forall d, i :: d in dirs && 0 <= i < 1024 ==> TableLive(t, dirs, used, Entry(t, d, i)))
    && Unshared(t, dirs)
  }

  /** `phys | flags` for an aligned address: flags fill the low bits. */
  lemma FlagsFit(phys: Word, flags: nat)
    requires phys % 4096 == 0 && flags < 4096
    ensures 0 <= phys + flags < TWO32
    ensures (phys + flags) / 4096 == phys / 4096 && (phys + flags) % 4096 == flags
  {
  }

  lemma LargeBit(q: nat, low: int)
    requires low == 135 || low == 387
    ensures (q * 0x40_0000 + low) / 128 % 2 == 1 && (q * 0x40_0000 + low) / 0x40_0000 == q
    ensures (q * 0x40_0000 + low) % 4096 == low
  {
    var w := q * 0x40_0000 + low;
    var h := q * 0x4000;
    assert low / 128 == 1 || low / 128 == 3;
    DivideBy(w, 128, 2 * h + low / 128, low % 128);
    assert (2 * h + low / 128) % 2 == 1;
    DivideBy(w, 0x40_0000, q, low);
    DivideBy(w, 4096, q * 1024, low);
  }

  /** `phys | 135` or `phys | 387`: a 4 MiB word over the 1024 frames from `phys`. */
  lemma LargeFlagsFit(phys: Word, access: nat, j: nat)
    requires phys % 0x40_0000 == 0 && (access == 7 || access == 259) && j < 1024
    ensures 0 <= phys + access + 128 < TWO32
    ensures Large(phys + access + 128)
    ensures LargeLeaf(phys + access + 128, j) == Some(Leaf(phys / 4096 + j, access))
    ensures phys / 4096 + j < PAGES
  {
    var q := phys / 0x40_0000;
    assert phys == q * 0x40_0000 && q < 1024 && phys / 4096 == q * 1024;
    LargeBit(q, access + 128);
  }

  function SetWord(t: Tables, f: nat, i: nat, w: Word): Tables
    requires f in t && i < |t[f]|
  {
    var words: seq<Word> := t[f][i := w];
    t[f := words]
  }

  /** The words of a cleared frame. */
  function Zeros(): (w: seq<Word>)
    ensures |w| == 1024 && forall i :: 0 <= i < 1024 ==> w[i] == 0
  {
    seq(1024, i requires 0 <= i < 1024 => 0)
  }

  /** Distance of page `p` from page `v`, going upwards and round the end of the address space. */
  function Off(p: int, v: int): int {
    if p >= v then p - v else p - v + PAGES
  }

  function Wrap(p: int): int {
    if p >= PAGES then p - PAGES else p
  }

  ghost predicate OtherDirs(t: Tables, t': Tables, dirs: set<nat>, dir: nat) {
    forall d, i :: d in dirs && d != dir && 0 <= i < 1024 ==> Entry(t', d, i) == Entry(t, d, i)
  }

  /** The words of the other directories stay. No page outside the `n` pages from `v` moves in any directory; inside, the user half
      of the other directories does not move either. */
  ghost predicate Outside(t: Tables, t': Tables, dirs: set<nat>, dir: nat, v: nat, n: nat) {
    && (forall d, p :: d in dirs && 0 <= p < PAGES && (Off(p, v) >= n || (d != dir && p < USER_PAGES))
          ==> Lookup(t', d, p) == Lookup(t, d, p))
    && OtherDirs(t, t', dirs, dir)
  }

  ghost predicate SameDirs(t: Tables, t': Tables, dirs: set<nat>) {
    t'.Keys == t.Keys && forall d, i :: d in dirs && 0 <= i < 1024 ==> Entry(t', d, i) == Entry(t, d, i)
  }

  /** Writing one word of the table in slot `v / 1024` moves page `v` alone. */
  lemma SetPte(t: Tables, dirs: set<nat>, used: seq<bool>, d: nat, v: nat, w: Word)
    requires Sound(t, dirs, used) && d in dirs && v < PAGES
    requires IsTable(Entry(t, d, v / 1024))
    ensures FrameOf(Entry(t, d, v / 1024)) in t
    ensures var t' := SetWord(t, FrameOf(Entry(t, d, v / 1024)), v % 1024, w);
            Sound(t', dirs, used) && Outside(t, t', dirs, d, v, 1) && Lookup(t', d, v) == PteLeaf(w)
            && SameDirs(t, t', dirs)
  {
    var i, j := v / 1024, v % 1024;
    var e := Entry(t, d, i);
    var f := FrameOf(e);
    assert TableLive(t, dirs, used, e);
    var t' := SetWord(t, f, j, w);
    assert SameDirs(t, t', dirs);
    forall d2, p | d2 in dirs && 0 <= p < PAGES && (Off(p, v) >= 1 || (d2 != d && p < USER_PAGES))
      ensures Lookup(t', d2, p) == Lookup(t, d2, p)
    {
      var i2, j2 := p / 1024, p % 1024;
      var e2 := Entry(t, d2, i2);
      assert Entry(t', d2, i2) == e2;
      if IsTable(e2) && FrameOf(e2) == f {
        assert i2 == i && j2 != j;
      }
    }
  }

  /** Pages of directory slot `i`. */
  predicate InSlot(p: nat, i: nat) {
    p / 1024 == i
  }

  /** Writing 0 or a 4 MiB word into a directory moves the pages of that slot alone. */
  lemma SetPde(t: Tables, dirs: set<nat>, used: seq<bool>, d: nat, i: nat, e: Word)
    requires Sound(t, dirs, used) && d in dirs && i < 1024 && !IsTable(e)
    ensures var t' := SetWord(t, d, i, e);
            && Sound(t', dirs, used)
            && (forall d2, p :: d2 in dirs && 0 <= p < PAGES && !(d2 == d && InSlot(p, i)) ==>
                  Lookup(t', d2, p) == Lookup(t, d2, p))
            && t'.Keys == t.Keys && OtherDirs(t, t', dirs, d)
            && (forall i2 :: 0 <= i2 < 1024 && i2 != i ==> Entry(t', d, i2) == Entry(t, d, i2))
            && (forall p :: 0 <= p < PAGES && InSlot(p, i) ==>
                  Lookup(t', d, p) == if e == 0 then None else LargeLeaf(e, p % 1024))
  {
    var t' := SetWord(t, d, i, e);
    assert forall d2, i2 :: d2 in dirs && 0 <= i2 < 1024 ==>
      Entry(t', d2, i2) == if d2 == d && i2 == i then e else Entry(t, d2, i2);
    forall d2, i2 | d2 in dirs && 0 <= i2 < 1024
      ensures TableLive(t', dirs, used, Entry(t', d2, i2))
    {
      assert TableLive(t, dirs, used, Entry(t, d2, i2));
    }
    forall d2, p | d2 in dirs && 0 <= p < PAGES && !(d2 == d && InSlot(p, i))
      ensures Lookup(t', d2, p) == Lookup(t, d2, p)
    {
      assert TableLive(t, dirs, used, Entry(t, d2, p / 1024));
    }
  }

  lemma TableWord(f: nat, flags: nat)
    requires f < PAGES && (flags == 7 || flags == 259)
    ensures 0 <= f * 4096 + flags < TWO32
    ensures IsTable(f * 4096 + flags) && FrameOf(f * 4096 + flags) == f
  {
    var w := f * 4096 + flags;
    var h := f * 16;
    assert flags / 128 == 0 || flags / 128 == 2;
    DivideBy(w, 128, 2 * h + flags / 128, flags % 128);
    DivideBy(w, 4096, f, flags);
    DivideBy(w / 128, 2, h + flags / 256, 0);
    DivideBy(w, 2, 2048 * f + flags / 2, 1);
  }

  /** Hanging a zeroed, previously free page-heap frame into an empty slot changes no translation. */
  lemma NewTable(t: Tables, dirs: set<nat>, used: seq<bool>, d: nat, i: nat, f: nat, flags: nat)
    requires Sound(t, dirs, used) && d in dirs && i < 1024
    requires FreeFrame(used, f) && Entry(t, d, i) == 0
    requires flags == 7 || flags == 259
    ensures var e: Word := f * 4096 + flags;
            var t' := SetWord(t[f := Zeros()], d, i, e);
            && IsTable(e) && FrameOf(e) == f && Entry(t', d, i) == e && OtherDirs(t, t', dirs, d)
            && Sound(t', dirs, used[f - HEAP_FRAME := true])
            && (forall d2, p :: d2 in dirs && 0 <= p < PAGES ==> Lookup(t', d2, p) == Lookup(t, d2, p))
  {
    TableWord(f, flags);
    hide IsTable, FrameOf;
    var e: Word := f * 4096 + flags;
    var t' := SetWord(t[f := Zeros()], d, i, e);
    var used' := used[f - HEAP_FRAME := true];
    assert d != f;
    assert forall d2, i2 :: d2 in dirs && 0 <= i2 < 1024 ==>
      Entry(t', d2, i2) == if d2 == d && i2 == i then e else Entry(t, d2, i2);
    forall d2, i2 | d2 in dirs && 0 <= i2 < 1024
      ensures TableLive(t', dirs, used', Entry(t', d2, i2))
    {
      assert TableLive(t, dirs, used, Entry(t, d2, i2));
    }
    forall d1, d2, i1, i2 | d1 in dirs && d2 in dirs && 0 <= i1 < 1024 && 0 <= i2 < 1024
      && IsTable(Entry(t', d1, i1)) && IsTable(Entry(t', d2, i2))
      && FrameOf(Entry(t', d1, i1)) == FrameOf(Entry(t', d2, i2))
      ensures i1 == i2 && (d1 == d2 || i1 >= KERNEL_SLOT)
    {
      assert TableLive(t, dirs, used, Entry(t, d1, i1));
      assert TableLive(t, dirs, used, Entry(t, d2, i2));
    }
    forall d2, p | d2 in dirs && 0 <= p < PAGES
      ensures Lookup(t', d2, p) == Lookup(t, d2, p)
    {
      assert TableLive(t, dirs, used, Entry(t, d2, p / 1024));
    }
  }

  // ---------------------------------------------------------------- tables in common

  /** Slot `i` of `d` and of `e` names the same table. */
  predicate SharesTable(t: Tables, d: nat, e: nat, i: nat) {
    IsTable(Entry(t, d, i)) && IsTable(Entry(t, e, i)) && FrameOf(Entry(t, d, i)) == FrameOf(Entry(t, e, i))
  }

  /** Only pages behind tables in common with `dir` may move in other directories, and no table becomes common. */
  ghost predicate Aside(t: Tables, t': Tables, dirs: set<nat>, dir: nat) {
    && (forall d, p :: d in dirs && d != dir && 0 <= p < PAGES && !SharesTable(t, d, dir, p / 1024)
          ==> Lookup(t', d, p) == Lookup(t, d, p))
    && (forall d, i :: d in dirs && d != dir && 0 <= i < 1024 && SharesTable(t', d, dir, i) ==> SharesTable(t, d, dir, i))
  }

  lemma AsideSame(t: Tables, dirs: set<nat>, dir: nat)
    ensures Aside(t, t, dirs, dir)
  {
  }

  lemma AsideTrans(t0: Tables, t1: Tables, t2: Tables, dirs: set<nat>, dir: nat)
    requires Aside(t0, t1, dirs, dir) && Aside(t1, t2, dirs, dir)
    ensures Aside(t0, t2, dirs, dir)
  {
    hide Lookup, SharesTable;
    forall d, p | d in dirs && d != dir && 0 <= p < PAGES && !SharesTable(t0, d, dir, p / 1024)
      ensures Lookup(t2, d, p) == Lookup(t0, d, p)
    {
      assert Lookup(t1, d, p) == Lookup(t0, d, p);
    }
  }

  lemma SharedLookup(t: Tables, d: nat, e: nat, p: nat)
    requires SharesTable(t, d, e, p / 1024)
    ensures Lookup(t, d, p) == Lookup(t, e, p)
  {
  }

  lemma SetPteAside(t: Tables, dirs: set<nat>, used: seq<bool>, d: nat, v: nat, w: Word)
    requires Sound(t, dirs, used) && d in dirs && v < PAGES && IsTable(Entry(t, d, v / 1024))
    requires FrameOf(Entry(t, d, v / 1024)) in t
    ensures Aside(t, SetWord(t, FrameOf(Entry(t, d, v / 1024)), v % 1024, w), dirs, d)
  {
    var i, j := v / 1024, v % 1024;
    var f := FrameOf(Entry(t, d, i));
    assert TableLive(t, dirs, used, Entry(t, d, i));
    var t' := SetWord(t, f, j, w);
    assert forall d2, i2 :: d2 in dirs && 0 <= i2 < 1024 ==> Entry(t', d2, i2) == Entry(t, d2, i2);
    forall d2, p | d2 in dirs && d2 != d && 0 <= p < PAGES && !SharesTable(t, d2, d, p / 1024)
      ensures Lookup(t', d2, p) == Lookup(t, d2, p)
    {
      var e2 := Entry(t, d2, p / 1024);
      assert !(IsTable(e2) && FrameOf(e2) == f);
    }
  }

  lemma SetPdeAside(t: Tables, dirs: set<nat>, used: seq<bool>, d: nat, i: nat, e: Word)
    requires Sound(t, dirs, used) && d in dirs && i < 1024 && !IsTable(e)
    ensures Aside(t, SetWord(t, d, i, e), dirs, d)
  {
    hide Lookup, Unshared, TableLive;
    SetPde(t, dirs, used, d, i, e);
    var t' := SetWord(t, d, i, e);
    assert Entry(t', d, i) == e;
  }

  lemma NewTableAside(t: Tables, dirs: set<nat>, used: seq<bool>, d: nat, i: nat, f: nat, flags: nat)
    requires Sound(t, dirs, used) && d in dirs && i < 1024
    requires FreeFrame(used, f) && Entry(t, d, i) == 0 && (flags == 7 || flags == 259)
    ensures 0 <= f * 4096 + flags < TWO32 && Aside(t, SetWord(t[f := Zeros()], d, i, f * 4096 + flags), dirs, d)
  {
    hide Lookup, Unshared;
    NewTable(t, dirs, used, d, i, f, flags);
    var t' := SetWord(t[f := Zeros()], d, i, f * 4096 + flags);
    forall d2, i2 | d2 in dirs && d2 != d && 0 <= i2 < 1024 && SharesTable(t', d2, d, i2)
      ensures SharesTable(t, d2, d, i2)
    {
      assert Entry(t', d2, i2) == Entry(t, d2, i2);
      assert TableLive(t, dirs, used, Entry(t, d2, i2));
    }
  }

  /** The kernel half of directory `k`, over an empty user half. */
  function KernelHalf(t: Tables, k: nat): (dir: seq<Word>)
    ensures |dir| == 1024
  {
    seq(1024, i requires 0 <= i < 1024 => if i < KERNEL_SLOT then 0 else Entry(t, k, i))
  }

  /** A directory cloned into a free frame joins the others without disturbing them. */
  lemma NewDirectory(t: Tables, dirs: set<nat>, used: seq<bool>, k: nat, f: nat)
    requires Sound(t, dirs, used) && k in dirs && FreeFrame(used, f)
    ensures var t' := t[f := KernelHalf(t, k)];
            && Sound(t', dirs + {f}, used[f - HEAP_FRAME := true])
            && (forall d, p :: d in dirs && 0 <= p < PAGES ==> Lookup(t', d, p) == Lookup(t, d, p))
            && (forall p :: 0 <= p < USER_PAGES ==> Lookup(t', f, p) == None)
            && (forall p :: USER_PAGES <= p < PAGES ==> Lookup(t', f, p) == Lookup(t, k, p))
  {
    var t' := t[f := KernelHalf(t, k)];
    var dirs' := dirs + {f};
    var used' := used[f - HEAP_FRAME := true];
    assert f !in dirs;
    assert forall d, i :: d in dirs && 0 <= i < 1024 ==> Entry(t', d, i) == Entry(t, d, i);
    assert forall i :: 0 <= i < 1024 ==> Entry(t', f, i) == if i < KERNEL_SLOT then 0 else Entry(t, k, i);
    forall d, i | d in dirs' && 0 <= i < 1024
      ensures TableLive(t', dirs', used', Entry(t', d, i))
    {
      assert TableLive(t, dirs, used, Entry(t, if d == f then k else d, i));
    }
    forall d, d', i, i' | d in dirs' && d' in dirs' && 0 <= i < 1024 && 0 <= i' < 1024
      && IsTable(Entry(t', d, i)) && IsTable(Entry(t', d', i'))
      && FrameOf(Entry(t', d, i)) == FrameOf(Entry(t', d', i'))
      ensures i == i' && (d == d' || i >= KERNEL_SLOT)
    {
      var s, s' := if d == f then k else d, if d' == f then k else d';
      assert Entry(t', d, i) == Entry(t, s, i) && Entry(t', d', i') == Entry(t, s', i');
    }
    forall d, p | d in dirs' && 0 <= p < PAGES
      ensures d in dirs ==> Lookup(t', d, p) == Lookup(t, d, p)
      ensures d == f ==> Lookup(t', f, p) == if p < USER_PAGES then None else Lookup(t, k, p)
    {
      assert TableLive(t, dirs, used, Entry(t, if d == f then k else d, p / 1024));
    }
  }

  // ---------------------------------------------------------------- who may use a page

  /** The flag bits of a word (section 4.3 of the Intel SDM, volume 3A, tables 4-4 to 4-6): present, writable, cached without
      write-through, open to user code exactly if `user`, and global exactly if not. */
  predicate Grants(flags: int, user: bool) {
    && flags % 2 == 1 && flags / 2 % 2 == 1 && flags / 8 % 4 == 0
    && (flags / 4 % 2 == 1 <==> user) && (flags / 256 % 2 == 1 <==> !user)
  }

  /** The word lets user code read and write: flags 0, 1 and 2 are set. */
  predicate UserWord(w: Word) {
    var flags := w % 4096;
    flags % 2 == 1 && flags / 2 % 2 == 1 && flags / 4 % 2 == 1
  }

  /** The processor lets user code read and write page `p` of `d`: the directory word says so, and the table word too. */
  predicate UserMay(t: Tables, d: nat, p: nat) {
    var e := Entry(t, d, p / 1024);
    UserWord(e) && (Large(e) || UserWord(Entry(t, FrameOf(e), p % 1024)))
  }

  /** In the user half of every directory each word in use grants access to user code, but for the kernel's own. */
  ghost predicate Usable(t: Tables, dirs: set<nat>, kernel: nat) {
    && (forall d, i :: d in dirs && 0 <= i < KERNEL_SLOT && Entry(t, d, i) != 0 ==> Grants(Entry(t, d, i) % 4096, d != kernel))
    && (forall d, p :: d in dirs && 0 <= p < USER_PAGES && Lookup(t, d, p).Some? ==>
          Grants(Lookup(t, d, p).value.access, d != kernel))
  }

  lemma UserWordIs(w: Word, user: bool)
    requires Grants(w % 4096, user)
    ensures UserWord(w) == user
  {
  }

  /** So a process may use exactly the user pages it has, and user code none through the kernel's directory. */
  lemma UsableMeans(t: Tables, dirs: set<nat>, kernel: nat, d: nat, p: nat)
    requires Usable(t, dirs, kernel) && d in dirs && p < USER_PAGES
    ensures UserMay(t, d, p) <==> Lookup(t, d, p).Some? && d != kernel
  {
    hide Grants, UserWord;
    var e := Entry(t, d, p / 1024);
    ZeroWord();
    if e != 0 {
      UserWordIs(e, d != kernel);
      if !Large(e) {
        var w := Entry(t, FrameOf(e), p % 1024);
        if w != 0 {
          assert Lookup(t, d, p) == Some(Leaf(w / 4096, w % 4096));
          UserWordIs(w, d != kernel);
        }
      }
    }
  }

  lemma ZeroWord()
    ensures !UserWord(0)
  {
  }

  lemma UsablePte(t: Tables, t': Tables, dirs: set<nat>, kernel: nat, dir: nat, v: nat, w: Word)
    requires Usable(t, dirs, kernel) && Outside(t, t', dirs, dir, v, 1) && SameDirs(t, t', dirs) && v < PAGES
    requires Lookup(t', dir, v) == PteLeaf(w) && (w != 0 ==> Grants(w % 4096, dir != kernel))
    ensures Usable(t', dirs, kernel)
  {
    hide Lookup, Grants;
    forall d, p | d in dirs && 0 <= p < USER_PAGES && Lookup(t', d, p).Some?
      ensures Grants(Lookup(t', d, p).value.access, d != kernel)
    {
      if d != dir || p != v {
        assert Off(p, v) >= 1 || d != dir;
        assert Lookup(t', d, p) == Lookup(t, d, p);
      }
    }
  }

  lemma UsablePde(t: Tables, t': Tables, dirs: set<nat>, kernel: nat, dir: nat, i: nat, e: Word)
    requires Usable(t, dirs, kernel) && OtherDirs(t, t', dirs, dir) && !IsTable(e) && i < 1024
    requires forall d, p :: d in dirs && 0 <= p < PAGES && !(d == dir && InSlot(p, i)) ==> Lookup(t', d, p) == Lookup(t, d, p)
    requires forall k :: 0 <= k < 1024 ==> Entry(t', dir, k) == if k == i then e else Entry(t, dir, k)
    requires forall p :: 0 <= p < PAGES && InSlot(p, i) ==> Lookup(t', dir, p) == if e == 0 then None else LargeLeaf(e, p % 1024)
    requires e != 0 ==> Grants(e % 4096, dir != kernel) && Grants(e % 4096 - 128, dir != kernel)
    ensures Usable(t', dirs, kernel)
  {
    hide Lookup, Grants;
    forall d, p | d in dirs && 0 <= p < USER_PAGES && Lookup(t', d, p).Some?
      ensures Grants(Lookup(t', d, p).value.access, d != kernel)
    {
      if !(d == dir && InSlot(p, i)) {
        assert Lookup(t', d, p) == Lookup(t, d, p);
      }
    }
  }

  lemma UsableTable(t: Tables, t': Tables, dirs: set<nat>, kernel: nat, dir: nat, i: nat, e: Word)
    requires Usable(t, dirs, kernel) && OtherDirs(t, t', dirs, dir) && Grants(e % 4096, dir != kernel)
    requires forall d, p :: d in dirs && 0 <= p < PAGES ==> Lookup(t', d, p) == Lookup(t, d, p)
    requires forall k :: 0 <= k < 1024 ==> Entry(t', dir, k) == if k == i then e else Entry(t, dir, k)
    ensures Usable(t', dirs, kernel)
  {
    hide Lookup, Grants;
  }

  lemma UsableClone(t: Tables, t': Tables, dirs: set<nat>, kernel: nat, child: nat)
    requires Usable(t, dirs, kernel)
    requires forall d, p :: d in dirs && 0 <= p < PAGES ==> Lookup(t', d, p) == Lookup(t, d, p)
    requires forall d, i :: d in dirs && 0 <= i < 1024 ==> Entry(t', d, i) == Entry(t, d, i)
    requires forall i :: 0 <= i < KERNEL_SLOT ==> Entry(t', child, i) == 0
    requires forall p :: 0 <= p < USER_PAGES ==> Lookup(t', child, p) == None
    ensures Usable(t', dirs + {child}, kernel)
  {
    hide Lookup, Grants;
  }
}
