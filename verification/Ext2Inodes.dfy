/** Inode allocation in filesystem/ext2.c: group bitmaps, their free counters and inode numbers. */
module Ext2Inodes {
  import opened Machine

  // ---------------------------------------------------------------- bits

  function Pow2(n: nat): (r: int)
    ensures r > 0
  {
    if n == 0 then 1 else 2 * Pow2(n - 1)
  }

  /** `b & (1 << j)` is not zero. */
  predicate Bit(b: int, j: nat) {
    b / Pow2(j) % 2 == 1
  }

  /** The halves of a number have its other digits. */
  lemma BitOfHalf(x: nat, j: nat)
    ensures Bit(x, j + 1) == Bit(x / 2, j)
  {
    var p := Pow2(j);
    var q, r := x / 2 / p, x / 2 % p;
    assert x == 2 * (p * q + r) + x % 2;
    DivideBy(x, 2 * p, q, 2 * r + x % 2);
  }

  /** Setting a zero bit adds its power of two and touches no other bit. */
  lemma {:induction false} SetBit(x: nat, j: nat, k: nat)
    requires !Bit(x, j)
    ensures Bit(x + Pow2(j), k) == (k == j || Bit(x, k))
    decreases j
  {
    var y := x + Pow2(j);
    LowBit(x);
    LowBit(y);
    if j > 0 {
      BitOfHalf(x, j - 1);
    }
    hide Bit;
    assert if j == 0 then y / 2 == x / 2 && y % 2 == 1 else y / 2 == x / 2 + Pow2(j - 1) && y % 2 == x % 2;
    if k > 0 {
      BitOfHalf(x, k - 1);
      BitOfHalf(y, k - 1);
      if j > 0 {
        SetBit(x / 2, j - 1, k - 1);
      }
    }
  }

  /** A number below 2^n stays below it when one of its first `n` digits is set. */
  lemma {:induction false} SetBelow(x: nat, j: nat, n: nat)
    requires !Bit(x, j) && j < n && x < Pow2(n)
    ensures x + Pow2(j) < Pow2(n)
    decreases j
  {
    if j > 0 {
      BitOfHalf(x, j - 1);
      SetBelow(x / 2, j - 1, n - 1);
    }
  }

  /** Bit `n` of a bitmap, low bits first. */
  predicate BitAt(bm: seq<Byte>, n: nat)
    requires n < 8 * |bm|
  {
    Bit(bm[n / 8], n % 8)
  }

  ghost function Zeros(bm: seq<Byte>): set<nat> {
    set n: nat | n < 8 * |bm| && !BitAt(bm, n)
  }

  /** `bm'` is `bm` with the zero bit `n` set. */
  ghost predicate Marked(bm: seq<Byte>, bm': seq<Byte>, n: nat) {
    && |bm'| == |bm| && n < 8 * |bm| && !BitAt(bm, n)
    && forall k: nat :: k < 8 * |bm| ==> BitAt(bm', k) == (k == n || BitAt(bm, k))
  }

  /** `n` is the lowest zero bit of `bm`. */
  ghost predicate FirstZero(bm: seq<Byte>, n: nat) {
    n < 8 * |bm| && !BitAt(bm, n) && forall k: nat :: k < n ==> BitAt(bm, k)
  }

  ghost predicate Full(bm: seq<Byte>) {
    forall k: nat :: k < 8 * |bm| ==> BitAt(bm, k)
  }

  // ---------------------------------------------------------------- a bitmap as one number

  /** The bitmap read as a number, lowest byte first. */
  ghost function Number(bm: seq<Byte>): (x: nat) {
    if bm == [] then 0 else bm[0] + 256 * Number(bm[1..])
  }

  /** The digits of `b` stand below those of `r` in b + 2^w * r. */
  lemma {:induction false} Stacked(b: nat, r: nat, w: nat, n: nat)
    requires b < Pow2(w)
    ensures Bit(b + Pow2(w) * r, n) == if n < w then Bit(b, n) else Bit(r, n - w)
    decreases w
  {
    var x := b + Pow2(w) * r;
    if w > 0 {
      HalfOfSum(b, r, Pow2(w - 1));
      LowBit(x);
      LowBit(b);
      if n > 0 {
        hide Bit;
        BitOfHalf(x, n - 1);
        BitOfHalf(b, n - 1);
        Stacked(b / 2, r, w - 1, n - 1);
      }
    }
  }

  lemma HalfOfSum(b: nat, r: nat, p: nat)
    ensures (b + 2 * p * r) / 2 == b / 2 + p * r && (b + 2 * p * r) % 2 == b % 2
  {
    var y := p * r;
    assert b + 2 * p * r == b + 2 * y;
  }

  lemma RemainderOfHalf(x: nat, p: nat)
    requires 0 < p
    ensures x % (2 * p) == 2 * (x / 2 % p) + x % 2
  {
    var q, r := x / 2 / p, x / 2 % p;
    assert x / 2 == p * q + r;
    DivideBy(x, 2 * p, q, 2 * r + x % 2);
  }

  lemma LowBit(x: nat)
    ensures Bit(x, 0) == (x % 2 == 1)
  {
  }

  lemma EightMore(n: nat)
    ensures Pow2(n + 8) == 256 * Pow2(n) && Pow2(8) == 256
  {
    assert Pow2(n + 8) == 4 * Pow2(n + 6) == 16 * Pow2(n + 4) == 64 * Pow2(n + 2);
    assert Pow2(8) == 4 * Pow2(6) == 16 * Pow2(4) == 64 * Pow2(2);
  }

  /** Bit `n` of the bitmap is the `n`-th binary digit of its number. */
  lemma {:induction false} BitOfNumber(bm: seq<Byte>, n: nat)
    requires n < 8 * |bm|
    ensures BitAt(bm, n) == (Number(bm) / Pow2(n) % 2 == 1)
    decreases |bm|
  {
    EightMore(0);
    Stacked(bm[0], Number(bm[1..]), 8, n);
    if n >= 8 {
      BitOfNumber(bm[1..], n - 8);
      assert n / 8 == (n - 8) / 8 + 1 && n % 8 == (n - 8) % 8;
    }
  }

  lemma {:induction false} NumberBelow(bm: seq<Byte>)
    ensures Number(bm) < Pow2(8 * |bm|)
  {
    if bm != [] {
      NumberBelow(bm[1..]);
      EightMore(8 * |bm[1..]|);
    }
  }

  lemma {:induction false} NumberRaised(bm: seq<Byte>, bm': seq<Byte>, i: nat, j: nat)
    requires |bm'| == |bm| && i < |bm| && bm'[i] == bm[i] + Pow2(j)
    requires forall k :: 0 <= k < |bm| && k != i ==> bm'[k] == bm[k]
    ensures Number(bm') == Number(bm) + Pow2(i * 8 + j)
    decreases i
  {
    if i == 0 {
      assert bm'[1..] == bm[1..];
    } else {
      NumberRaised(bm[1..], bm'[1..], i - 1, j);
      EightMore((i - 1) * 8 + j);
    }
  }

  lemma SameRest(y: nat, r: nat, p: nat)
    requires r < 2
    ensures 2 * y + r == 2 * p - 1 <==> r == 1 && y == p - 1
  {
  }

  ghost predicate OnesBelow(x: nat, n: nat) {
    forall k: nat :: k < n ==> Bit(x, k)
  }

  lemma OnesOfHalf(x: nat, n: nat)
    ensures OnesBelow(x, n + 1) <==> x % 2 == 1 && OnesBelow(x / 2, n)
  {
    LowBit(x);
    hide Bit;
    forall k: nat | k < n
      ensures Bit(x, k + 1) == Bit(x / 2, k)
    {
      BitOfHalf(x, k);
    }
    if x % 2 == 1 && OnesBelow(x / 2, n) {
      forall k: nat | k < n + 1
        ensures Bit(x, k)
      {
        if k > 0 {
          assert Bit(x / 2, k - 1);
        }
      }
    }
  }

  /** The lowest zero digit is the `n`-th exactly if the number ends in `n` ones behind a zero. */
  lemma {:induction false} EndsInOnes(x: nat, n: nat)
    ensures (!Bit(x, n) && OnesBelow(x, n)) <==> x % Pow2(n + 1) == Pow2(n) - 1
    decreases n
  {
    if n == 0 {
      LowBit(x);
      assert OnesBelow(x, 0) && Pow2(1) == 2;
    } else {
      hide Bit, OnesBelow;
      EndsInOnes(x / 2, n - 1);
      BitOfHalf(x, n - 1);
      OnesOfHalf(x, n - 1);
      RemainderOfHalf(x, Pow2(n));
      SameRest(x / 2 % Pow2(n), x % 2, Pow2(n - 1));
    }
  }

  lemma {:induction false} AllOnes(x: nat, n: nat)
    requires x < Pow2(n) && OnesBelow(x, n)
    ensures x == Pow2(n) - 1
    decreases n
  {
    if n > 0 {
      OnesOfHalf(x, n - 1);
      AllOnes(x / 2, n - 1);
    }
  }

  /** The lowest zero bit of a bitmap, and a bitmap without one, by their numbers. */
  lemma FirstZeroIff(bm: seq<Byte>, n: nat)
    requires n < 8 * |bm|
    ensures FirstZero(bm, n) <==> Number(bm) % Pow2(n + 1) == Pow2(n) - 1
  {
    hide BitAt;
    EndsInOnes(Number(bm), n);
    forall k: nat | k <= n
      ensures BitAt(bm, k) == Bit(Number(bm), k)
    {
      BitOfNumber(bm, k);
    }
  }

  lemma FullNumber(bm: seq<Byte>)
    requires Full(bm)
    ensures Number(bm) == Pow2(8 * |bm|) - 1
  {
    hide BitAt;
    NumberBelow(bm);
    forall k: nat | k < 8 * |bm|
      ensures Bit(Number(bm), k)
    {
      BitOfNumber(bm, k);
    }
    AllOnes(Number(bm), 8 * |bm|);
  }

  /** `ext2_bitmap_mark_first_zero_bit`; None stands for (u32) -1. */
  method MarkFirstZeroBit(bitmap: array<Byte>) returns (r: Option<nat>)
    modifies bitmap
    ensures r.None? ==> Full(old(bitmap[..])) && bitmap[..] == old(bitmap[..])
    ensures r.Some? ==> FirstZero(old(bitmap[..]), r.value) && Marked(old(bitmap[..]), bitmap[..], r.value)
    ensures r.Some? ==> Number(bitmap[..]) == Number(old(bitmap[..])) + Pow2(r.value)
    ensures r.Some? ==> Number(old(bitmap[..])) % Pow2(r.value + 1) == Pow2(r.value) - 1
    ensures r.None? ==> Number(bitmap[..]) == Pow2(8 * bitmap.Length) - 1
  {
    hide BitAt, Pow2, Number, Bit;
    EightMore(0);
    var i := 0;
    while i < bitmap.Length
      invariant 0 <= i <= bitmap.Length && bitmap[..] == old(bitmap[..])
      invariant forall k: nat :: k < 8 * i ==> BitAt(bitmap[..], k)
    {
      var j := 0;
      while j < 8
        invariant 0 <= j <= 8 && bitmap[..] == old(bitmap[..])
        invariant forall k: nat :: k < 8 * i + j ==> BitAt(bitmap[..], k)
      {
        if !Bit(bitmap[i], j) {
          ghost var bm := bitmap[..];
          SetBelow(bitmap[i], j, 8);
          bitmap[i] := bitmap[i] + Pow2(j);
          MarkByte(bm, bitmap[..], i, j);
          NumberRaised(bm, bitmap[..], i, j);
          FirstZeroIff(bm, i * 8 + j);
          return Some(i * 8 + j);
        }
        ByteBit(bitmap[..], i, j);
        j := j + 1;
      }
      i := i + 1;
    }
    FullNumber(bitmap[..]);
    r := None;
  }

  lemma ByteBit(bm: seq<Byte>, i: nat, j: nat)
    requires i < |bm| && j < 8
    ensures BitAt(bm, 8 * i + j) == Bit(bm[i], j)
  {
    assert (8 * i + j) / 8 == i && (8 * i + j) % 8 == j;
  }

  lemma MarkByte(bm: seq<Byte>, bm': seq<Byte>, i: nat, j: nat)
    requires |bm'| == |bm| && i < |bm| && j < 8 && !Bit(bm[i], j)
    requires bm'[i] == bm[i] + Pow2(j) && forall k :: 0 <= k < |bm| && k != i ==> bm'[k] == bm[k]
    ensures Marked(bm, bm', i * 8 + j)
  {
    hide Bit, Pow2;
    assert (i * 8 + j) / 8 == i && (i * 8 + j) % 8 == j;
    forall k: nat | k < 8 * |bm|
      ensures BitAt(bm', k) == (k == i * 8 + j || BitAt(bm, k))
    {
      if k / 8 == i {
        SetBit(bm[i], j, k % 8);
      }
    }
  }

  lemma MarkedZeros(bm: seq<Byte>, bm': seq<Byte>, n: nat)
    requires Marked(bm, bm', n)
    ensures Zeros(bm') == Zeros(bm) - {n} && n in Zeros(bm) && |Zeros(bm')| == |Zeros(bm)| - 1
  {
  }

  // ---------------------------------------------------------------- groups

  datatype Group = Group(bitmap: seq<Byte>, free: int)

  /** Block groups and the counter in the superblock. */
  datatype Table = Table(groups: seq<Group>, free: int)

  ghost function Total(gs: seq<Group>): int {
    if gs == [] then 0 else |Zeros(gs[0].bitmap)| + Total(gs[1..])
  }

  /** Counters agree with the bitmaps; bits past the last inode of a group are set. */
  ghost predicate GroupOk(g: Group, ipg: nat) {
    && g.free == |Zeros(g.bitmap)|
    && forall n: nat :: ipg <= n < 8 * |g.bitmap| ==> BitAt(g.bitmap, n)
  }

  ghost predicate Inv(t: Table, ipg: nat) {
    && 0 < ipg && t.free == Total(t.groups)
    && forall g :: 0 <= g < |t.groups| ==> GroupOk(t.groups[g], ipg)
  }

  /** Where the inode reader looks: block group and index in its table. */
  function GroupOf(ipg: nat, ino: nat): nat
    requires 0 < ipg && 0 < ino
  {
    (ino - 1) / ipg
  }

  function IndexOf(ipg: nat, ino: nat): (n: nat)
    requires 0 < ipg && 0 < ino
    ensures n < ipg
  {
    (ino - 1) % ipg
  }

  /** Inode `ino` is in use. */
  ghost predicate InUse(t: Table, ipg: nat, ino: nat)
    requires 0 < ipg && 0 < ino
  {
    var g, n := GroupOf(ipg, ino), IndexOf(ipg, ino);
    g < |t.groups| && n < 8 * |t.groups[g].bitmap| && BitAt(t.groups[g].bitmap, n)
  }

  /** `t'` and `ino` are what `ext2_inode_alloc` makes of `t` with bit `n` of group `g`. */
  ghost predicate Allocated(t: Table, t': Table, ipg: nat, g: nat, n: nat, ino: nat) {
    && g < |t.groups| && |t'.groups| == |t.groups|
    && (forall h :: 0 <= h < g ==> Full(t.groups[h].bitmap))
    && FirstZero(t.groups[g].bitmap, n) && Marked(t.groups[g].bitmap, t'.groups[g].bitmap, n)
    && t'.groups[g].free == t.groups[g].free - 1 && t'.free == t.free - 1
    && (forall h :: 0 <= h < |t.groups| && h != g ==> t'.groups[h] == t.groups[h])
    && ino == g * ipg + n + 1
  }

  class InodeTable {
    const ipg: nat            // inodes_per_blockgroup
    var table: Table

    constructor (t: Table, ipg: nat)
      ensures table == t && this.ipg == ipg
    {
      table := t;
      this.ipg := ipg;
    }

    /** `ext2_inode_alloc`; 0 when every group is full. */
    method InodeAlloc() returns (ino: nat)
      modifies this
      ensures ino == 0 ==> table == old(table) && forall g :: 0 <= g < |table.groups| ==> Full(table.groups[g].bitmap)
      ensures ino != 0 ==> exists g: nat, n: nat :: Allocated(old(table), table, ipg, g, n, ino)
    {
      hide Full, FirstZero, Marked, BitAt;
      var i := 0;
      while i < |table.groups|
        invariant 0 <= i <= |table.groups| && table == old(table)
        invariant forall h :: 0 <= h < i ==> Full(table.groups[h].bitmap)
      {
        var desc := table.groups[i];
        var buffer := new Byte[|desc.bitmap|](k requires 0 <= k < |desc.bitmap| => desc.bitmap[k]);
        assert buffer[..] == desc.bitmap;
        var bit := MarkFirstZeroBit(buffer);
        if bit.Some? {
          table := Table(table.groups[i := Group(buffer[..], desc.free - 1)], table.free - 1);
          ino := i * ipg + bit.value + 1;
          assert Allocated(old(table), table, ipg, i, bit.value, ino);
          return;
        }
        i := i + 1;
      }
      ino := 0;
    }
  }

  // ---------------------------------------------------------------- what an allocation does

  /** Dividing and taking the remainder by inodes_per_blockgroup finds the bit again. */
  lemma Locates(ipg: nat, g: nat, n: nat)
    requires n < ipg
    ensures GroupOf(ipg, g * ipg + n + 1) == g && IndexOf(ipg, g * ipg + n + 1) == n
  {
    DivideBy(g * ipg + n, ipg, g, n);
  }

  lemma Numbered(ipg: nat, ino: nat)
    requires 0 < ipg && 0 < ino
    ensures GroupOf(ipg, ino) * ipg + IndexOf(ipg, ino) + 1 == ino
  {
  }

  lemma {:induction false} TotalAfter(gs: seq<Group>, gs': seq<Group>, g: nat, n: nat)
    requires g < |gs| == |gs'| && Marked(gs[g].bitmap, gs'[g].bitmap, n)
    requires forall h :: 0 <= h < |gs| && h != g ==> gs'[h] == gs[h]
    ensures Total(gs') == Total(gs) - 1
    decreases |gs|
  {
    if g == 0 {
      MarkedZeros(gs[0].bitmap, gs'[0].bitmap, n);
      assert gs[1..] == gs'[1..];
    } else {
      TotalAfter(gs[1..], gs'[1..], g - 1, n);
    }
  }

  /** An allocation keeps the counters equal to the zero bits and returns a number whose bit it has just set. */
  lemma AllocKeeps(t: Table, t': Table, ipg: nat, g: nat, n: nat, ino: nat)
    requires Inv(t, ipg) && Allocated(t, t', ipg, g, n, ino)
    ensures Inv(t', ipg) && n < ipg && 0 < ino
    ensures GroupOf(ipg, ino) == g && IndexOf(ipg, ino) == n
    ensures !InUse(t, ipg, ino) && InUse(t', ipg, ino)
  {
    hide GroupOf, IndexOf, BitAt, Zeros, Total;
    assert GroupOk(t.groups[g], ipg);
    assert n < ipg;
    Locates(ipg, g, n);
    TotalAfter(t.groups, t'.groups, g, n);
    MarkedZeros(t.groups[g].bitmap, t'.groups[g].bitmap, n);
    forall h | 0 <= h < |t'.groups|
      ensures GroupOk(t'.groups[h], ipg)
    {
      assert GroupOk(t.groups[h], ipg);
    }
  }

  /** No other inode changes hands. */
  lemma AllocFrames(t: Table, t': Table, ipg: nat, g: nat, n: nat, ino: nat, other: nat)
    requires Inv(t, ipg) && Allocated(t, t', ipg, g, n, ino) && 0 < other && other != ino
    ensures InUse(t', ipg, other) <==> InUse(t, ipg, other)
  {
    hide GroupOf, IndexOf, GroupOk, Full, FirstZero, BitAt;
    Numbered(ipg, other);
    var h, k := GroupOf(ipg, other), IndexOf(ipg, other);
    assert h == g ==> k != n;
  }

  // ---------------------------------------------------------------- runs

  ghost predicate AllocStep(t: Table, t': Table, ipg: nat, ino: nat) {
    exists g: nat, n: nat :: Allocated(t, t', ipg, g, n, ino)
  }

  /** A run of successful allocations: the tables before, between and after, and the numbers returned. */
  ghost predicate IsRun(ts: seq<Table>, inos: seq<nat>, ipg: nat) {
    |ts| == |inos| + 1 && Inv(ts[0], ipg) && forall i :: 0 <= i < |inos| ==> AllocStep(ts[i], ts[i + 1], ipg, inos[i])
  }

  lemma {:induction false} RunKeepsInv(ts: seq<Table>, inos: seq<nat>, ipg: nat, i: nat)
    requires IsRun(ts, inos, ipg) && i < |ts|
    ensures Inv(ts[i], ipg) && ts[i].free == ts[0].free - i
    decreases i
  {
    if i > 0 {
      RunKeepsInv(ts, inos, ipg, i - 1);
      assert AllocStep(ts[i - 1], ts[i - 1 + 1], ipg, inos[i - 1]);
      var g: nat, n: nat :| Allocated(ts[i - 1], ts[i], ipg, g, n, inos[i - 1]);
      AllocKeeps(ts[i - 1], ts[i], ipg, g, n, inos[i - 1]);
    }
  }

  /** A number handed out stays in use for the rest of the run. */
  lemma {:induction false} StaysInUse(ts: seq<Table>, inos: seq<nat>, ipg: nat, i: nat, j: nat)
    requires IsRun(ts, inos, ipg) && i < j < |ts|
    ensures 0 < inos[i] && InUse(ts[j], ipg, inos[i])
    decreases j
  {
    hide InUse, Inv, Allocated;
    RunKeepsInv(ts, inos, ipg, j - 1);
    assert AllocStep(ts[j - 1], ts[j - 1 + 1], ipg, inos[j - 1]);
    var g: nat, n: nat :| Allocated(ts[j - 1], ts[j], ipg, g, n, inos[j - 1]);
    AllocKeeps(ts[j - 1], ts[j], ipg, g, n, inos[j - 1]);
    if i < j - 1 {
      StaysInUse(ts, inos, ipg, i, j - 1);
      if inos[i] != inos[j - 1] {
        AllocFrames(ts[j - 1], ts[j], ipg, g, n, inos[j - 1], inos[i]);
      }
    }
  }

  /** No inode number is returned twice. */
  lemma NeverTwice(ts: seq<Table>, inos: seq<nat>, ipg: nat, i: nat, j: nat)
    requires IsRun(ts, inos, ipg) && i < j < |inos|
    ensures inos[i] != inos[j]
  {
    StaysInUse(ts, inos, ipg, i, j);
    RunKeepsInv(ts, inos, ipg, j);
    assert AllocStep(ts[j], ts[j + 1], ipg, inos[j]);
    var g: nat, n: nat :| Allocated(ts[j], ts[j + 1], ipg, g, n, inos[j]);
    AllocKeeps(ts[j], ts[j + 1], ipg, g, n, inos[j]);
  }
}
