/** Reading file contents in filesystem/ext2.c: the walk over direct, singly and doubly indirect
    pointers, the coalesced requests it queues, and the plain block map they must agree with. */
module Ext2Read {
  import opened Machine

  /** A volume: its bytes, the sector of its superblock area and its block size. */
  datatype Volume = Volume(disk: seq<Byte>, base: nat, bs: nat) {
    predicate Ok() {
      0 < bs && bs % 512 == 0
    }

    /** `superblock_offset + BLOCK_OFFSET(b)`. */
    function Sector(b: nat): nat {
      base + b * (bs / 512)
    }

    function Addr(b: nat): nat {
      Sector(b) * 512
    }

    /** Pointers in one indirect block. */
    function Ptrs(): (p: nat)
      ensures Ok() ==> 0 < p
    {
      bs / 4
    }

    function U32(a: nat): Word
      requires a + 4 <= |disk|
    {
      var b0: int, b1: int, b2: int, b3: int := disk[a], disk[a + 1], disk[a + 2], disk[a + 3];
      b0 + 0x100 * b1 + 0x1_0000 * b2 + 0x100_0000 * b3
    }

    predicate HasBlock(b: nat) {
      Addr(b) + bs <= |disk|
    }

    /** Entry `i` of the pointer block `b`. */
    function Ptr(b: nat, i: nat): Word {
      if Addr(b) + 4 * i + 4 <= |disk| then U32(Addr(b) + 4 * i) else 0
    }
  }

  lemma NextSector(v: Volume, b: nat)
    requires v.Ok()
    ensures v.Sector(b + 1) == v.Sector(b) + v.bs / 512 && v.Addr(b + 1) == v.Addr(b) + v.bs
  {
    assert (b + 1) * (v.bs / 512) == b * (v.bs / 512) + v.bs / 512;
  }

  lemma SectorInjective(v: Volume, a: nat, b: nat)
    requires v.Ok()
    ensures v.Sector(a) == v.Sector(b) <==> a == b
    ensures 0 < b ==> 0 < v.Sector(b)
  {
    var s := v.bs / 512;
    assert s > 0;
    if a < b {
      assert b * s == a * s + (b - a) * s;
    } else if b < a {
      assert a * s == b * s + (a - b) * s;
    }
    assert b > 0 ==> b * s == s + (b - 1) * s;
  }

  function Quo(m: nat, n: nat): nat
    requires 0 < n
  {
    m / n
  }

  function Rem(m: nat, n: nat): (r: nat)
    requires 0 < n
    ensures r < n
  {
    m % n
  }

  lemma DivMod(q: nat, r: nat, n: nat)
    requires r < n
    ensures Quo(q * n + r, n) == q && Rem(q * n + r, n) == r
  {
    DivideBy(q * n + r, n, q, r);
  }

  // ---------------------------------------------------------------- the block map

  datatype Inode = Inode(direct: seq<Word>, single: Word, double: Word, length: nat) {
    predicate Ok() {
      |direct| == 12
    }

    /** Blocks reachable without the triply indirect pointer. */
    function Reach(v: Volume): nat {
      12 + v.Ptrs() + v.Ptrs() * v.Ptrs()
    }

    /** The block that holds logical block `n`; 0 is a hole. */
    function BlockOf(v: Volume, n: nat): nat
      requires Ok() && v.Ok()
    {
      var p := v.Ptrs();
      if n < 12 then direct[n]
      else if n < 12 + p then (if single == 0 then 0 else v.Ptr(single, n - 12))
      else
        var m := n - 12 - p;
        if double == 0 then 0
        else if v.Ptr(double, Quo(m, p)) == 0 then 0
        else v.Ptr(v.Ptr(double, Quo(m, p)), Rem(m, p))
    }
  }

  // ---------------------------------------------------------------- what a list of blocks delivers

  /** The first `j + 1` blocks follow each other on the disk. */
  ghost predicate RunTo(bl: seq<nat>, j: nat) {
    forall i :: 0 < i <= j && i < |bl| ==> bl[i] == bl[i - 1] + 1
  }

  /** The disk address byte `e` of the `j`-th block is fetched from when the read starts `o` bytes
      into its first block: the starting offset carries over along a physical run only. */
  ghost function Delivered(v: Volume, bl: seq<nat>, o: nat, j: nat, e: nat): nat
    requires j < |bl|
  {
    v.Addr(bl[j]) + (if RunTo(bl, j) then o else 0) + e
  }

  /** Delivered, by position in the buffer. */
  ghost function Want(v: Volume, bl: seq<nat>, o: nat): (w: seq<nat>)
    requires v.Ok()
    ensures |w| == |bl| * v.bs
  {
    seq(|bl| * v.bs, d requires 0 <= d =>
      if Quo(d, v.bs) < |bl| then Delivered(v, bl, o, Quo(d, v.bs), Rem(d, v.bs)) else 0)
  }

  lemma MulAdd(a: nat, n: nat)
    ensures (a + 1) * n == a * n + n
  {
  }

  lemma MulMono(a: nat, b: nat, n: nat)
    requires a <= b
    ensures a * n <= b * n
  {
    assert (b - a) * n >= 0;
    assert b * n == a * n + (b - a) * n;
  }

  lemma BlockFits(v: Volume, n: nat, j: nat)
    requires j < n
    ensures j * v.bs + v.bs <= n * v.bs && (j + 1) * v.bs == j * v.bs + v.bs
  {
    MulAdd(j, v.bs);
    MulMono(j + 1, n, v.bs);
  }

  lemma WantAt(v: Volume, bl: seq<nat>, o: nat, j: nat, e: nat)
    requires v.Ok() && j < |bl| && e < v.bs
    ensures j * v.bs + e < |bl| * v.bs && Want(v, bl, o)[j * v.bs + e] == Delivered(v, bl, o, j, e)
  {
    hide Delivered, Quo, Rem;
    DivMod(j, e, v.bs);
    BlockFits(v, |bl|, j);
  }

  /** The bytes wanted from block `j` lie in one piece. */
  lemma WantBlock(v: Volume, bl: seq<nat>, o: nat, j: nat)
    requires v.Ok() && j < |bl|
    ensures j * v.bs + v.bs <= |Want(v, bl, o)|
    ensures forall d :: j * v.bs <= d < j * v.bs + v.bs ==>
              Want(v, bl, o)[d] == v.Addr(bl[j]) + (if RunTo(bl, j) then o else 0) + (d - j * v.bs)
  {
    hide Want, RunTo;
    BlockFits(v, |bl|, j);
    forall d | j * v.bs <= d < j * v.bs + v.bs
      ensures Want(v, bl, o)[d] == v.Addr(bl[j]) + (if RunTo(bl, j) then o else 0) + (d - j * v.bs)
    {
      WantAt(v, bl, o, j, d - j * v.bs);
    }
  }

  datatype Request = Request(sector: nat, count: nat, offset: nat, buffer: nat)

  const NO_REQUEST := Request(0, 0, 0, 0)

  /** Request `r` fetches the bytes it covers from the addresses that `want` gives. */
  ghost predicate Right(r: Request, want: seq<nat>) {
    r.buffer + r.count <= |want|
    && forall d :: r.buffer <= d < r.buffer + r.count ==> want[d] == r.sector * 512 + r.offset + (d - r.buffer)
  }

  ghost predicate Covered(rs: seq<Request>, m: nat, d: nat)
    requires m <= |rs|
  {
    exists i :: 0 <= i < m && rs[i].buffer <= d < rs[i].buffer + rs[i].count
  }

  /** `rs` holds `m` live requests, all in front. */
  ghost predicate Filled(rs: seq<Request>, m: nat) {
    m <= |rs| && (forall i :: 0 <= i < m ==> rs[i].sector != 0) && (forall i :: m <= i < |rs| ==> rs[i].sector == 0)
  }

  predicate Matches(r: Request, sector: nat, buffer: nat) {
    r.sector == sector - r.count / 512 && r.buffer == buffer - r.count
  }

  /** `ext2_queue_read`. At most the newest request can end where this one begins in the buffer. */
  method QueueRead(requests: array<Request>, sector: nat, count: nat, offset: nat, buffer: nat, ghost m: nat)
    requires Filled(requests[..], m) && m < requests.Length && sector != 0
    requires forall i :: 0 <= i < m - 1 ==> requests[i].buffer + requests[i].count != buffer
    modifies requests
    ensures if m > 0 && Matches(old(requests[m - 1]), sector, buffer)
            then requests[..] == old(requests[..])[m - 1 := old(requests[m - 1]).(count := old(requests[m - 1]).count + count)]
            else requests[..] == old(requests[..])[m := Request(sector, count, offset, buffer)]
  {
    var i := 0;
    while requests[i].sector != 0
      invariant i <= m && requests[..] == old(requests[..])
      invariant forall k :: 0 <= k < i ==> !Matches(requests[k], sector, buffer)
      decreases m - i
    {
      assert requests[i] == requests[..][i];
      if Matches(requests[i], sector, buffer) {
        requests[i] := requests[i].(count := requests[i].count + count);
        return;
      }
      i := i + 1;
    }
    assert requests[i] == requests[..][i];
    requests[i] := Request(sector, count, offset, buffer);
  }

  /** The newest request ends with block `k - 1`, in the buffer and on the disk. */
  ghost predicate NewestEnds(v: Volume, bl: seq<nat>, o: nat, rs: seq<Request>, m: nat, k: nat)
    requires 0 < m <= |rs| && 0 < k <= |bl|
  {
    var q := rs[m - 1];
    && 0 < q.count && q.count % 512 == 0 && q.buffer + q.count == k * v.bs
    && q.sector * 512 + q.count == v.Addr(bl[k - 1] + 1)
    && q.offset == (if RunTo(bl, k - 1) then o else 0)
    && forall i :: 0 <= i < m - 1 ==> rs[i].buffer + rs[i].count <= q.buffer
  }

  ghost predicate WithinBuffer(rs: seq<Request>, m: nat, total: nat) {
    m <= |rs| && forall i :: 0 <= i < m ==> 0 < rs[i].count && rs[i].buffer + rs[i].count <= total
  }

  /** `m` requests fetch the first `upto` bytes from where they are wanted. */
  ghost predicate Fetches(v: Volume, bl: seq<nat>, o: nat, rs: seq<Request>, m: nat, upto: nat)
    requires v.Ok()
  {
    && Filled(rs, m) && WithinBuffer(rs, m, upto)
    && (forall i :: 0 <= i < m ==> Right(rs[i], Want(v, bl, o)))
    && (forall d :: 0 <= d < upto ==> Covered(rs, m, d))
  }

  /** The state of the request array after `k` whole blocks. */
  ghost predicate Queued(v: Volume, bl: seq<nat>, o: nat, rs: seq<Request>, m: nat, k: nat)
    requires v.Ok()
  {
    && m <= k <= |bl| && Fetches(v, bl, o, rs, m, k * v.bs)
    && (k > 0 ==> m > 0 && NewestEnds(v, bl, o, rs, m, k))
  }

  /** A request continues the newest one exactly when its block is the next one on the disk. */
  lemma MatchMeansNext(v: Volume, bl: seq<nat>, o: nat, rs: seq<Request>, m: nat, k: nat)
    requires v.Ok() && Queued(v, bl, o, rs, m, k) && 0 < k < |bl|
    ensures Matches(rs[m - 1], v.Sector(bl[k]), k * v.bs) <==> bl[k] == bl[k - 1] + 1
    ensures RunTo(bl, k) <==> RunTo(bl, k - 1) && bl[k] == bl[k - 1] + 1
  {
    SectorInjective(v, bl[k - 1] + 1, bl[k]);
    assert v.Addr(bl[k - 1] + 1) == v.Sector(bl[k - 1] + 1) * 512;
  }

  lemma CoverMore(rs: seq<Request>, m: nat, rs': seq<Request>, m': nat, lo: nat, hi: nat, k: nat)
    requires m <= |rs| && m' <= |rs'| && m <= m' && forall d :: 0 <= d < lo ==> Covered(rs, m, d)
    requires forall i :: 0 <= i < m ==> rs'[i].buffer == rs[i].buffer && rs'[i].count >= rs[i].count
    requires k < m' && rs'[k].buffer <= lo && hi <= rs'[k].buffer + rs'[k].count
    ensures forall d :: 0 <= d < hi ==> Covered(rs', m', d)
  {
    forall d | 0 <= d < hi
      ensures Covered(rs', m', d)
    {
      if d < lo {
        assert Covered(rs, m, d);
        var i :| 0 <= i < m && rs[i].buffer <= d < rs[i].buffer + rs[i].count;
        assert rs'[i].buffer <= d < rs'[i].buffer + rs'[i].count;
      } else {
        assert rs'[k].buffer <= d < rs'[k].buffer + rs'[k].count;
      }
    }
  }

  lemma QueueMerged(v: Volume, bl: seq<nat>, o: nat, rs: seq<Request>, rs': seq<Request>, m: nat, k: nat, cnt: nat)
    requires v.Ok() && Queued(v, bl, o, rs, m, k) && 0 < k < |bl| && 0 < cnt <= v.bs && bl[k] == bl[k - 1] + 1
    requires rs' == rs[m - 1 := rs[m - 1].(count := rs[m - 1].count + cnt)]
    ensures Fetches(v, bl, o, rs', m, k * v.bs + cnt)
    ensures cnt == v.bs ==> Queued(v, bl, o, rs', m, k + 1)
  {
    hide Want, Covered, RunTo, Volume.Sector, Volume.Addr;
    MatchMeansNext(v, bl, o, rs, m, k);
    WantBlock(v, bl, o, k);
    CoverMore(rs, m, rs', m, k * v.bs, k * v.bs + cnt, m - 1);
    assert Right(rs'[m - 1], Want(v, bl, o)) by {
      assert Right(rs[m - 1], Want(v, bl, o));
    }
    NextSector(v, bl[k]);
    BlockFits(v, |bl|, k);
    SectorsAdd(rs[m - 1].count, v.bs);
    if cnt == v.bs {
      var q := rs'[m - 1];
      assert q.buffer + q.count == (k + 1) * v.bs;
      assert q.sector * 512 + q.count == v.Addr(bl[k] + 1);
      assert NewestEnds(v, bl, o, rs', m, k + 1);
    }
  }

  lemma SectorsAdd(a: nat, b: nat)
    requires a % 512 == 0 && b % 512 == 0
    ensures (a + b) % 512 == 0
  {
  }

  lemma QueueAppended(v: Volume, bl: seq<nat>, o: nat, rs: seq<Request>, rs': seq<Request>, m: nat, k: nat, cnt: nat)
    requires v.Ok() && Queued(v, bl, o, rs, m, k) && k < |bl| && m < |rs| && 0 < cnt <= v.bs && bl[k] != 0
    requires k > 0 ==> bl[k] != bl[k - 1] + 1
    requires rs' == rs[m := Request(v.Sector(bl[k]), cnt, if k == 0 then o else 0, k * v.bs)]
    ensures Fetches(v, bl, o, rs', m + 1, k * v.bs + cnt)
    ensures cnt == v.bs ==> Queued(v, bl, o, rs', m + 1, k + 1)
  {
    hide Want, Covered, RunTo, Volume.Sector;
    SectorInjective(v, bl[k], bl[k]);
    if k > 0 {
      MatchMeansNext(v, bl, o, rs, m, k);
    } else {
      RunToZero(bl);
    }
    WantBlock(v, bl, o, k);
    CoverMore(rs, m, rs', m + 1, k * v.bs, k * v.bs + cnt, m);
    NextSector(v, bl[k]);
    BlockFits(v, |bl|, k);
  }

  lemma RunToZero(bl: seq<nat>)
    ensures RunTo(bl, 0)
  {
  }

  // ---------------------------------------------------------------- the walk

  /** The loop variables of `ext2_inode_read_content`: bytes left, offset into the next block,
      position in the buffer, and the carried block counter. */
  datatype Cursor = Cursor(size: nat, offset: nat, loc: nat, i: nat)

  datatype Status = Done | More | Hole

  /** `total` bytes take exactly the blocks `bl`. */
  ghost predicate Spans(v: Volume, bl: seq<nat>, total: nat) {
    |bl| > 0 && (|bl| - 1) * v.bs < total <= |bl| * v.bs
  }

  ghost predicate At(v: Volume, bl: seq<nat>, o: nat, total: nat, rs: seq<Request>, m: nat, k: nat, c: Cursor)
    requires v.Ok()
  {
    && Spans(v, bl, total) && |bl| <= |rs| && k < |bl| && Queued(v, bl, o, rs, m, k)
    && c.loc == k * v.bs && c.offset == (if k == 0 then o else 0) && c.size == total - k * v.bs && c.size > 0
  }

  /** The loop body shared by the three pointer loops: queue block `b`, then advance. */
  method QueueBlock(v: Volume, requests: array<Request>, b: nat, c: Cursor,
                    ghost bl: seq<nat>, ghost o: nat, ghost total: nat, ghost m: nat, ghost k: nat)
    returns (c': Cursor, ghost m': nat)
    requires v.Ok() && At(v, bl, o, total, requests[..], m, k, c) && b == bl[k] && b != 0
    modifies requests
    ensures c'.i == c.i
    ensures c'.size == 0 ==> k + 1 == |bl| && Fetches(v, bl, o, requests[..], m', total)
    ensures c'.size > 0 ==> At(v, bl, o, total, requests[..], m', k + 1, c')
  {
    hide Fetches, Spans, Volume.Sector, Volume.Addr, RunTo;
    var count := if c.size >= v.bs then v.bs else c.size;
    SectorInjective(v, b, b);
    FilledOf(v, bl, o, requests[..], m, k * v.bs);
    ghost var rs := requests[..];
    QueueRead(requests, v.Sector(b), count, c.offset, c.loc, m);
    c' := Cursor(if c.size >= v.bs then c.size - v.bs else 0, 0, c.loc + v.bs, c.i);
    m' := m;
    if k > 0 {
      MatchMeansNext(v, bl, o, rs, m, k);
    }
    if k > 0 && bl[k] == bl[k - 1] + 1 {
      QueueMerged(v, bl, o, rs, requests[..], m, k, count);
    } else {
      QueueAppended(v, bl, o, rs, requests[..], m, k, count);
      m' := m + 1;
    }
    EndsThere(v, bl, total, k);
  }

  lemma FilledOf(v: Volume, bl: seq<nat>, o: nat, rs: seq<Request>, m: nat, upto: nat)
    requires v.Ok() && Fetches(v, bl, o, rs, m, upto)
    ensures Filled(rs, m)
  {
  }

  lemma EndsThere(v: Volume, bl: seq<nat>, total: nat, k: nat)
    requires v.Ok() && Spans(v, bl, total) && k < |bl|
    ensures (k + 1) * v.bs == k * v.bs + v.bs
    ensures total - k * v.bs > v.bs <==> k + 1 < |bl|
  {
    MulAdd(k, v.bs);
    if k + 1 < |bl| {
      MulMono(k + 1, |bl| - 1, v.bs);
    }
  }

  /** The pointers from position `i` on are the blocks from the `k`-th on. */
  ghost predicate Aligned(bl: seq<nat>, k: nat, ptrs: seq<Word>, i: nat) {
    forall t :: i <= t < |ptrs| && k + (t - i) < |bl| ==> ptrs[t] == bl[k + (t - i)]
  }

  /** None of the first `k` blocks is a hole. */
  ghost predicate NoHoles(bl: seq<nat>, k: nat) {
    forall t :: 0 <= t < k && t < |bl| ==> bl[t] != 0
  }

  /** One pointer loop: queue the blocks in `ptrs` from `c.i` on until the bytes or the pointers run out. */
  method WalkPointers(v: Volume, requests: array<Request>, ptrs: seq<Word>, c: Cursor,
                      ghost bl: seq<nat>, ghost o: nat, ghost total: nat, ghost m: nat, ghost k: nat)
    returns (status: Status, c': Cursor, ghost m': nat, ghost k': nat)
    requires v.Ok() && At(v, bl, o, total, requests[..], m, k, c) && Aligned(bl, k, ptrs, c.i) && NoHoles(bl, k)
    modifies requests
    ensures k <= k' && k' - k == c'.i - c.i
    ensures status.Done? ==> Fetches(v, bl, o, requests[..], m', total) && c'.i < |ptrs| && k' + 1 == |bl| && NoHoles(bl, |bl|)
    ensures status.Hole? ==> k' < |bl| && bl[k'] == 0
    ensures status.More? ==> At(v, bl, o, total, requests[..], m', k', c') && c'.i >= |ptrs| && NoHoles(bl, k')
  {
    hide At, Fetches;
    c', m', k' := c, m, k;
    while c'.i < |ptrs|
      invariant At(v, bl, o, total, requests[..], m', k', c')
      invariant k <= k' && k' - k == c'.i - c.i && NoHoles(bl, k')
      decreases |ptrs| - c'.i
    {
      InBlocks(v, bl, o, total, requests[..], m', k', c');
      assert k + (c'.i - c.i) == k' && ptrs[c'.i] == bl[k'];
      if ptrs[c'.i] == 0 {
        return Hole, c', m', k';
      }
      c', m' := QueueBlock(v, requests, ptrs[c'.i], c', bl, o, total, m', k');
      if c'.size == 0 {
        return Done, c', m', k';
      }
      k' := k' + 1;
      c' := c'.(i := c'.i + 1);
      Recount(v, bl, o, total, requests[..], m', k', c'.(i := c'.i - 1), c');
    }
    status := More;
  }

  lemma InBlocks(v: Volume, bl: seq<nat>, o: nat, total: nat, rs: seq<Request>, m: nat, k: nat, c: Cursor)
    requires v.Ok() && At(v, bl, o, total, rs, m, k, c)
    ensures k < |bl|
  {
  }

  /** Only the counter changes. */
  lemma Recount(v: Volume, bl: seq<nat>, o: nat, total: nat, rs: seq<Request>, m: nat, k: nat, c: Cursor, c': Cursor)
    requires v.Ok() && At(v, bl, o, total, rs, m, k, c) && c' == c.(i := c'.i)
    ensures At(v, bl, o, total, rs, m, k, c')
  {
  }

  /** `block_read_flexible` of one block of pointers. None is a disk error. */
  method ReadPointers(v: Volume, b: nat) returns (r: Option<seq<Word>>)
    requires v.Ok()
    ensures r.None? <==> !v.HasBlock(b)
    ensures r.Some? ==> |r.value| == v.Ptrs() && forall i :: 0 <= i < v.Ptrs() ==> r.value[i] == v.Ptr(b, i)
  {
    if v.Addr(b) + v.bs > |v.disk| {
      return None;
    }
    var ptrs: seq<Word> := [];
    for i := 0 to v.Ptrs()
      invariant |ptrs| == i && forall j :: 0 <= j < i ==> ptrs[j] == v.Ptr(b, j)
    {
      ptrs := ptrs + [v.U32(v.Addr(b) + 4 * i)];
    }
    r := Some(ptrs);
  }

  /** The blocks of `n` logical blocks from `first`. */
  ghost function Blocks(v: Volume, node: Inode, first: nat, n: nat): (bl: seq<nat>)
    requires v.Ok() && node.Ok()
    ensures |bl| == n && forall k :: 0 <= k < n ==> bl[k] == node.BlockOf(v, first + k)
  {
    seq<nat>(n, (k: nat) => node.BlockOf(v, first + k))
  }

  /** The first logical block behind the `j`-th pointer of the doubly indirect block. */
  function DoubleStart(v: Volume, j: nat): nat {
    12 + v.Ptrs() + j * v.Ptrs()
  }

  /** Logical blocks `first` to `end - 1` are no holes, and neither is any pointer block on the way to `end`:
      the walk passes those of the blocks in front of `first` too. */
  ghost predicate Mapped(v: Volume, node: Inode, first: nat, end: nat)
    requires v.Ok() && node.Ok()
  {
    && (forall x :: first <= x < end ==> node.BlockOf(v, x) != 0)
    && (12 < end ==> node.single != 0) && (DoubleStart(v, 0) < end ==> node.double != 0)
    && (forall j: nat :: DoubleStart(v, j) < end ==> v.Ptr(node.double, j) != 0)
  }

  /** Every pointer block that blocks below `end` need is on the disk. */
  ghost predicate PointersOnDisk(v: Volume, node: Inode, end: nat) {
    && (12 < end ==> v.HasBlock(node.single)) && (DoubleStart(v, 0) < end ==> v.HasBlock(node.double))
    && (forall j: nat :: DoubleStart(v, j) < end ==> v.HasBlock(v.Ptr(node.double, j)))
  }

  /** A walk that ends among the direct or singly indirect blocks has met all it needs. */
  lemma EndsEarly(v: Volume, node: Inode, first: nat, n: nat)
    requires v.Ok() && node.Ok() && NoHoles(Blocks(v, node, first, n), n) && first + n <= DoubleStart(v, 0)
    requires 12 < first + n ==> node.single != 0 && v.HasBlock(node.single)
    ensures Mapped(v, node, first, first + n) && PointersOnDisk(v, node, first + n)
  {
    NoneMissing(v, node, first, n);
    forall j: nat
      ensures DoubleStart(v, j) >= first + n
    {
      MulMono(0, j, v.Ptrs());
    }
  }

  /** The pointer blocks up to the `j`-th of the doubly indirect block are there. */
  ghost predicate Passed(v: Volume, node: Inode, j: nat) {
    && node.single != 0 && v.HasBlock(node.single) && node.double != 0 && v.HasBlock(node.double)
    && forall t :: 0 <= t < j ==> v.Ptr(node.double, t) != 0 && v.HasBlock(v.Ptr(node.double, t))
  }

  lemma PassedOne(v: Volume, node: Inode, j: nat)
    requires Passed(v, node, j) && v.Ptr(node.double, j) != 0 && v.HasBlock(v.Ptr(node.double, j))
    ensures Passed(v, node, j + 1)
  {
  }

  lemma EndsInDouble(v: Volume, node: Inode, first: nat, n: nat, j: nat)
    requires v.Ok() && node.Ok() && NoHoles(Blocks(v, node, first, n), n) && Passed(v, node, j)
    requires first + n <= DoubleStart(v, j)
    ensures Mapped(v, node, first, first + n) && PointersOnDisk(v, node, first + n)
  {
    NoneMissing(v, node, first, n);
    forall t: nat | DoubleStart(v, t) < first + n
      ensures t < j
    {
      if j <= t {
        MulMono(j, t, v.Ptrs());
      }
    }
  }

  lemma NoneMissing(v: Volume, node: Inode, first: nat, n: nat)
    requires v.Ok() && node.Ok() && NoHoles(Blocks(v, node, first, n), n)
    ensures forall x :: first <= x < first + n ==> node.BlockOf(v, x) != 0
  {
    hide Inode.BlockOf;
    var bl := Blocks(v, node, first, n);
    forall x | first <= x < first + n
      ensures node.BlockOf(v, x) != 0
    {
      assert bl[x - first] == node.BlockOf(v, first + (x - first));
    }
  }

  lemma DirectAligned(v: Volume, node: Inode, first: nat, n: nat, k: nat, i: nat)
    requires v.Ok() && node.Ok() && first + k == i
    ensures Aligned(Blocks(v, node, first, n), k, node.direct, i)
  {
  }

  lemma SingleAligned(v: Volume, node: Inode, first: nat, n: nat, k: nat, i: nat, ptrs: seq<Word>)
    requires v.Ok() && node.Ok() && node.single != 0 && first + k == 12 + i
    requires |ptrs| == v.Ptrs() && forall j :: 0 <= j < v.Ptrs() ==> ptrs[j] == v.Ptr(node.single, j)
    ensures Aligned(Blocks(v, node, first, n), k, ptrs, i)
  {
  }

  lemma DoubleAligned(v: Volume, node: Inode, first: nat, n: nat, k: nat, j: nat, i: nat, ptrs: seq<Word>)
    requires v.Ok() && node.Ok() && node.double != 0 && v.Ptr(node.double, j) != 0
    requires first + k == 12 + v.Ptrs() + j * v.Ptrs() + i
    requires |ptrs| == v.Ptrs() && forall t :: 0 <= t < v.Ptrs() ==> ptrs[t] == v.Ptr(v.Ptr(node.double, j), t)
    ensures Aligned(Blocks(v, node, first, n), k, ptrs, i)
  {
    hide Inode.BlockOf, Volume.Ptr;
    var bl := Blocks(v, node, first, n);
    forall t | i <= t < |ptrs| && k + (t - i) < |bl|
      ensures ptrs[t] == bl[k + (t - i)]
    {
      DoubleBlock(v, node, j, t);
      assert first + (k + (t - i)) == 12 + v.Ptrs() + j * v.Ptrs() + t;
    }
  }

  lemma DoubleBlock(v: Volume, node: Inode, j: nat, t: nat)
    requires v.Ok() && node.Ok() && node.double != 0 && v.Ptr(node.double, j) != 0 && t < v.Ptrs()
    ensures 0 <= j * v.Ptrs() && node.BlockOf(v, 12 + v.Ptrs() + j * v.Ptrs() + t) == v.Ptr(v.Ptr(node.double, j), t)
  {
    hide Quo, Rem, Volume.Ptr;
    MulMono(0, j, v.Ptrs());
    DivMod(j, t, v.Ptrs());
    var n := 12 + v.Ptrs() + j * v.Ptrs() + t;
    assert n - 12 - v.Ptrs() == j * v.Ptrs() + t;
  }

  datatype Error = NoError | FileOut | Corrupted | DiskError

  lemma HoleAt(v: Volume, node: Inode, first: nat, k: nat, n: nat)
    requires v.Ok() && node.Ok() && k < n && Blocks(v, node, first, n)[k] == 0
    ensures !Mapped(v, node, first, first + n)
  {
    hide Inode.BlockOf;
    assert node.BlockOf(v, first + k) == 0;
  }

  lemma PointerMissing(v: Volume, node: Inode, first: nat, end: nat, j: nat)
    requires v.Ok() && node.Ok()
    requires (12 < end && node.single == 0) || (DoubleStart(v, 0) < end && node.double == 0)
             || (DoubleStart(v, j) < end && v.Ptr(node.double, j) == 0)
    ensures !Mapped(v, node, first, end)
  {
    hide Inode.BlockOf, DoubleStart;
  }

  lemma PointerOff(v: Volume, node: Inode, end: nat, j: nat)
    requires (12 < end && !v.HasBlock(node.single)) || (DoubleStart(v, 0) < end && !v.HasBlock(node.double))
             || (DoubleStart(v, j) < end && !v.HasBlock(v.Ptr(node.double, j)))
    ensures !PointersOnDisk(v, node, end)
  {
    hide DoubleStart, Volume.HasBlock;
  }

  /** Room is left in the doubly indirect block while blocks are left to queue. */
  lemma MoreRoom(p: nat, j: nat, i: nat, here: nat, end: nat)
    requires here < end <= 12 + p + p * p && here == 12 + p + j * p + i && i >= p && j < p
    ensures j + 1 < p && here == 12 + p + (j + 1) * p + (i - p)
  {
    MulAdd(j, p);
  }

  /** The three loops of `ext2_inode_read_content` with their carried block counter. */
  method WalkBlocks(v: Volume, node: Inode, requests: array<Request>, start: Cursor,
                    ghost n: nat, ghost o: nat, ghost total: nat)
    returns (err: Error, ghost m: nat)
    requires v.Ok() && node.Ok() && start.i + n <= node.Reach(v)
    requires At(v, Blocks(v, node, start.i, n), o, total, requests[..], 0, 0, start)
    modifies requests
    ensures err == NoError || err == Corrupted || err == DiskError
    ensures err == NoError ==> Fetches(v, Blocks(v, node, start.i, n), o, requests[..], m, total)
    ensures err == NoError ==> Mapped(v, node, start.i, start.i + n) && PointersOnDisk(v, node, start.i + n)
    ensures err == Corrupted ==> !Mapped(v, node, start.i, start.i + n)
    ensures err == DiskError ==> !PointersOnDisk(v, node, start.i + n)
  {
    hide At, Fetches, Aligned, Mapped, PointersOnDisk, NoHoles, Inode.BlockOf, Volume.HasBlock, Volume.Ptr;
    ghost var first := start.i;
    ghost var bl := Blocks(v, node, first, n);
    ghost var k := 0;
    var status, c;
    var p := v.Ptrs();
    DirectAligned(v, node, first, n, 0, start.i);
    NoHolesYet(bl);
    assert DoubleStart(v, 0) == 12 + p;
    status, c, m, k := WalkPointers(v, requests, node.direct, start, bl, o, total, 0, 0);
    if status.Done? {
      EndsEarly(v, node, first, n);
      return NoError, m;
    }
    if status.Hole? {
      HoleAt(v, node, first, k, n);
      return Corrupted, m;
    }
    InBlocks(v, bl, o, total, requests[..], m, k, c);
    Recount(v, bl, o, total, requests[..], m, k, c, c.(i := c.i - 12));
    c := c.(i := c.i - 12);
    if node.single == 0 {
      PointerMissing(v, node, first, first + n, 0);
      return Corrupted, m;
    }
    var sib := ReadPointers(v, node.single);
    if sib.None? {
      PointerOff(v, node, first + n, 0);
      return DiskError, m;
    }
    SingleAligned(v, node, first, n, k, c.i, sib.value);
    ghost var k0 := k;
    status, c, m, k := WalkPointers(v, requests, sib.value, c, bl, o, total, m, k);
    if status.Done? {
      EndsEarly(v, node, first, n);
      return NoError, m;
    }
    if status.Hole? {
      HoleAt(v, node, first, k, n);
      return Corrupted, m;
    }
    InBlocks(v, bl, o, total, requests[..], m, k, c);
    Recount(v, bl, o, total, requests[..], m, k, c, c.(i := c.i - p));
    c := c.(i := c.i - p);
    if node.double == 0 {
      PointerMissing(v, node, first, first + n, 0);
      return Corrupted, m;
    }
    var dib := ReadPointers(v, node.double);
    if dib.None? {
      PointerOff(v, node, first + n, 0);
      return DiskError, m;
    }
    err, m := WalkDouble(v, node, requests, dib.value, c, first, n, o, total, m, k);
  }

  /** The doubly indirect loop. Its guard `j < block_size / 4` cannot fail while blocks are left. */
  method WalkDouble(v: Volume, node: Inode, requests: array<Request>, dib: seq<Word>, start: Cursor,
                    ghost first: nat, ghost n: nat, ghost o: nat, ghost total: nat, ghost m0: nat, ghost k0: nat)
    returns (err: Error, ghost m: nat)
    requires v.Ok() && node.Ok() && first + n <= node.Reach(v) && node.double != 0
    requires |dib| == v.Ptrs() && forall j :: 0 <= j < v.Ptrs() ==> dib[j] == v.Ptr(node.double, j)
    requires At(v, Blocks(v, node, first, n), o, total, requests[..], m0, k0, start)
    requires first + k0 == 12 + v.Ptrs() + start.i && NoHoles(Blocks(v, node, first, n), k0) && Passed(v, node, 0)
    modifies requests
    ensures err == NoError || err == Corrupted || err == DiskError
    ensures err == NoError ==> Fetches(v, Blocks(v, node, first, n), o, requests[..], m, total)
    ensures err == NoError ==> Mapped(v, node, first, first + n) && PointersOnDisk(v, node, first + n)
    ensures err == Corrupted ==> !Mapped(v, node, first, first + n)
    ensures err == DiskError ==> !PointersOnDisk(v, node, first + n)
  {
    hide At, Fetches, Aligned, Mapped, PointersOnDisk, Passed, NoHoles, Inode.BlockOf, Volume.HasBlock, Volume.Ptr;
    ghost var bl := Blocks(v, node, first, n);
    ghost var k := k0;
    m := m0;
    var c, status := start, More;
    var p := v.Ptrs();
    var j := 0;
    while true
      invariant 0 <= j < p && first + k == 12 + p + j * p + c.i && NoHoles(bl, k) && Passed(v, node, j)
      invariant At(v, bl, o, total, requests[..], m, k, c)
      decreases p - j
    {
      InBlocks(v, bl, o, total, requests[..], m, k, c);
      if dib[j] == 0 {
        PointerMissing(v, node, first, first + n, j);
        return Corrupted, m;
      }
      var sib := ReadPointers(v, dib[j]);
      if sib.None? {
        PointerOff(v, node, first + n, j);
        return DiskError, m;
      }
      DoubleAligned(v, node, first, n, k, j, c.i, sib.value);
      PassedOne(v, node, j);
      MulAdd(j, p);
      status, c, m, k := WalkPointers(v, requests, sib.value, c, bl, o, total, m, k);
      if status.Done? {
        EndsInDouble(v, node, first, n, j + 1);
        return NoError, m;
      }
      if status.Hole? {
        HoleAt(v, node, first, k, n);
        return Corrupted, m;
      }
      InBlocks(v, bl, o, total, requests[..], m, k, c);
      MoreRoom(p, j, c.i, first + k, first + n);
      Recount(v, bl, o, total, requests[..], m, k, c, c.(i := c.i - p));
      c := c.(i := c.i - p);
      j := j + 1;
    }
  }

  lemma NoHolesYet(bl: seq<nat>)
    ensures NoHoles(bl, 0)
  {
  }

  // ---------------------------------------------------------------- sending the requests

  /** Buffer bytes covered by the first `ri` requests hold the wanted disk bytes. */
  ghost predicate Sent(v: Volume, rs: seq<Request>, ri: nat, want: seq<nat>, buf: seq<Byte>) {
    ri <= |rs| && forall d :: 0 <= d < |buf| && d < |want| && Covered(rs, ri, d) ==>
      want[d] < |v.disk| && buf[d] == v.disk[want[d]]
  }

  /** `block_read_flexible` into the buffer. */
  method ReadInto(v: Volume, r: Request, buffer: array<Byte>) returns (ok: bool)
    requires r.buffer + r.count <= buffer.Length
    modifies buffer
    ensures ok == (r.sector * 512 + r.offset + r.count <= |v.disk|)
    ensures forall d :: 0 <= d < buffer.Length && !(r.buffer <= d < r.buffer + r.count) ==> buffer[d] == old(buffer[d])
    ensures ok ==> forall d :: r.buffer <= d < r.buffer + r.count ==>
                     buffer[d] == v.disk[r.sector * 512 + r.offset + (d - r.buffer)]
  {
    var a := r.sector * 512 + r.offset;
    if a + r.count > |v.disk| {
      return false;
    }
    for t := 0 to r.count
      invariant forall d :: 0 <= d < buffer.Length && !(r.buffer <= d < r.buffer + t) ==> buffer[d] == old(buffer[d])
      invariant forall d :: r.buffer <= d < r.buffer + t ==> buffer[d] == v.disk[a + (d - r.buffer)]
    {
      buffer[r.buffer + t] := v.disk[a + t];
    }
    ok := true;
  }

  lemma SentMore(v: Volume, rs: seq<Request>, ri: nat, want: seq<nat>, b0: seq<Byte>, b1: seq<Byte>)
    requires Sent(v, rs, ri, want, b0) && ri < |rs| && Right(rs[ri], want) && |b1| == |b0|
    requires rs[ri].sector * 512 + rs[ri].offset + rs[ri].count <= |v.disk|
    requires forall d :: 0 <= d < |b0| && !(rs[ri].buffer <= d < rs[ri].buffer + rs[ri].count) ==> b1[d] == b0[d]
    requires forall d :: rs[ri].buffer <= d < rs[ri].buffer + rs[ri].count && d < |b1| ==>
               b1[d] == v.disk[rs[ri].sector * 512 + rs[ri].offset + (d - rs[ri].buffer)]
    ensures Sent(v, rs, ri + 1, want, b1)
  {
    forall d | 0 <= d < |b1| && d < |want| && Covered(rs, ri + 1, d)
      ensures want[d] < |v.disk| && b1[d] == v.disk[want[d]]
    {
      if !(rs[ri].buffer <= d < rs[ri].buffer + rs[ri].count) {
        var i :| 0 <= i < ri + 1 && rs[i].buffer <= d < rs[i].buffer + rs[i].count;
        assert Covered(rs, ri, d);
      }
    }
  }

  /** The loop behind `send_requests`. */
  method Send(v: Volume, requests: array<Request>, buffer: array<Byte>, ghost m: nat, ghost want: seq<nat>, ghost total: nat)
    returns (ok: bool)
    requires Filled(requests[..], m) && forall i :: 0 <= i < m ==> Right(requests[i], want)
    requires WithinBuffer(requests[..], m, total) && total <= |want| && total <= buffer.Length
    requires forall d :: 0 <= d < total ==> Covered(requests[..], m, d)
    modifies buffer
    ensures ok ==> forall d :: 0 <= d < total ==> want[d] < |v.disk| && buffer[d] == v.disk[want[d]]
    ensures !ok ==> exists d :: 0 <= d < total && want[d] >= |v.disk|
    ensures forall d :: total <= d < buffer.Length ==> buffer[d] == old(buffer[d])
  {
    hide Covered, Right;
    ghost var rs := requests[..];
    NothingSent(v, rs, want, buffer[..]);
    var ri := 0;
    while ri < requests.Length && requests[ri].sector != 0
      invariant 0 <= ri <= m && Sent(v, rs, ri, want, buffer[..])
      invariant forall d :: total <= d < buffer.Length ==> buffer[d] == old(buffer[d])
    {
      assert rs[ri] == requests[ri];
      ghost var b0 := buffer[..];
      ok := ReadInto(v, requests[ri], buffer);
      if !ok {
        LastByte(v, rs[ri], want, total);
        return;
      }
      SentMore(v, rs, ri, want, b0, buffer[..]);
      ri := ri + 1;
    }
    assert ri == m;
    ok := true;
    forall d | 0 <= d < total
      ensures want[d] < |v.disk| && buffer[d] == v.disk[want[d]]
    {
      assert Covered(rs, m, d) && buffer[..][d] == buffer[d];
    }
  }

  lemma NothingSent(v: Volume, rs: seq<Request>, want: seq<nat>, buf: seq<Byte>)
    ensures Sent(v, rs, 0, want, buf)
  {
  }

  /** A request past the end of the disk wants a byte that is not there. */
  lemma LastByte(v: Volume, r: Request, want: seq<nat>, total: nat)
    requires Right(r, want) && r.sector * 512 + r.offset + r.count > |v.disk| && r.buffer + r.count <= total <= |want|
    requires 0 < r.count
    ensures exists d :: 0 <= d < total && want[d] >= |v.disk|
  {
    var d := r.buffer + r.count - 1;
    assert want[d] >= |v.disk|;
  }

  // ---------------------------------------------------------------- the whole read

  /** The number of blocks `size` bytes take: the length of the request array. */
  function BlockCount(v: Volume, size: nat): nat
    requires v.Ok()
  {
    Quo(size + if Rem(size, v.bs) != 0 then v.bs else 0, v.bs)
  }

  lemma CountSpans(v: Volume, size: nat)
    requires v.Ok() && 0 < size
    ensures BlockCount(v, size) > 0
    ensures (BlockCount(v, size) - 1) * v.bs < size <= BlockCount(v, size) * v.bs
  {
    var q, r := Quo(size, v.bs), Rem(size, v.bs);
    assert size == q * v.bs + r;
    if r != 0 {
      MulAdd(q, v.bs);
      DivMod(q + 1, r, v.bs);
    } else {
      DivMod(q, 0, v.bs);
      MulAdd(q - 1, v.bs);
    }
  }

  /** The disk addresses `ext2_inode_read_content` reads from. */
  ghost function ReadPlan(v: Volume, node: Inode, offset: nat, size: nat): seq<nat>
    requires v.Ok() && node.Ok()
  {
    Want(v, Blocks(v, node, Quo(offset, v.bs), BlockCount(v, size)), Rem(offset, v.bs))
  }

  /** Every byte the plan names, or the file holds, is on the disk. */
  ghost predicate PlanOnDisk(v: Volume, node: Inode, offset: nat, size: nat)
    requires v.Ok() && node.Ok() && size <= |ReadPlan(v, node, offset, size)|
  {
    forall d :: 0 <= d < size ==> ReadPlan(v, node, offset, size)[d] < |v.disk|
  }

  ghost predicate FileOnDisk(v: Volume, node: Inode, offset: nat, size: nat)
    requires v.Ok() && node.Ok()
  {
    forall x :: offset <= x < offset + size ==> FileAddr(v, node, x) < |v.disk|
  }

  /** The buffer holds the bytes the plan names. */
  ghost predicate HoldsPlan(v: Volume, node: Inode, offset: nat, size: nat, buf: seq<Byte>)
    requires v.Ok() && node.Ok() && size <= |ReadPlan(v, node, offset, size)|
  {
    size <= |buf| && PlanOnDisk(v, node, offset, size)
    && forall d :: 0 <= d < size ==> buf[d] == v.disk[ReadPlan(v, node, offset, size)[d]]
  }

  /** The buffer holds the bytes of the file. */
  ghost predicate HoldsFile(v: Volume, node: Inode, offset: nat, size: nat, buf: seq<Byte>)
    requires v.Ok() && node.Ok()
  {
    size <= |buf| && FileOnDisk(v, node, offset, size)
    && forall d :: 0 <= d < size ==> buf[d] == v.disk[FileAddr(v, node, offset + d)]
  }

  /** Where the plan is the file, planned and file bytes are the same thing. */
  lemma PlanIsFile(v: Volume, node: Inode, offset: nat, size: nat, buf: seq<Byte>)
    requires v.Ok() && node.Ok() && 0 < size && Faithful(v, node, offset, size)
    ensures size <= |ReadPlan(v, node, offset, size)|
    ensures PlanOnDisk(v, node, offset, size) <==> FileOnDisk(v, node, offset, size)
    ensures HoldsPlan(v, node, offset, size, buf) <==> HoldsFile(v, node, offset, size, buf)
  {
    hide ReadPlan, FileAddr, Faithful;
    ReadIsFileIff(v, node, offset, size);
    var plan := ReadPlan(v, node, offset, size);
    if PlanOnDisk(v, node, offset, size) {
      forall x | offset <= x < offset + size
        ensures FileAddr(v, node, x) < |v.disk|
      {
        assert plan[x - offset] == FileAddr(v, node, offset + (x - offset));
      }
    }
  }

  /** The driver's plan is the file: a start on a block boundary, or contiguous blocks. */
  ghost predicate Faithful(v: Volume, node: Inode, offset: nat, size: nat)
    requires v.Ok() && node.Ok() && 0 < size
  {
    Rem(offset, v.bs) == 0 || Contiguous(v, node, Quo(offset, v.bs), Quo(offset + size - 1, v.bs))
  }

  /** The walk to the blocks of the read meets no hole and no pointer block off the disk. */
  ghost predicate Walkable(v: Volume, node: Inode, offset: nat, size: nat)
    requires v.Ok() && node.Ok()
  {
    var first := Quo(offset, v.bs);
    var end := first + BlockCount(v, size);
    Mapped(v, node, first, end) && PointersOnDisk(v, node, end)
  }

  /** `ext2_inode_read_content` up to doubly indirect blocks. */
  method InodeReadContent(v: Volume, node: Inode, offset: Word, size: Word, buffer: array<Byte>) returns (err: Error)
    requires v.Ok() && node.Ok() && 0 < size <= buffer.Length
    requires Quo(offset, v.bs) + BlockCount(v, size) <= node.Reach(v)
    modifies buffer
    ensures err == FileOut <==> (size + offset) % TWO32 > node.length
    ensures size <= |ReadPlan(v, node, offset, size)|
    ensures err == NoError <==> (size + offset) % TWO32 <= node.length && Walkable(v, node, offset, size)
                                && PlanOnDisk(v, node, offset, size)
    ensures err == NoError ==> HoldsPlan(v, node, offset, size, buffer[..])
    ensures err == Corrupted ==> !Mapped(v, node, Quo(offset, v.bs), Quo(offset, v.bs) + BlockCount(v, size))
    ensures Faithful(v, node, offset, size) ==>
              (err == NoError <==> (size + offset) % TWO32 <= node.length && Walkable(v, node, offset, size)
                                   && FileOnDisk(v, node, offset, size))
    ensures Faithful(v, node, offset, size) && err == NoError ==> HoldsFile(v, node, offset, size, buffer[..])
    ensures Faithful(v, node, offset, size) && err == NoError ==>
              AllStored(v.disk, v.base, v.bs, node, offset, size, buffer[..])
    ensures forall d :: size <= d < buffer.Length ==> buffer[d] == old(buffer[d])
  {
    hide *;
    EnoughBytes(v);
    err := ReadAsPlanned(v, node, offset, size, buffer);
    if Faithful(v, node, offset, size) {
      PlanIsFile(v, node, offset, size, buffer[..]);
      if err == NoError {
        FileIsStored(v, node, offset, size, buffer[..]);
      }
    }
  }

  method ReadAsPlanned(v: Volume, node: Inode, offset: Word, size: Word, buffer: array<Byte>) returns (err: Error)
    requires v.Ok() && node.Ok() && 0 < size <= buffer.Length
    requires Quo(offset, v.bs) + BlockCount(v, size) <= node.Reach(v)
    modifies buffer
    ensures err == FileOut <==> (size + offset) % TWO32 > node.length
    ensures size <= |ReadPlan(v, node, offset, size)|
    ensures err == NoError <==> (size + offset) % TWO32 <= node.length && Walkable(v, node, offset, size)
                                && PlanOnDisk(v, node, offset, size)
    ensures err == NoError ==> HoldsPlan(v, node, offset, size, buffer[..])
    ensures err == Corrupted ==> !Mapped(v, node, Quo(offset, v.bs), Quo(offset, v.bs) + BlockCount(v, size))
    ensures forall d :: size <= d < buffer.Length ==> buffer[d] == old(buffer[d])
  {
    hide Want, Blocks, Mapped, PointersOnDisk, Covered, Right, NewestEnds;
    CountSpans(v, size);
    if (size + offset) % TWO32 > node.length {
      return FileOut;
    }
    var first, off := 0, offset as int;
    while off >= v.bs
      invariant 0 <= off && 0 <= first && offset == first * v.bs + off && buffer[..] == old(buffer[..])
    {
      MulAdd(first, v.bs);
      off := off - v.bs;
      first := first + 1;
    }
    DivMod(first, off, v.bs);
    var n := BlockCount(v, size);
    var requests := new Request[n](_ => NO_REQUEST);
    ghost var bl := Blocks(v, node, first, n);
    assert Filled(requests[..], 0);
    assert 0 * v.bs == 0;
    var start := Cursor(size, off, 0, first);
    assert At(v, bl, off, size, requests[..], 0, 0, start);
    ghost var m;
    err, m := WalkBlocks(v, node, requests, start, n, off, size);
    if err == NoError {
      var ok := Send(v, requests, buffer, m, Want(v, bl, off), size);
      if !ok {
        err := DiskError;
      }
    }
  }

  // ---------------------------------------------------------------- when the read is the file

  /** Where byte `x` of the file is stored. */
  ghost function FileAddr(v: Volume, node: Inode, x: nat): nat
    requires v.Ok() && node.Ok()
  {
    v.Addr(node.BlockOf(v, Quo(x, v.bs))) + Rem(x, v.bs)
  }

  /** Logical blocks `lo` to `hi` follow each other on the disk. */
  ghost predicate Contiguous(v: Volume, node: Inode, lo: nat, hi: nat)
    requires v.Ok() && node.Ok()
  {
    forall x: nat :: lo < x <= hi ==> node.BlockOf(v, x) == node.BlockOf(v, x - 1) + 1
  }

  lemma FileAddrAt(v: Volume, node: Inode, b: nat, e: nat)
    requires v.Ok() && node.Ok() && e < v.bs
    ensures FileAddr(v, node, b * v.bs + e) == v.Addr(node.BlockOf(v, b)) + e
  {
    DivMod(b, e, v.bs);
  }

  /** Byte `e` of the `j`-th block read lies `o` bytes further on in the file. */
  lemma PlannedVsFile(v: Volume, node: Inode, offset: nat, size: nat, j: nat, e: nat)
    requires v.Ok() && node.Ok() && j < BlockCount(v, size) && e < v.bs
    ensures var first, o := Quo(offset, v.bs), Rem(offset, v.bs);
            var bl := Blocks(v, node, first, BlockCount(v, size));
            && j * v.bs + e < |ReadPlan(v, node, offset, size)|
            && ReadPlan(v, node, offset, size)[j * v.bs + e] == v.Addr(bl[j]) + (if RunTo(bl, j) then o else 0) + e
            && FileAddr(v, node, offset + (j * v.bs + e)) ==
               if o + e < v.bs then v.Addr(bl[j]) + o + e else v.Addr(node.BlockOf(v, first + j + 1)) + (o + e - v.bs)
  {
    hide Inode.BlockOf, Volume.Addr, RunTo, Want;
    var first, o := Quo(offset, v.bs), Rem(offset, v.bs);
    var bl := Blocks(v, node, first, BlockCount(v, size));
    WantAt(v, bl, o, j, e);
    Regroup(v.bs, offset, first, o, j, e);
    if o + e < v.bs {
      FileAddrAt(v, node, first + j, o + e);
    } else {
      FileAddrAt(v, node, first + j + 1, o + e - v.bs);
    }
  }

  lemma Regroup(bs: nat, offset: nat, first: nat, o: nat, j: nat, e: nat)
    requires offset == first * bs + o
    ensures offset + (j * bs + e) == (first + j) * bs + (o + e)
    ensures (first + j + 1) * bs == (first + j) * bs + bs
  {
    MulAdd(first + j, bs);
    assert (first + j) * bs == first * bs + j * bs;
  }

  /** A block-aligned read, or one whose blocks are contiguous, fetches the right bytes. */
  lemma PlanRight(v: Volume, node: Inode, offset: nat, size: nat, d: nat)
    requires v.Ok() && node.Ok() && d < size
    requires Rem(offset, v.bs) == 0
             || Contiguous(v, node, Quo(offset, v.bs), Quo(offset + size - 1, v.bs))
    ensures d < |ReadPlan(v, node, offset, size)| && ReadPlan(v, node, offset, size)[d] == FileAddr(v, node, offset + d)
  {
    hide Inode.BlockOf, Volume.Addr, Volume.Sector, ReadPlan, FileAddr, BlockCount, Blocks;
    var first, o, n := Quo(offset, v.bs), Rem(offset, v.bs), BlockCount(v, size);
    var bl := Blocks(v, node, first, n);
    var j, e := Quo(d, v.bs), Rem(d, v.bs);
    CountSpans(v, size);
    InCount(v.bs, d, j, e, n);
    PlannedVsFile(v, node, offset, size, j, e);
    if o > 0 {
      var last := Quo(offset + size - 1, v.bs);
      UpTo(v.bs, offset, first, o, j, e, offset + size - 1, last);
      assert RunTo(bl, j) by {
        forall i | 0 < i <= j && i < |bl|
          ensures bl[i] == bl[i - 1] + 1
        {
          assert first + i - 1 == first + (i - 1);
        }
      }
      if o + e >= v.bs {
        var x := first + j + 1;
        assert node.BlockOf(v, x) == node.BlockOf(v, x - 1) + 1;
        NextSector(v, bl[j]);
      }
    }
  }

  lemma InCount(bs: nat, d: nat, j: nat, e: nat, n: nat)
    requires 0 < bs && d == j * bs + e && d < n * bs
    ensures j < n
  {
    if n <= j {
      MulMono(n, j, bs);
    }
  }

  /** How far along the file the blocks of a read reach. */
  lemma UpTo(bs: nat, offset: nat, first: nat, o: nat, j: nat, e: nat, end: nat, last: nat)
    requires 0 < bs && offset == first * bs + o && e < bs && last == Quo(end, bs) && offset + (j * bs + e) <= end
    ensures first + j <= last && (o + e >= bs ==> first + j + 1 <= last)
  {
    Regroup(bs, offset, first, o, j, e);
    var r := Rem(end, bs);
    assert end == last * bs + r;
    if last < first + j {
      MulMono(last + 1, first + j, bs);
      MulAdd(last, bs);
    } else if last < first + j + 1 {
      MulMono(last + 1, first + j + 1, bs);
      MulAdd(last, bs);
    }
  }

  ghost predicate WrongAt(v: Volume, node: Inode, offset: nat, size: nat, d: nat)
    requires v.Ok() && node.Ok()
  {
    d < size && d < |ReadPlan(v, node, offset, size)|
    && ReadPlan(v, node, offset, size)[d] != FileAddr(v, node, offset + d)
  }

  lemma InnerBreak(v: Volume, node: Inode, offset: nat, size: nat, j: nat)
    requires v.Ok() && node.Ok() && 0 < size && Rem(offset, v.bs) != 0 && 0 < j < BlockCount(v, size)
    requires var bl := Blocks(v, node, Quo(offset, v.bs), BlockCount(v, size)); bl[j] != bl[j - 1] + 1
    ensures WrongAt(v, node, offset, size, j * v.bs)
  {
    hide Inode.BlockOf, Volume.Addr, Volume.Sector, ReadPlan, FileAddr, BlockCount;
    CountSpans(v, size);
    MulMono(j, BlockCount(v, size) - 1, v.bs);
    PlannedVsFile(v, node, offset, size, j, 0);
    assert j * v.bs + 0 == j * v.bs;
  }

  lemma EndBreak(v: Volume, node: Inode, offset: nat, size: nat, x: nat)
    requires v.Ok() && node.Ok() && 0 < size && Rem(offset, v.bs) != 0
    requires Quo(offset, v.bs) < x <= Quo(offset + size - 1, v.bs) && node.BlockOf(v, x) != node.BlockOf(v, x - 1) + 1
    requires RunTo(Blocks(v, node, Quo(offset, v.bs), BlockCount(v, size)), BlockCount(v, size))
    ensures exists d: nat :: WrongAt(v, node, offset, size, d)
  {
    hide Inode.BlockOf, Volume.Addr, Volume.Sector, ReadPlan, FileAddr, BlockCount, Quo, Rem, RunTo, Blocks;
    hide WrongAt;
    BreakAtEnd(v, node, offset, size, x);
    BreakAfter(v, node, offset, size, BlockCount(v, size) - 1);
  }

  /** The byte where the file goes on to a block that does not follow on the disk. */
  lemma BreakAfter(v: Volume, node: Inode, offset: nat, size: nat, j: nat)
    requires v.Ok() && node.Ok() && j < BlockCount(v, size) && Rem(offset, v.bs) != 0
    requires j * v.bs + (v.bs - Rem(offset, v.bs)) < size
    requires RunTo(Blocks(v, node, Quo(offset, v.bs), BlockCount(v, size)), j)
    requires node.BlockOf(v, Quo(offset, v.bs) + j + 1) != node.BlockOf(v, Quo(offset, v.bs) + j) + 1
    ensures WrongAt(v, node, offset, size, j * v.bs + (v.bs - Rem(offset, v.bs)))
  {
    hide Inode.BlockOf, Volume.Addr, Volume.Sector, ReadPlan, FileAddr, BlockCount, Quo, Rem, RunTo, Blocks;
    PlannedVsFile(v, node, offset, size, j, v.bs - Rem(offset, v.bs));
    var b := node.BlockOf(v, Quo(offset, v.bs) + j);
    NextSector(v, b);
    AddrInjective(v, b + 1, node.BlockOf(v, Quo(offset, v.bs) + j + 1));
  }

  /** An unaligned read over blocks that are not contiguous fetches some byte from a wrong place. */
  lemma PlanWrong(v: Volume, node: Inode, offset: nat, size: nat)
    requires v.Ok() && node.Ok() && 0 < size && Rem(offset, v.bs) != 0
    requires !Contiguous(v, node, Quo(offset, v.bs), Quo(offset + size - 1, v.bs))
    ensures exists d: nat :: WrongAt(v, node, offset, size, d)
  {
    hide Inode.BlockOf, WrongAt, BlockCount, Quo, Rem, Blocks, RunTo;
    var first, n := Quo(offset, v.bs), BlockCount(v, size);
    var bl := Blocks(v, node, first, n);
    if !RunTo(bl, n) {
      var j := SomeBreak(bl, n);
      InnerBreak(v, node, offset, size, j);
    } else {
      var x: nat :| first < x <= Quo(offset + size - 1, v.bs) && node.BlockOf(v, x) != node.BlockOf(v, x - 1) + 1;
      EndBreak(v, node, offset, size, x);
    }
  }

  lemma SomeBreak(bl: seq<nat>, n: nat) returns (j: nat)
    requires !RunTo(bl, n)
    ensures 0 < j <= n && j < |bl| && bl[j] != bl[j - 1] + 1
  {
    j :| 0 < j <= n && j < |bl| && bl[j] != bl[j - 1] + 1;
  }

  lemma AddrInjective(v: Volume, a: nat, b: nat)
    requires v.Ok() && a != b
    ensures v.Addr(a) != v.Addr(b)
  {
    SectorInjective(v, a, b);
  }

  lemma BreakAtEnd(v: Volume, node: Inode, offset: nat, size: nat, x: nat)
    requires v.Ok() && node.Ok() && 0 < size
    requires Quo(offset, v.bs) < x <= Quo(offset + size - 1, v.bs) && node.BlockOf(v, x) != node.BlockOf(v, x - 1) + 1
    requires RunTo(Blocks(v, node, Quo(offset, v.bs), BlockCount(v, size)), BlockCount(v, size))
    ensures x == Quo(offset, v.bs) + BlockCount(v, size)
    ensures (BlockCount(v, size) - 1) * v.bs + (v.bs - Rem(offset, v.bs)) < size
    ensures 0 < BlockCount(v, size) && RunTo(Blocks(v, node, Quo(offset, v.bs), BlockCount(v, size)), BlockCount(v, size) - 1)
  {
    hide Inode.BlockOf, BlockCount;
    var first, o, n := Quo(offset, v.bs), Rem(offset, v.bs), BlockCount(v, size);
    var bl := Blocks(v, node, first, n);
    var last := Quo(offset + size - 1, v.bs);
    CountSpans(v, size);
    forall y: nat | first < y < first + n
      ensures node.BlockOf(v, y) == node.BlockOf(v, y - 1) + 1
    {
      var j := y - first;
      assert bl[j] == node.BlockOf(v, first + j) && bl[j - 1] == node.BlockOf(v, first + (j - 1));
    }
    EndBounds(v.bs, offset, first, o, size, n, last, x);
  }

  lemma EndBounds(bs: nat, offset: nat, first: nat, o: nat, size: nat, n: nat, last: nat, x: nat)
    requires 0 < bs && offset == first * bs + o && o < bs && 0 < size && 0 < n && size <= n * bs
    requires last == Quo(offset + size - 1, bs) && first + n <= x <= last
    ensures x == first + n && (n - 1) * bs + (bs - o) < size
  {
    var r := Rem(offset + size - 1, bs);
    assert offset + size - 1 == last * bs + r;
    MulMono(x, last, bs);
    MulAdd(n - 1, bs);
    assert (first + n) * bs == first * bs + n * bs;
    MulMono(first + n, x, bs);
    MulAdd(first + n, bs);
    if first + n + 1 <= x {
      MulMono(first + n + 1, x, bs);
    }
  }

  /** The exact condition under which the driver reads the file. */
  lemma ReadIsFileIff(v: Volume, node: Inode, offset: nat, size: nat)
    requires v.Ok() && node.Ok() && 0 < size
    ensures size <= |ReadPlan(v, node, offset, size)|
    ensures (forall d :: 0 <= d < size ==> ReadPlan(v, node, offset, size)[d] == FileAddr(v, node, offset + d)) <==>
            Faithful(v, node, offset, size)
  {
    hide ReadPlan, FileAddr, Contiguous, Rem, Quo;
    PlanLength(v, node, offset, size);
    if Rem(offset, v.bs) == 0 || Contiguous(v, node, Quo(offset, v.bs), Quo(offset + size - 1, v.bs)) {
      forall d | 0 <= d < size
        ensures ReadPlan(v, node, offset, size)[d] == FileAddr(v, node, offset + d)
      {
        PlanRight(v, node, offset, size, d);
      }
    } else {
      PlanWrong(v, node, offset, size);
      var d: nat :| WrongAt(v, node, offset, size, d);
      assert ReadPlan(v, node, offset, size)[d] != FileAddr(v, node, offset + d);
    }
  }

  lemma PlanLength(v: Volume, node: Inode, offset: nat, size: nat)
    requires v.Ok() && node.Ok() && 0 < size
    ensures size <= |ReadPlan(v, node, offset, size)|
  {
    CountSpans(v, size);
  }

  // ---------------------------------------------------------------- the layout on the disk

  /** The four bytes at `a`, lowest first, are those of `x`. */
  ghost predicate WordAt(disk: seq<Byte>, a: nat, x: nat) {
    && a + 4 <= |disk| && disk[a] == x % 0x100 && disk[a + 1] == x / 0x100 % 0x100
    && disk[a + 2] == x / 0x1_0000 % 0x100 && disk[a + 3] == x / 0x100_0000
  }

  /** Block `b` holds logical block `n`: the inode names it, or a block of pointers on the volume of `bs`-byte blocks
      that starts at sector `base` does, or a block of pointers that is named by one. */
  ghost predicate Located(disk: seq<Byte>, base: nat, bs: nat, node: Inode, n: nat, b: nat)
    requires node.Ok() && 4 <= bs
  {
    if n < 12 then b == node.direct[n]
    else if n - 12 < bs / 4 then node.single != 0 && WordAt(disk, base * 512 + node.single * bs + 4 * (n - 12), b)
    else
      var m := n - 12 - bs / 4;
      node.double != 0
      && exists s: nat :: s != 0 && WordAt(disk, base * 512 + node.double * bs + 4 * (Quo(m, bs / 4)), s)
                          && WordAt(disk, base * 512 + s * bs + 4 * (Rem(m, bs / 4)), b)
  }

  /** Byte `x` of the file is stored on the disk, and is `c`. */
  ghost predicate Stored(disk: seq<Byte>, base: nat, bs: nat, node: Inode, x: nat, c: Byte)
    requires node.Ok() && 4 <= bs
  {
    exists b: nat :: Located(disk, base, bs, node, Quo(x, bs), b) && base * 512 + b * bs + Rem(x, bs) < |disk|
                     && c == disk[base * 512 + b * bs + Rem(x, bs)]
  }

  /** The buffer holds the bytes stored for the `size` bytes from `offset`, as far as they lie in reach. */
  ghost predicate AllStored(disk: seq<Byte>, base: nat, bs: nat, node: Inode, offset: nat, size: nat, buf: seq<Byte>)
    requires node.Ok() && 4 <= bs
  {
    size <= |buf| && forall d :: 0 <= d < size && Quo(offset + d, bs) < 12 + bs / 4 + bs / 4 * (bs / 4) ==>
      Stored(disk, base, bs, node, offset + d, buf[d])
  }

  lemma EnoughBytes(v: Volume)
    requires v.Ok()
    ensures 4 <= v.bs
  {
  }

  lemma AddrIs(v: Volume, b: nat)
    requires v.Ok()
    ensures v.Addr(b) == v.base * 512 + b * v.bs
  {
    var s := v.bs / 512;
    assert v.bs == 512 * s;
    assert b * s * 512 == b * (512 * s);
  }

  /** A pointer is the number whose bytes stand in its place. */
  lemma PtrIs(v: Volume, b: nat, i: nat, x: nat)
    requires v.Ok() && v.Ptr(b, i) != 0
    ensures WordAt(v.disk, v.base * 512 + b * v.bs + 4 * i, x) <==> x == v.Ptr(b, i)
  {
    AddrIs(v, b);
    WordIs(v, v.Addr(b) + 4 * i, x);
  }

  lemma WordIs(v: Volume, a: nat, x: nat)
    requires a + 4 <= |v.disk|
    ensures WordAt(v.disk, a, x) <==> x == v.U32(a)
  {
    var y := v.U32(a);
    var b0: int, b1: int, b2: int, b3: int := v.disk[a], v.disk[a + 1], v.disk[a + 2], v.disk[a + 3];
    DivideBy(y, 0x100, b1 + 0x100 * b2 + 0x1_0000 * b3, b0);
    DivideBy(y, 0x1_0000, b2 + 0x100 * b3, b0 + 0x100 * b1);
    DivideBy(y, 0x100_0000, b3, b0 + 0x100 * b1 + 0x1_0000 * b2);
    DivideBy(b1 + 0x100 * b2 + 0x1_0000 * b3, 0x100, b2 + 0x100 * b3, b1);
    DivideBy(b2 + 0x100 * b3, 0x100, b3, b2);
    if WordAt(v.disk, a, x) {
      FourBytes(x);
    }
  }

  lemma FourBytes(x: nat)
    ensures x == x % 0x100 + 0x100 * (x / 0x100 % 0x100) + 0x1_0000 * (x / 0x1_0000 % 0x100) + 0x100_0000 * (x / 0x100_0000)
  {
    var y := x / 0x100;
    var z := y / 0x100;
    DivideBy(x, 0x1_0000, z, 0x100 * (y % 0x100) + x % 0x100);
    DivideBy(x, 0x100_0000, z / 0x100, 0x1_0000 * (z % 0x100) + 0x100 * (y % 0x100) + x % 0x100);
  }

  /** The block map is the one on the disk. */
  lemma LocatedIff(v: Volume, node: Inode, n: nat, b: nat)
    requires v.Ok() && node.Ok() && n < node.Reach(v) && node.BlockOf(v, n) != 0
    ensures Located(v.disk, v.base, v.bs, node, n, b) <==> b == node.BlockOf(v, n)
  {
    hide WordAt;
    var p := v.Ptrs();
    if 12 <= n < 12 + p {
      PtrIs(v, node.single, n - 12, b);
    } else if 12 + p <= n {
      var m := n - 12 - p;
      var q, r := Quo(m, p), Rem(m, p);
      var s := v.Ptr(node.double, q);
      var a := v.base * 512 + node.double * v.bs + 4 * q;
      forall x: nat
        ensures WordAt(v.disk, a, x) <==> x == s
      {
        PtrIs(v, node.double, q, x);
      }
      PtrIs(v, s, r, b);
    }
  }

  lemma StoredAt(disk: seq<Byte>, base: nat, bs: nat, node: Inode, x: nat, b: nat, c: Byte)
    requires node.Ok() && 4 <= bs && Located(disk, base, bs, node, Quo(x, bs), b)
    requires base * 512 + b * bs + Rem(x, bs) < |disk| && c == disk[base * 512 + b * bs + Rem(x, bs)]
    ensures Stored(disk, base, bs, node, x, c)
  {
    hide Located, Quo, Rem;
  }

  /** A buffer that holds the file holds, for each byte, the one that the layout of the disk gives. */
  lemma HoldsStored(v: Volume, node: Inode, offset: nat, size: nat, buf: seq<Byte>, d: nat)
    requires v.Ok() && node.Ok() && HoldsFile(v, node, offset, size, buf) && d < size <= |buf|
    requires Quo(offset + d, v.bs) < node.Reach(v) && node.BlockOf(v, Quo(offset + d, v.bs)) != 0
    ensures Stored(v.disk, v.base, v.bs, node, offset + d, buf[d])
  {
    hide Located, Inode.BlockOf, Stored, Inode.Reach, Quo, Rem;
    var x := offset + d;
    var b := node.BlockOf(v, Quo(x, v.bs));
    LocatedIff(v, node, Quo(x, v.bs), b);
    AddrIs(v, b);
    hide Volume.Addr;
    StoredAt(v.disk, v.base, v.bs, node, x, b, buf[d]);
  }

  /** No block that a faithful read covers is a hole. */
  lemma {:induction false} ReadNoHole(v: Volume, node: Inode, offset: nat, size: nat, x: nat)
    requires v.Ok() && node.Ok() && 0 < size && offset <= x < offset + size
    requires Faithful(v, node, offset, size) && Walkable(v, node, offset, size)
    ensures node.BlockOf(v, Quo(x, v.bs)) != 0
  {
    hide Inode.BlockOf, PointersOnDisk;
    var first, b := Quo(offset, v.bs), Quo(x, v.bs);
    CountSpans(v, size);
    QuoMono(offset, x, v.bs);
    QuoMono(x, offset + size - 1, v.bs);
    if b < first + BlockCount(v, size) {
      assert node.BlockOf(v, b) != 0;
    } else {
      if Rem(offset, v.bs) == 0 {
        WithinCount(v, offset, size, x);
      }
      assert node.BlockOf(v, b) == node.BlockOf(v, b - 1) + 1;
    }
  }

  lemma FileIsStored(v: Volume, node: Inode, offset: nat, size: nat, buf: seq<Byte>)
    requires v.Ok() && node.Ok() && 0 < size && HoldsFile(v, node, offset, size, buf)
    requires Faithful(v, node, offset, size) && Walkable(v, node, offset, size)
    ensures 4 <= v.bs && AllStored(v.disk, v.base, v.bs, node, offset, size, buf)
  {
    hide Stored, HoldsFile, Faithful, Walkable, Inode.BlockOf, Quo;
    assert size <= |buf| by {
      BufferHolds(v, node, offset, size, buf);
    }
    forall d | 0 <= d < size && Quo(offset + d, v.bs) < node.Reach(v)
      ensures Stored(v.disk, v.base, v.bs, node, offset + d, buf[d])
    {
      ReadNoHole(v, node, offset, size, offset + d);
      HoldsStored(v, node, offset, size, buf, d);
    }
  }

  lemma BufferHolds(v: Volume, node: Inode, offset: nat, size: nat, buf: seq<Byte>)
    requires v.Ok() && node.Ok() && HoldsFile(v, node, offset, size, buf)
    ensures size <= |buf|
  {
  }

  lemma QuoMono(a: nat, b: nat, n: nat)
    requires 0 < n && a <= b
    ensures Quo(a, n) <= Quo(b, n)
  {
    if Quo(b, n) < Quo(a, n) {
      MulAdd(Quo(b, n), n);
      MulMono(Quo(b, n) + 1, Quo(a, n), n);
    }
  }

  lemma WithinCount(v: Volume, offset: nat, size: nat, x: nat)
    requires v.Ok() && 0 < size && offset <= x < offset + size && Rem(offset, v.bs) == 0
    ensures Quo(x, v.bs) < Quo(offset, v.bs) + BlockCount(v, size)
  {
    CountSpans(v, size);
    var f, b, n := Quo(offset, v.bs), Quo(x, v.bs), BlockCount(v, size);
    assert offset == f * v.bs && x >= b * v.bs;
    hide Quo, Rem, BlockCount;
    assert (f + n) * v.bs == f * v.bs + n * v.bs;
    if f + n <= b {
      MulMono(f + n, b, v.bs);
    }
  }

  /** A disk of ten blocks of 1 KiB, every byte of which is the number of its block, and a file in blocks 5 and 9. */
  function TenBlocks(): (v: Volume)
    ensures v.Ok() && |v.disk| == 10240
  {
    Volume(seq(10240, a requires 0 <= a < 10240 => a / 1024), 0, 1024)
  }

  const TWO_BLOCK_FILE := Inode([5, 9, 0, 0, 0, 0, 0, 0, 0, 0, 0, 0], 0, 0, 2048)

  lemma TwoBlockPlan(d: nat)
    requires d < 1024
    ensures d < |ReadPlan(TenBlocks(), TWO_BLOCK_FILE, 1, 1024)|
    ensures ReadPlan(TenBlocks(), TWO_BLOCK_FILE, 1, 1024)[d] == 5 * 1024 + 1 + d
    ensures FileAddr(TenBlocks(), TWO_BLOCK_FILE, 1024) == 9 * 1024
  {
    var v, node := TenBlocks(), TWO_BLOCK_FILE;
    assert BlockCount(v, 1024) == 1 && Quo(1, 1024) == 0 && Rem(1, 1024) == 1;
    var bl := Blocks(v, node, 0, 1);
    assert bl[0] == node.BlockOf(v, 0) == 5;
    WantAt(v, bl, 1, 0, d);
  }

  /** One concrete failure: reading 1024 bytes from offset 1 succeeds, and the last byte delivered comes from block 6
      where the file goes on in block 9. */
  method UnalignedReadFails() returns (err: Error, got: Byte, stored: Byte)
    ensures err == NoError && got == 6 && stored == 9
    ensures stored == TenBlocks().disk[FileAddr(TenBlocks(), TWO_BLOCK_FILE, 1 + 1023)]
  {
    hide Walkable, PlanOnDisk, ReadPlan, FileAddr, Faithful, Quo, BlockCount, Mapped;
    var v, node := TenBlocks(), TWO_BLOCK_FILE;
    TwoBlockReadable();
    TwoBlockPlan(1023);
    var buffer := new Byte[1024](_ => 0);
    err := InodeReadContent(v, node, 1, 1024, buffer);
    got, stored := buffer[..][1023], v.disk[9 * 1024];
  }

  lemma TwoBlockReadable()
    ensures Quo(1, 1024) + BlockCount(TenBlocks(), 1024) == 1 && Walkable(TenBlocks(), TWO_BLOCK_FILE, 1, 1024)
    ensures 1024 <= |ReadPlan(TenBlocks(), TWO_BLOCK_FILE, 1, 1024)| && PlanOnDisk(TenBlocks(), TWO_BLOCK_FILE, 1, 1024)
  {
    var v, node := TenBlocks(), TWO_BLOCK_FILE;
    assert BlockCount(v, 1024) == 1 && Quo(1, 1024) == 0;
    hide ReadPlan, PointersOnDisk, Mapped;
    assert Blocks(v, node, 0, 1)[0] == node.BlockOf(v, 0);
    EndsEarly(v, node, 0, 1);
    PlanLength(v, node, 1, 1024);
    forall d | 0 <= d < 1024
      ensures ReadPlan(v, node, 1, 1024)[d] < |v.disk|
    {
      TwoBlockPlan(d);
    }
  }
}
