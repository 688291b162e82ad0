/** The kernel's virtual-memory list (memory/kvmheap.c): areas reserved first fit and merged when freed. */
module KvmSpec {
  import opened Machine

  const LOW := 0xE080_0000   // FREE_KVM_START
  const HIGH := 0xFFFF_FFFF

  datatype Area = Area(base: int, size: int, used: bool) {
    function End(): int {
      base + size
    }
  }

  const INITIAL := [Area(LOW, HIGH - LOW, false)]

  /** The areas lie end to end, each starting on a page. */
  ghost predicate Tiles(as_: seq<Area>) {
    && |as_| > 0 && as_[0].base == LOW && as_[|as_| - 1].End() == HIGH
    && (forall i :: 0 <= i < |as_| ==> 0 <= as_[i].size && as_[i].base % 4096 == 0)
    && (forall i :: 0 < i < |as_| ==> as_[i - 1].End() == as_[i].base)
  }

  /** No two neighbours are free, except perhaps next to area `k`. */
  ghost predicate ApartBut(as_: seq<Area>, k: int) {
    forall i :: 0 < i < |as_| && i != k && i - 1 != k ==> as_[i - 1].used || as_[i].used
  }

  ghost predicate Inv(as_: seq<Area>) {
    Tiles(as_) && forall i :: 0 < i < |as_| ==> as_[i - 1].used || as_[i].used
  }

  // ---------------------------------------------------------------- reserving

  predicate Fits(a: Area, size: int) {
    !a.used && a.size >= size
  }

  function FirstFit(as_: seq<Area>, size: int): (k: nat)
    ensures k <= |as_| && (k < |as_| ==> Fits(as_[k], size))
    ensures forall i :: 0 <= i < k ==> !Fits(as_[i], size)
  {
    FirstThat(as_, (a: Area) => Fits(a, size))
  }

  /** Area `k` split: `size` bytes reserved, the rest, possibly empty, free behind it. */
  function Split(as_: seq<Area>, k: nat, size: int): seq<Area>
    requires k < |as_|
  {
    as_[..k] + [Area(as_[k].base, size, true), Area(as_[k].base + size, as_[k].size - size, false)] + as_[k + 1..]
  }

  lemma SplitInv(as_: seq<Area>, k: nat, size: int)
    requires Inv(as_) && k < |as_| && Fits(as_[k], size) && 0 <= size && size % 4096 == 0
    ensures Inv(Split(as_, k, size))
  {
    var bs := Split(as_, k, size);
    forall i | 0 <= i < |bs|
      ensures bs[i] == if i < k then as_[i] else if i > k + 1 then as_[i - 1] else bs[i]
      ensures 0 <= bs[i].size && bs[i].base % 4096 == 0
    {
    }
    forall i | 0 < i < |bs|
      ensures bs[i - 1].End() == bs[i].base && (bs[i - 1].used || bs[i].used)
    {
    }
  }

  /** The area reserved for `size` bytes holds them and less than a page more, unless rounding wraps. */
  lemma TakenArea(as_: seq<Area>, k: nat, size: Word)
    requires k < |as_|
    ensures var n := AlignUp(size, 4096);
            PageRounded(n, size) && Area(as_[k].base, n, true) in Split(as_, k, n)
  {
    RoundsToPages(size);
    var n := AlignUp(size, 4096);
    assert Split(as_, k, n)[k] == Area(as_[k].base, n, true);
  }

  // ---------------------------------------------------------------- freeing

  /** Area `i` takes in area `i + 1`. */
  function Join(as_: seq<Area>, i: nat): seq<Area>
    requires i + 1 < |as_|
  {
    as_[..i] + [as_[i].(size := as_[i].size + as_[i + 1].size)] + as_[i + 2..]
  }

  /** The backward merging loop: where area `k` ends up, and in which list. */
  function JoinLeft(as_: seq<Area>, k: nat): (r: (seq<Area>, nat))
    requires k < |as_|
    ensures r.1 < |r.0|
    decreases k
  {
    if k > 0 && !as_[k - 1].used then JoinLeft(Join(as_, k - 1), k - 1) else (as_, k)
  }

  /** The forward merging loop. */
  function JoinRight(as_: seq<Area>, k: nat): seq<Area>
    requires k < |as_|
    decreases |as_|
  {
    if k + 1 < |as_| && !as_[k + 1].used then JoinRight(Join(as_, k), k) else as_
  }

  function FreeAt(as_: seq<Area>, k: nat): seq<Area>
    requires k < |as_|
  {
    var (bs, j) := JoinLeft(as_[k := as_[k].(used := false)], k);
    JoinRight(bs, j)
  }

  /** The first area that starts at `base`. */
  function Find(as_: seq<Area>, base: int): (k: nat)
    ensures k <= |as_| && (k < |as_| ==> as_[k].base == base)
    ensures forall i :: 0 <= i < k ==> as_[i].base != base
  {
    if as_ == [] || as_[0].base == base then 0 else 1 + Find(as_[1..], base)
  }

  lemma JoinKeeps(as_: seq<Area>, i: nat, k: nat)
    requires Tiles(as_) && i + 1 < |as_| && (k == i || k == i + 1) && ApartBut(as_, k) && !as_[i].used && !as_[i + 1].used
    ensures Tiles(Join(as_, i)) && ApartBut(Join(as_, i), i) && !Join(as_, i)[i].used
  {
    var bs := Join(as_, i);
    forall j | 0 <= j < |bs|
      ensures bs[j] == if j < i then as_[j] else if j > i then as_[j + 1] else bs[j]
      ensures 0 <= bs[j].size && bs[j].base % 4096 == 0
    {
    }
    forall j | 0 < j < |bs|
      ensures bs[j - 1].End() == bs[j].base
    {
    }
  }

  lemma {:induction false} JoinLeftKeeps(as_: seq<Area>, k: nat)
    requires Tiles(as_) && k < |as_| && ApartBut(as_, k) && !as_[k].used
    ensures var (bs, j) := JoinLeft(as_, k);
            Tiles(bs) && ApartBut(bs, j) && !bs[j].used && (j > 0 ==> bs[j - 1].used)
    decreases k
  {
    if k > 0 && !as_[k - 1].used {
      JoinKeeps(as_, k - 1, k);
      JoinLeftKeeps(Join(as_, k - 1), k - 1);
    }
  }

  lemma {:induction false} JoinRightKeeps(as_: seq<Area>, k: nat)
    requires Tiles(as_) && k < |as_| && ApartBut(as_, k) && !as_[k].used && (k > 0 ==> as_[k - 1].used)
    ensures Inv(JoinRight(as_, k))
    decreases |as_|
  {
    if k + 1 < |as_| && !as_[k + 1].used {
      JoinKeeps(as_, k, k);
      JoinRightKeeps(Join(as_, k), k);
    }
  }

  lemma FreeInv(as_: seq<Area>, k: nat)
    requires Inv(as_) && k < |as_|
    ensures Inv(FreeAt(as_, k))
  {
    var cs := as_[k := as_[k].(used := false)];
    assert Tiles(cs) && ApartBut(cs, k);
    JoinLeftKeeps(cs, k);
    var (bs, j) := JoinLeft(cs, k);
    JoinRightKeeps(bs, j);
  }

  // ---------------------------------------------------------------- reserve, then free

  lemma {:induction false} BasesGrow(as_: seq<Area>, i: nat, j: nat)
    requires Tiles(as_) && i <= j < |as_|
    ensures as_[i].base <= as_[j].base && (i < j ==> as_[i].End() <= as_[j].base)
    decreases j
  {
    if i < j {
      BasesGrow(as_, i, j - 1);
    }
  }

  /** Looking an area up by address finds it exactly when no empty area sits in front of it. */
  lemma FindIff(as_: seq<Area>, k: nat)
    requires Tiles(as_) && k < |as_|
    ensures Find(as_, as_[k].base) == k <==> k == 0 || as_[k - 1].size > 0
  {
    var f := Find(as_, as_[k].base);
    if k > 0 {
      assert as_[k - 1].End() == as_[k].base;
      if f < k {
        BasesGrow(as_, f, k - 1);
      }
    }
  }

  /** Freeing what was just reserved restores the list, after an exact fit too. */
  lemma ReserveFree(as_: seq<Area>, size: int)
    requires Inv(as_) && (forall i :: 0 <= i < |as_| ==> as_[i].size > 0)
    requires 0 <= size && size % 4096 == 0 && FirstFit(as_, size) < |as_|
    ensures var k := FirstFit(as_, size);
            var bs := Split(as_, k, size);
            Find(bs, as_[k].base) == k && FreeAt(bs, k) == as_
  {
    hide Split, Join;
    var k := FirstFit(as_, size);
    var bs := Split(as_, k, size);
    SplitInv(as_, k, size);
    SplitAt(as_, k, size);
    assert k > 0 ==> bs[k - 1] == as_[k - 1] && as_[k - 1].used;
    FindIff(bs, k);
    var cs := bs[k := bs[k].(used := false)];
    JoinBack(as_, k, size);
    assert cs == bs[k := Area(as_[k].base, size, false)];
    assert k + 1 < |as_| ==> as_[k + 1].used;
    assert JoinLeft(cs, k) == (cs, k);
    assert JoinRight(cs, k) == JoinRight(as_, k) == as_;
  }

  lemma SplitAt(as_: seq<Area>, k: nat, size: int)
    requires k < |as_|
    ensures |Split(as_, k, size)| == |as_| + 1 && Split(as_, k, size)[k] == Area(as_[k].base, size, true)
    ensures k > 0 ==> Split(as_, k, size)[k - 1] == as_[k - 1]
  {
  }

  lemma JoinBack(as_: seq<Area>, k: nat, size: int)
    requires k < |as_| && !as_[k].used
    ensures var cs := Split(as_, k, size)[k := Area(as_[k].base, size, false)];
            k + 1 < |cs| && !cs[k + 1].used && Join(cs, k) == as_ && (k > 0 ==> cs[k - 1] == as_[k - 1])
  {
    var cs := Split(as_, k, size)[k := Area(as_[k].base, size, false)];
    assert cs[k + 2..] == as_[k + 1..] && cs[..k] == as_[..k];
    assert as_ == as_[..k] + [as_[k]] + as_[k + 1..];
  }

  // ---------------------------------------------------------------- runs

  datatype Op = Reserve(size: Word) | Free(base: int)

  /** One call; None is a fatal exit. */
  function Step(as_: seq<Area>, op: Op): Option<seq<Area>> {
    match op
    case Reserve(size) =>
      var k := FirstFit(as_, AlignUp(size, 4096));
      if k < |as_| then Some(Split(as_, k, AlignUp(size, 4096))) else None
    case Free(base) =>
      var k := Find(as_, base);
      if k < |as_| then Some(FreeAt(as_, k)) else None
  }

  function Perform(as_: seq<Area>, ops: seq<Op>): Option<seq<Area>>
    decreases |ops|
  {
    if ops == [] then Some(as_)
    else
      match Step(as_, ops[0])
      case None => None
      case Some(bs) => Perform(bs, ops[1..])
  }

  /** The invariant holds throughout every run. */
  lemma {:induction false} RunsKeepInv(as_: seq<Area>, ops: seq<Op>)
    requires Inv(as_)
    ensures Perform(as_, ops).Some? ==> Inv(Perform(as_, ops).value)
    decreases |ops|
  {
    if ops != [] && Step(as_, ops[0]).Some? {
      hide Inv;
      match ops[0] {
        case Reserve(size) => SplitInv(as_, FirstFit(as_, AlignUp(size, 4096)), AlignUp(size, 4096));
        case Free(base) => FreeInv(as_, Find(as_, base));
      }
      RunsKeepInv(Step(as_, ops[0]).value, ops[1..]);
    }
  }

  /** After two reservations, a free and an exact fit, the second reservation can no longer be freed:
      its address leads to the empty area in front of it. */
  lemma ShadowedFree()
    ensures var l3 := [Area(LOW, 4096, true), Area(LOW + 4096, 0, false), Area(LOW + 4096, 4096, true),
                       Area(LOW + 8192, HIGH - LOW - 8192, false)];
            && Perform(INITIAL, [Reserve(4096), Reserve(4096), Free(LOW), Reserve(4096)]) == Some(l3)
            && Step(l3, Free(LOW + 4096)) == Some(l3)
  {
    var rest := Area(LOW + 8192, HIGH - LOW - 8192, false);
    var l1 := [Area(LOW, 4096, true), Area(LOW + 4096, HIGH - LOW - 4096, false)];
    var l2 := [Area(LOW, 4096, true), Area(LOW + 4096, 4096, true), rest];
    var l2' := [Area(LOW, 4096, false), Area(LOW + 4096, 4096, true), rest];
    var l3 := [Area(LOW, 4096, true), Area(LOW + 4096, 0, false), Area(LOW + 4096, 4096, true), rest];
    assert AlignUp(4096, 4096) == 4096;
    assert Step(INITIAL, Reserve(4096)) == Some(l1) by {
      assert FirstFit(INITIAL, 4096) == 0 && Split(INITIAL, 0, 4096) == l1;
    }
    assert Step(l1, Reserve(4096)) == Some(l2) by {
      assert !Fits(l1[0], 4096) && Fits(l1[1], 4096);
      assert FirstFit(l1, 4096) == 1 && Split(l1, 1, 4096) == l2;
    }
    assert Step(l2, Free(LOW)) == Some(l2') by {
      assert Find(l2, LOW) == 0 && l2[0 := Area(LOW, 4096, false)] == l2';
      assert JoinLeft(l2', 0) == (l2', 0) && JoinRight(l2', 0) == l2';
    }
    assert Step(l2', Reserve(4096)) == Some(l3) by {
      assert FirstFit(l2', 4096) == 0 && Split(l2', 0, 4096) == l3;
    }
    var ops := [Reserve(4096), Reserve(4096), Free(LOW), Reserve(4096)];
    assert ops[1..] == [Reserve(4096), Free(LOW), Reserve(4096)] && ops[1..][1..] == [Free(LOW), Reserve(4096)];
    assert ops[1..][1..][1..] == [Reserve(4096)] && ops[1..][1..][1..][1..] == [];
    assert Perform(l3, []) == Some(l3);
    assert Perform(l2', [Reserve(4096)]) == Some(l3);
    assert Perform(l2, [Free(LOW), Reserve(4096)]) == Some(l3);
    assert Perform(l1, [Reserve(4096), Free(LOW), Reserve(4096)]) == Some(l3);
    assert Step(l3, Free(LOW + 4096)) == Some(l3) by {
      assert Find(l3, LOW + 4096) == 1 && l3[1 := Area(LOW + 4096, 0, false)] == l3;
      assert JoinLeft(l3, 1) == (l3, 1) && JoinRight(l3, 1) == l3;
    }
  }
}

/** The doubly linked nodes behind the list. */
module KvmHeap {
  import opened Machine
  import opened KvmSpec

  class VmBlock {
    var vaddr: int
    var size: int
    var used: bool
    var next: VmBlock?
    var prev: VmBlock?

    constructor (vaddr: int, size: int, next: VmBlock?, prev: VmBlock?)
      ensures this.vaddr == vaddr && this.size == size && !used && this.next == next && this.prev == prev
    {
      this.vaddr, this.size, this.used, this.next, this.prev := vaddr, size, false, next, prev;
    }

    ghost predicate Is(a: Area)
      reads this
    {
      vaddr == a.base && size == a.size && used == a.used
    }
  }

  function Inserted<T>(s: seq<T>, k: nat, x: T): (r: seq<T>)
    requires k < |s|
    ensures |r| == |s| + 1 && r[k + 1] == x
    ensures forall i :: 0 <= i <= k ==> r[i] == s[i]
    ensures forall i :: k + 1 < i < |r| ==> r[i] == s[i - 1]
  {
    s[..k + 1] + [x] + s[k + 1..]
  }

  function Removed<T>(s: seq<T>, k: nat): (r: seq<T>)
    requires k < |s|
    ensures |r| == |s| - 1
    ensures forall i :: 0 <= i < k ==> r[i] == s[i]
    ensures forall i :: k <= i < |r| ==> r[i] == s[i + 1]
  {
    s[..k] + s[k + 1..]
  }

  lemma SplitIsInsert(as_: seq<Area>, k: nat, size: int)
    requires k < |as_|
    ensures var a := as_[k];
            Split(as_, k, size) == Inserted(as_[k := Area(a.base, size, true)], k, Area(a.base + size, a.size - size, false))
  {
  }

  lemma JoinIsRemove(as_: seq<Area>, i: nat)
    requires i + 1 < |as_|
    ensures Join(as_, i) == Removed(as_[i := as_[i].(size := as_[i].size + as_[i + 1].size)], i + 1)
  {
  }

  /** Neighbour of index `i` in `ns`, or null at the ends. */
  ghost function Nth(ns: seq<VmBlock>, i: int): VmBlock? {
    if 0 <= i < |ns| then ns[i] else null
  }

  ghost predicate NodeOk(ns: seq<VmBlock>, as_: seq<Area>, i: int)
    requires 0 <= i < |ns| == |as_|
    reads ns[i]
  {
    ns[i].next == Nth(ns, i + 1) && ns[i].prev == Nth(ns, i - 1) && ns[i].Is(as_[i])
  }

  ghost predicate Distinct(ns: seq<VmBlock>) {
    forall i, j :: 0 <= i < j < |ns| ==> ns[i] != ns[j]
  }

  class KvmList {
    var first: VmBlock?
    ghost var nodes: seq<VmBlock>
    ghost var areas: seq<Area>

    /** Along `nodes` next and prev are inverse to each other, and the fields are those of `areas`. */
    ghost predicate Linked()
      reads this, nodes
    {
      && |nodes| == |areas| > 0 && first == nodes[0] && Distinct(nodes)
      && forall i :: 0 <= i < |nodes| ==> NodeOk(nodes, areas, i)
    }

    ghost predicate Valid()
      reads this, nodes
    {
      Linked() && Inv(areas)
    }

    /** `kvmheap_install`. */
    constructor ()
      ensures Valid() && areas == INITIAL && fresh(nodes)
    {
      var b := new VmBlock(LOW, HIGH - LOW, null, null);
      first := b;
      nodes := [b];
      areas := INITIAL;
    }

    /** Hangs `nb`, whose own fields are set, behind node `k`. */
    method InsertAfter(curr: VmBlock, nb: VmBlock, ghost k: nat, ghost a: Area)
      requires Linked() && k < |nodes| && curr == nodes[k] && nb !in nodes
      requires nb.next == curr.next && nb.prev == curr && nb.Is(a)
      modifies this`nodes, this`areas, nodes`next, nodes`prev
      ensures Linked() && nodes == Inserted(old(nodes), k, nb) && areas == Inserted(old(areas), k, a)
    {
      hide Inserted;
      ghost var ns, as_ := nodes, areas;
      assert NodeOk(ns, as_, k);
      var next := curr.next;
      if next != null {
        next.prev := nb;
      }
      curr.next := nb;
      nodes := Inserted(ns, k, nb);
      areas := Inserted(as_, k, a);
      forall i | 0 <= i < |nodes|
        ensures NodeOk(nodes, areas, i)
      {
        if i <= k {
          assert old(NodeOk(ns, as_, i));
        } else if i > k + 1 {
          assert old(NodeOk(ns, as_, i - 1));
        }
      }
    }

    /** The body of the search loop of `kvm_reserve_block` once an area fits. */
    method Take(curr: VmBlock, sz: Word, ghost k: nat) returns (r: int)
      requires Valid() && k < |nodes| && curr == nodes[k] && Fits(areas[k], sz) && sz % 4096 == 0
      modifies this, nodes
      ensures Valid() && areas == Split(old(areas), k, sz) && r == old(areas)[k].base
      ensures forall n :: n in nodes ==> n in old(nodes) || fresh(n)
    {
      hide Inv, Split, Distinct, Inserted;
      ghost var as_ := areas;
      SplitInv(areas, k, sz);
      SplitIsInsert(areas, k, sz);
      assert NodeOk(nodes, areas, k);
      var newblock := new VmBlock(curr.vaddr + sz, curr.size - sz, curr.next, curr);
      curr.size := sz;
      curr.used := true;
      areas := areas[k := Area(as_[k].base, sz, true)];
      forall i | 0 <= i < |nodes|
        ensures NodeOk(nodes, areas, i)
      {
        assert old(NodeOk(nodes, areas, i));
        if i != k {
          Different(nodes, i, k);
        }
      }
      InsertAfter(curr, newblock, k, Area(as_[k].base + sz, as_[k].size - sz, false));
      r := curr.vaddr;
    }

    /** `kvm_reserve_block`. None is the fatal exit. */
    method Reserve(size: Word) returns (r: Option<int>)
      requires Valid()
      modifies this, nodes
      ensures Valid() && forall n :: n in nodes ==> n in old(nodes) || fresh(n)
      ensures match Step(old(areas), KvmSpec.Reserve(size))
              case None => r == None && areas == old(areas)
              case Some(as_) => areas == as_ && r == Some(old(areas)[FirstFit(old(areas), AlignUp(size, 4096))].base)
      ensures r.Some? ==> exists n: int :: PageRounded(n, size) && Area(r.value, n, true) in areas
    {
      hide Inv, Split, Distinct;
      var sz := AlignUp(size, 4096);
      var curr := first;
      ghost var k := 0;
      while curr != null
        invariant 0 <= k <= |nodes| && curr == Nth(nodes, k)
        invariant nodes == old(nodes) && areas == old(areas) && Valid()
        invariant forall i :: 0 <= i < k ==> !Fits(areas[i], sz)
        decreases |nodes| - k
      {
        assert NodeOk(nodes, areas, k);
        if !(curr.used || curr.size < sz) {
          TakenArea(areas, k, size);
          var p := Take(curr, sz, k);
          return Some(p);
        }
        curr, k := curr.next, k + 1;
      }
      r := None;
    }

    /** One merging step: `left` takes in its successor `right`. */
    method Absorb(left: VmBlock, right: VmBlock, ghost i: nat)
      requires Linked() && i + 1 < |nodes| && left == nodes[i] && right == nodes[i + 1]
      modifies this`nodes, this`areas, nodes
      ensures Linked() && nodes == Removed(old(nodes), i + 1) && areas == Join(old(areas), i)
    {
      hide Removed, Join;
      ghost var ns, as_ := nodes, areas;
      JoinIsRemove(areas, i);
      assert NodeOk(ns, as_, i) && NodeOk(ns, as_, i + 1);
      left.size := left.size + right.size;
      left.next := right.next;
      if left.next != null {
        left.next.prev := left;
      }
      nodes := Removed(ns, i + 1);
      areas := Join(as_, i);
      forall j | 0 <= j < |nodes|
        ensures NodeOk(nodes, areas, j)
      {
        if j <= i {
          assert old(NodeOk(ns, as_, j));
        } else {
          assert old(NodeOk(ns, as_, j + 1));
        }
      }
    }

    /** `kvm_free_block`. False is the fatal "unknown block". */
    method FreeBlock(base: int) returns (ok: bool)
      requires Valid()
      modifies this, nodes
      ensures Valid() && forall n :: n in nodes ==> n in old(nodes)
      ensures match Step(old(areas), KvmSpec.Free(base))
              case None => !ok && areas == old(areas)
              case Some(as_) => ok && areas == as_
    {
      hide Inv, FreeAt, Distinct;
      var curr := first;
      ghost var k := 0;
      while curr != null
        invariant 0 <= k <= |nodes| && curr == Nth(nodes, k)
        invariant nodes == old(nodes) && areas == old(areas) && Valid()
        invariant forall i :: 0 <= i < k ==> areas[i].base != base
        decreases |nodes| - k
      {
        assert NodeOk(nodes, areas, k);
        if curr.vaddr == base {
          FreeInv(areas, k);
          FreeNode(curr, k);
          return true;
        }
        curr, k := curr.next, k + 1;
      }
      ok := false;
    }

    /** Marking an area free and merging it, first backwards, then forwards. */
    method FreeNode(node: VmBlock, ghost k: nat)
      requires Linked() && k < |nodes| && node == nodes[k]
      modifies this`nodes, this`areas, nodes
      ensures Linked() && areas == FreeAt(old(areas), k) && forall n :: n in nodes ==> n in old(nodes)
    {
      hide Distinct, Removed, Join;
      var curr := node;
      assert NodeOk(nodes, areas, k);
      curr.used := false;
      areas := areas[k := areas[k].(used := false)];
      forall i | 0 <= i < |nodes|
        ensures NodeOk(nodes, areas, i)
      {
        assert old(NodeOk(nodes, areas, i));
        if i != k {
          Different(nodes, i, k);
        }
      }
      ghost var start, j := areas, k;
      var m := curr.prev;
      while m != null && !m.used
        invariant Linked() && 0 <= j < |nodes| && curr == nodes[j] && m == Nth(nodes, j - 1)
        invariant JoinLeft(areas, j) == JoinLeft(start, k) && forall i :: 0 <= i < |nodes| ==> nodes[i] in old(nodes)
        decreases j
      {
        assert NodeOk(nodes, areas, j - 1);
        ghost var ns := nodes;
        Absorb(m, curr, j - 1);
        Fewer(ns, j);
        curr, j := m, j - 1;
        assert NodeOk(nodes, areas, j);
        m := m.prev;
      }
      assert m != null ==> NodeOk(nodes, areas, j - 1);
      assert JoinLeft(start, k) == (areas, j);
      ghost var mid := areas;
      assert NodeOk(nodes, areas, j);
      m := curr.next;
      while m != null && !m.used
        invariant Linked() && j < |nodes| && curr == nodes[j] && m == Nth(nodes, j + 1)
        invariant JoinRight(areas, j) == JoinRight(mid, j) && forall i :: 0 <= i < |nodes| ==> nodes[i] in old(nodes)
        decreases |nodes|
      {
        assert NodeOk(nodes, areas, j + 1);
        ghost var ns := nodes;
        Absorb(curr, m, j);
        Fewer(ns, j + 1);
        assert NodeOk(nodes, areas, j);
        m := curr.next;
      }
      assert m != null ==> NodeOk(nodes, areas, j + 1);
      assert JoinRight(mid, j) == areas;
    }
  }

  lemma Fewer<T>(s: seq<T>, k: nat)
    requires k < |s|
    ensures forall x :: x in Removed(s, k) ==> x in s
  {
  }

  lemma Different(ns: seq<VmBlock>, i: nat, k: nat)
    requires Distinct(ns) && i < |ns| && k < |ns| && i != k
    ensures ns[i] != ns[k]
  {
  }
}
