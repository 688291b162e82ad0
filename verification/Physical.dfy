/** The physical block list of memory/physical.c: first fit from 1 MiB up, splitting in front. */
module Physical {
  import opened Machine

  const FREE := 1     // PHYS_FREE_BLOCK_TYPE
  const KERNELF := 11 // PHYS_KERNELF_BLOCK_TYPE
  const USER := 20    // PHYS_USER_BLOCK_TYPE
  const ONE_MIB := 0x10_0000

  datatype PBlock = PBlock(base: int, size: int, kind: int) {
    predicate Holds(a: int) {
      base <= a < base + size
    }
  }

  /** Sorted and non-overlapping up to 4 GiB; free blocks start on a page and end below 4 GiB. */
  ghost predicate ListOk(bs: seq<PBlock>) {
    && (forall i :: 0 <= i < |bs| ==> 0 <= bs[i].base && 0 <= bs[i].size && bs[i].base + bs[i].size <= TWO32)
    && (forall i :: 0 <= i < |bs| && bs[i].kind == FREE ==> bs[i].base % 4096 == 0 && bs[i].base + bs[i].size < TWO32)
    && (forall i, j :: 0 <= i < j < |bs| ==> bs[i].base + bs[i].size <= bs[j].base)
  }

  /** A memory map as boot leaves it: the kernel, the page heap and the kernel heap are reserved, and so is a
      firmware block that ends at 4 GiB. */
  const BOOT_LIST := [PBlock(0, 0x9_F000, FREE), PBlock(0xF_0000, 0x1_0000, 2), PBlock(0x10_0000, 0x30_0000, 10),
                      PBlock(0x40_0000, 0x40_0000, 10), PBlock(0x80_0000, 0x40_0000, 10),
                      PBlock(0xC0_0000, 0x73E_0000, FREE), PBlock(0xFFFC_0000, 0x4_0000, 2)]

  lemma BootListOk(f: int)
    ensures ListOk(BOOT_LIST) && (0x100 <= f < 0xC00 ==> !FrameFree(BOOT_LIST, f)) && Room(BOOT_LIST, 0x40_0000)
  {
    assert Fits(BOOT_LIST[5], 0x40_0000);
  }

  /** Frame `f` starts inside a free block. */
  ghost predicate FrameFree(bs: seq<PBlock>, f: int) {
    exists i :: 0 <= i < |bs| && bs[i].kind == FREE && bs[i].Holds(f * 4096)
  }

  predicate Fits(b: PBlock, size: int) {
    b.base >= ONE_MIB && b.kind == FREE && b.size >= size
  }

  /** Block `k` becomes a block of `size` bytes of type `kind`, followed by its free rest. */
  function Carve(bs: seq<PBlock>, k: nat, size: int, kind: int): seq<PBlock>
    requires k < |bs|
  {
    bs[..k] + [PBlock(bs[k].base, size, kind), PBlock(bs[k].base + size, bs[k].size - size, FREE)] + bs[k + 1..]
  }

  lemma CarveSorted(bs: seq<PBlock>, k: nat, size: int, kind: int)
    requires ListOk(bs) && k < |bs| && Fits(bs[k], size) && 0 <= size && size % 4096 == 0
    ensures ListOk(Carve(bs, k, size, kind))
  {
    var bs' := Carve(bs, k, size, kind);
    assert forall i :: 0 <= i < |bs'| ==>
      bs'[i] == if i < k then bs[i] else if i == k then PBlock(bs[k].base, size, kind)
                else if i == k + 1 then PBlock(bs[k].base + size, bs[k].size - size, FREE) else bs[i - 1];
  }

  /** The carved frames were free, are free no longer, and no other frame becomes free or is lost. */
  lemma CarveFresh(bs: seq<PBlock>, k: nat, size: int, kind: int, f: int)
    requires ListOk(bs) && k < |bs| && Fits(bs[k], size) && 0 <= size && size % 4096 == 0 && kind != FREE
    ensures FrameFree(Carve(bs, k, size, kind), f) <==>
              FrameFree(bs, f) && !(bs[k].base <= f * 4096 < bs[k].base + size)
    ensures bs[k].base <= f * 4096 < bs[k].base + size ==> FrameFree(bs, f)
  {
    var bs' := Carve(bs, k, size, kind);
    var a := f * 4096;
    if i :| 0 <= i < |bs| && bs[i].kind == FREE && bs[i].Holds(a) {
      if !(bs[k].base <= a < bs[k].base + size) {
        var i' := if i < k then i else i + 1;
        assert bs'[i'].kind == FREE && bs'[i'].Holds(a);
      }
    }
    if i' :| 0 <= i' < |bs'| && bs'[i'].kind == FREE && bs'[i'].Holds(a) {
      var i := if i' <= k then i' else i' - 1;
      assert bs[i].kind == FREE && bs[i].Holds(a);
    }
    if bs[k].base <= a < bs[k].base + size {
      assert bs[k].Holds(a);
    }
  }

  /** What becomes of frame `f` when the `size` bytes from `a` are reserved. */
  ghost predicate Taken1(bs: seq<PBlock>, bs': seq<PBlock>, a: int, size: int, f: int) {
    && (a <= f * 4096 < a + size ==> FrameFree(bs, f))
    && (FrameFree(bs', f) <==> FrameFree(bs, f) && !(a <= f * 4096 < a + size))
  }

  ghost predicate Reserved(bs: seq<PBlock>, bs': seq<PBlock>, a: int, size: int) {
    0 <= a && a % 4096 == 0 && a + size <= TWO32 && forall f :: Taken1(bs, bs', a, size, f)
  }

  /** The index of the first block that fits, or the number of blocks. */
  function FirstFit(bs: seq<PBlock>, size: int): (k: nat)
    ensures k <= |bs| && (k < |bs| ==> Fits(bs[k], size))
    ensures forall i :: 0 <= i < k ==> !Fits(bs[i], size)
  {
    FirstThat(bs, (b: PBlock) => Fits(b, size))
  }

  /** Some free block holds `size` bytes. */
  predicate Room(bs: seq<PBlock>, size: int) {
    FirstFit(bs, size) < |bs|
  }

  /** A block can be had exactly if some free block from 1 MiB up is large enough. */
  lemma RoomIff(bs: seq<PBlock>, size: int)
    ensures Room(bs, size) <==>
            exists i :: 0 <= i < |bs| && bs[i].kind == 1 && bs[i].base >= 0x10_0000 && bs[i].size >= size
  {
    if i :| 0 <= i < |bs| && bs[i].kind == 1 && bs[i].base >= 0x10_0000 && bs[i].size >= size {
      assert Fits(bs[i], size);
    }
  }

  /** Where the first block that fits begins. */
  function FitBase(bs: seq<PBlock>, size: int): int
    requires Room(bs, size)
  {
    bs[FirstFit(bs, size)].base
  }

  /** The first block that fits was carved at its start `a`. */
  ghost predicate CarvedFirst(bs: seq<PBlock>, bs': seq<PBlock>, a: int, size: int, kind: int) {
    Room(bs, size) && a == FitBase(bs, size) && bs' == Carve(bs, FirstFit(bs, size), size, kind)
  }

  lemma HasRoom(bs: seq<PBlock>, i: nat, size: int)
    requires i < |bs| && Fits(bs[i], size)
    ensures Room(bs, size)
  {
  }

  lemma RoomMono(bs: seq<PBlock>, size: int, smaller: int)
    requires Room(bs, size) && smaller <= size
    ensures Room(bs, smaller)
  {
    HasRoom(bs, FirstFit(bs, size), smaller);
  }

  /** Whichever block is carved, a block that holds all that is still to come remains. */
  lemma CarveRoom(bs: seq<PBlock>, bs': seq<PBlock>, a: int, size: int, kind: int, total: int)
    requires CarvedFirst(bs, bs', a, size, kind) && Room(bs, total) && 0 <= size <= total
    ensures Room(bs', total - size)
  {
    var k, i := FirstFit(bs, size), FirstFit(bs, total);
    var i' := if i < k then i else i + 1;
    assert i != k ==> bs'[i'] == bs[i];
    assert Fits(bs'[i'], total - size);
    HasRoom(bs', i', total - size);
  }

  lemma CarveReserves(bs: seq<PBlock>, k: nat, size: int, kind: int)
    requires ListOk(bs) && k < |bs| && Fits(bs[k], size) && 0 <= size && size % 4096 == 0 && kind != FREE
    ensures Reserved(bs, Carve(bs, k, size, kind), bs[k].base, size)
    ensures 0 <= bs[k].base < TWO32
  {
    forall f
      ensures Taken1(bs, Carve(bs, k, size, kind), bs[k].base, size, f)
    {
      CarveFresh(bs, k, size, kind, f);
    }
  }
}
