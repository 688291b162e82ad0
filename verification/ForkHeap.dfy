/** What copying an address space asks of the kernel heap, as a function of the tables before the call. */
module ForkHeap {
  import opened Machine
  import opened PageTables
  import opened Physical
  import opened HeapUse

  /** The `n` pages from `v` are copied in one piece: a 4 KiB page, or a whole 4 MiB page. */
  ghost predicate IsPiece(t: Tables, d: nat, v: nat, n: nat) {
    || (n == 1 && Lookup(t, d, v).Some? && !Large(Entry(t, d, v / 1024)))
    || (n == 1024 && v % 1024 == 0 && Large(Entry(t, d, v / 1024)))
  }

  /** The pages of the piece that page `p` completes; 0 if it completes none. */
  function PieceEnd(t: Tables, d: nat, p: nat): (n: nat)
    ensures n == 0 || n == 1 || n == 1024
  {
    if Lookup(t, d, p) == None then 0
    else if Large(Entry(t, d, p / 1024)) then (if p % 1024 == 1023 then 1024 else 0)
    else 1
  }

  /** A resource after the pieces of `d` that end below page `p`, `f` saying what one piece makes of it. None: one of
      them could not be had. */
  function Replay<S>(x: S, f: (S, nat) -> Option<S>, t: Tables, d: nat, p: nat): Option<S> {
    if p == 0 then Some(x)
    else
      match Replay(x, f, t, d, p - 1)
      case None => None
      case Some(y) => if PieceEnd(t, d, p - 1) == 0 then Some(y) else f(y, PieceEnd(t, d, p - 1))
  }

  lemma {:induction false} ReplaySkip<S>(x: S, f: (S, nat) -> Option<S>, t: Tables, d: nat, v: nat, n: nat)
    requires forall p :: v <= p < v + n ==> PieceEnd(t, d, p) == 0
    ensures Replay(x, f, t, d, v + n) == Replay(x, f, t, d, v)
    decreases n
  {
    if n > 0 {
      ReplaySkip(x, f, t, d, v, n - 1);
      assert v + n - 1 == v + (n - 1);
    }
  }

  lemma UnmappedSkip<S>(x: S, f: (S, nat) -> Option<S>, t: Tables, d: nat, v: nat, n: nat)
    requires forall p :: v <= p < v + n ==> Lookup(t, d, p) == None
    ensures Replay(x, f, t, d, v + n) == Replay(x, f, t, d, v)
  {
    hide Lookup;
    ReplaySkip(x, f, t, d, v, n);
  }

  lemma ReplayPiece<S>(x: S, f: (S, nat) -> Option<S>, t: Tables, d: nat, v: nat, n: nat)
    requires IsPiece(t, d, v, n)
    ensures Replay(x, f, t, d, v + n) == match Replay(x, f, t, d, v) case None => None case Some(y) => f(y, n)
  {
    if n == 1024 {
      var i := v / 1024;
      forall p | v <= p < v + 1024
        ensures PieceEnd(t, d, p) == if p == v + 1023 then 1024 else 0
      {
        DivideBy(p, 1024, i, p - v);
      }
      ReplaySkip(x, f, t, d, v, 1023);
      assert v + 1024 - 1 == v + 1023;
    }
  }

  lemma {:induction false} ReplayPrefix<S>(x: S, f: (S, nat) -> Option<S>, t: Tables, d: nat, p: nat, q: nat)
    requires Replay(x, f, t, d, q).Some? && p <= q
    ensures Replay(x, f, t, d, p).Some?
    decreases q
  {
    if p < q {
      ReplayPrefix(x, f, t, d, p, q - 1);
    }
  }

  /** The kernel heap when the pages of `d` below `p` have been copied. None: it would have had to grow. */
  function HeapBelow(h: HeapState, t: Tables, d: nat, p: nat): Option<HeapState> {
    Replay(h, AfterPiece, t, d, p)
  }

  /** The physical list after a piece of `n` pages. None: no block holds it. */
  function AfterReserve(bs: seq<PBlock>, n: nat): Option<seq<PBlock>> {
    if Room(bs, n * 4096) then Some(Carve(bs, FirstFit(bs, n * 4096), n * 4096, USER)) else None
  }

  /** The physical list when the pages of `d` below `p` have been copied. */
  function PhysBelow(bs: seq<PBlock>, t: Tables, d: nat, p: nat): Option<seq<PBlock>> {
    Replay(bs, AfterReserve, t, d, p)
  }

  /** Where in the kernel heap page `p` of `d` passes through. */
  function BufferAt(h: HeapState, t: Tables, d: nat, p: nat): nat {
    var v := if Large(Entry(t, d, p / 1024)) then p / 1024 * 1024 else p;
    var n := if Large(Entry(t, d, p / 1024)) then 1024 else 1;
    match HeapBelow(h, t, d, v)
    case None => 0
    case Some(g) => PieceBuffer(g, n) + (p - v) * 4096
  }

  /** The buffer for a piece of `n` pages. */
  function PieceBuffer(g: HeapState, n: nat): nat {
    if HeapFits(g, NODE) && HeapFits(HeapTake(g, NODE), n * 4096) && TakenAt(HeapTake(g, NODE), n * 4096) >= 0
    then TakenAt(HeapTake(g, NODE), n * 4096) else 0
  }

  lemma BufferOfPiece(h: HeapState, t: Tables, d: nat, v: nat, n: nat, g: HeapState, p: nat)
    requires IsPiece(t, d, v, n) && v <= p < v + n && HeapBelow(h, t, d, v) == Some(g)
    ensures BufferAt(h, t, d, p) == PieceBuffer(g, n) + (p - v) * 4096
  {
    hide HeapBelow, PieceBuffer;
    if n == 1024 {
      DivideBy(p, 1024, v / 1024, p - v);
    }
  }

  // ---------------------------------------------------------------- enough physical memory

  /** Pages in the pieces that end below page `p`. */
  function PiecePages(t: Tables, d: nat, p: nat): nat {
    if p == 0 then 0 else PiecePages(t, d, p - 1) + PieceEnd(t, d, p - 1)
  }

  lemma {:induction false} PiecePagesMono(t: Tables, d: nat, p: nat, q: nat)
    requires p <= q
    ensures PiecePages(t, d, p) <= PiecePages(t, d, q)
    decreases q
  {
    if p < q {
      PiecePagesMono(t, d, p, q - 1);
    }
  }

  lemma {:induction false} PhysLeft(bs: seq<PBlock>, t: Tables, d: nat, p: nat, q: nat)
    requires p <= q && Room(bs, PiecePages(t, d, q) * 4096)
    ensures PhysBelow(bs, t, d, p).Some?
    ensures Room(PhysBelow(bs, t, d, p).value, (PiecePages(t, d, q) - PiecePages(t, d, p)) * 4096)
    decreases p
  {
    hide Room, PieceEnd, CarvedFirst;
    if p > 0 {
      PhysLeft(bs, t, d, p - 1, q);
      PiecePagesMono(t, d, p, q);
      var n := PieceEnd(t, d, p - 1);
      if n != 0 {
        var g, left := PhysBelow(bs, t, d, p - 1).value, (PiecePages(t, d, q) - PiecePages(t, d, p - 1)) * 4096;
        RoomMono(g, left, n * 4096);
        AfterIsCarved(g, n);
        CarveRoom(g, AfterReserve(g, n).value, FitBase(g, n * 4096), n * 4096, USER, left);
        assert PhysBelow(bs, t, d, p) == AfterReserve(g, n);
      }
    }
  }

  lemma AfterIsCarved(bs: seq<PBlock>, n: nat)
    requires Room(bs, n * 4096)
    ensures AfterReserve(bs, n).Some? && CarvedFirst(bs, AfterReserve(bs, n).value, FitBase(bs, n * 4096), n * 4096, USER)
  {
  }

  /** One free block that holds all pages is enough. */
  lemma PhysSuffices(bs: seq<PBlock>, t: Tables, d: nat, p: nat)
    requires Room(bs, PiecePages(t, d, p) * 4096)
    ensures PhysBelow(bs, t, d, p).Some?
  {
    PhysLeft(bs, t, d, p, p);
  }

  // ---------------------------------------------------------------- what stays allocated

  /** The pieces, and the 4 MiB pages among them, that end below page `p`. */
  function Pieces(t: Tables, d: nat, p: nat): nat {
    if p == 0 then 0 else Pieces(t, d, p - 1) + if PieceEnd(t, d, p - 1) == 0 then 0 else 1
  }

  function LargePieces(t: Tables, d: nat, p: nat): nat {
    if p == 0 then 0 else LargePieces(t, d, p - 1) + if PieceEnd(t, d, p - 1) == 1024 then 1 else 0
  }

  /** A copy leaves in the heap one list node for every piece, and the buffer of every 4 MiB page: that branch
      has no kfree. Nothing that was in use is lost, and the heap has not grown. */
  lemma {:induction false} HeapCost(h: HeapState, t: Tables, d: nat, p: nat)
    requires HeapOk(h) && HeapBelow(h, t, d, p).Some?
    ensures var g := HeapBelow(h, t, d, p).value;
            && HeapOk(g) && g.end == h.end && UsedSet(h) <= UsedSet(g)
            && |UsedSet(g)| == |UsedSet(h)| + Pieces(t, d, p) + LargePieces(t, d, p)
            && |BigUsed(g)| == |BigUsed(h)| + LargePieces(t, d, p)
    decreases p
  {
    hide HeapOk, UsedSet, BigUsed, AfterPiece, PieceEnd;
    if p > 0 {
      HeapCost(h, t, d, p - 1);
      if PieceEnd(t, d, p - 1) != 0 {
        PieceCost(HeapBelow(h, t, d, p - 1).value, PieceEnd(t, d, p - 1));
      }
    }
  }

  // ---------------------------------------------------------------- when the heap suffices

  /** Bytes that the pieces below page `p` may take of one free block. */
  function RoomBelow(t: Tables, d: nat, p: nat): nat {
    if p == 0 then 0
    else RoomBelow(t, d, p - 1) + if PieceEnd(t, d, p - 1) == 0 then 0 else PieceRoom(PieceEnd(t, d, p - 1))
  }

  lemma {:induction false} RoomBelowMono(t: Tables, d: nat, p: nat, q: nat)
    requires p <= q
    ensures RoomBelow(t, d, p) <= RoomBelow(t, d, q)
    decreases q
  {
    if p < q {
      RoomBelowMono(t, d, p, q - 1);
    }
  }

  lemma {:induction false} RoomLeft(h: HeapState, t: Tables, d: nat, p: nat, q: nat)
    requires p <= q && HeapFits(h, RoomBelow(t, d, q) + 4096)
    ensures HeapBelow(h, t, d, p).Some?
    ensures HeapFits(HeapBelow(h, t, d, p).value, RoomBelow(t, d, q) - RoomBelow(t, d, p) + 4096)
    decreases p
  {
    hide HeapFits, AfterPiece, PieceEnd, PieceRoom;
    if p > 0 {
      RoomLeft(h, t, d, p - 1, q);
      RoomBelowMono(t, d, p, q);
      var n := PieceEnd(t, d, p - 1);
      if n != 0 {
        var g, room := HeapBelow(h, t, d, p - 1).value, RoomBelow(t, d, q) - RoomBelow(t, d, p - 1) + 4096;
        RoomForPiece(g, n, room);
        assert HeapBelow(h, t, d, p) == AfterPiece(g, n);
      }
    }
  }

  /** One free block for the nodes, the 4 MiB buffers and a last small buffer, headers included, suffices. */
  lemma HeapSuffices(h: HeapState, t: Tables, d: nat, p: nat)
    requires HeapFits(h, RoomBelow(t, d, p) + 4096)
    ensures HeapBelow(h, t, d, p).Some?
  {
    RoomLeft(h, t, d, p, p);
  }

  /** While the heap has its boot size, no space with a 4 MiB page can be copied, whatever else is free. */
  lemma LargePageFails(h: HeapState, t: Tables, d: nat, i: nat, p: nat)
    requires HeapOk(h) && BootSize(h) && Large(Entry(t, d, i)) && i * 1024 + 1024 <= p
    ensures HeapBelow(h, t, d, p) == None
  {
    hide HeapOk, HeapFits, HeapTake, BootSize;
    if HeapBelow(h, t, d, p).Some? {
      ReplayPrefix(h, AfterPiece, t, d, i * 1024 + 1024, p);
      ReplayPiece(h, AfterPiece, t, d, i * 1024, 1024);
      HeapCost(h, t, d, i * 1024);
      var g := HeapBelow(h, t, d, i * 1024).value;
      SameSize(h, g);
      TakeUsed(g, NODE);
      SameSize(g, HeapTake(g, NODE));
      BootTooSmall(HeapTake(g, NODE));
    }
  }

  lemma SameSize(h: HeapState, g: HeapState)
    requires BootSize(h) && g.end == h.end
    ensures BootSize(g)
  {
  }
}
