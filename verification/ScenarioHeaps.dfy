/** The kernel heaps of the concrete runs in Scenarios. */
module ScenarioHeaps {
  import opened Machine
  import opened KHeapSpec
  import opened KHeapRuns
  import opened HeapUse
  import opened HeapGrowth

  // ---------------------------------------------------------------- an empty heap that grows twice

  /** `k` list nodes, one after the other from the start, and one free block behind them up to `end`. */
  function Plain(k: nat, end: int): HeapState {
    Heap(seq(k, i requires 0 <= i < k => Block(START + 28 * i, NODE, true))
         + [Block(START + 28 * k, end - START - 28 * k - HEADER, false)], end)
  }

  ghost predicate PlainOk(k: nat, end: int) {
    28 * k + 0x1_0000 <= end - START && START + CHUNK <= end <= LIMIT && (LIMIT - end) % CHUNK == 0
  }

  lemma PlainFits(k: nat, end: int, size: int)
    requires PlainOk(k, end) && 0 <= size <= end - START - 28 * k - HEADER
    ensures HeapOk(Plain(k, end)) && HeapFits(Plain(k, end), size)
  {
    var h := Plain(k, end);
    forall i | 0 <= i < |h.blocks|
      ensures Aligned(h.blocks[i].size) && Aligned(h.blocks[i].addr)
    {
      PlainAligned(k, end, i);
    }
    assert Fits(h.blocks[k], size);
  }

  lemma PlainAligned(k: nat, end: int, i: nat)
    requires PlainOk(k, end) && i <= k
    ensures Aligned(Plain(k, end).blocks[i].size) && Aligned(Plain(k, end).blocks[i].addr)
  {
    hide Aligned;
    var c := (LIMIT - end) / CHUNK;
    assert LIMIT - end == CHUNK * c;
    Multiple(START + 28 * i, START / 4 + 7 * i);
    Multiple(NODE, 5);
    Multiple(end - START - 28 * k - HEADER, LIMIT / 4 - CHUNK / 4 * c - START / 4 - 7 * k - HEADER / 4);
  }

  lemma PlainNode(k: nat, end: int)
    requires PlainOk(k, end)
    ensures HeapFits(Plain(k, end), NODE) && HeapTake(Plain(k, end), NODE) == Plain(k + 1, end)
    ensures Nodes(Plain(k, end), 1) == Some(Plain(k + 1, end))
  {
    var h, g := Plain(k, end), Plain(k + 1, end);
    PlainFits(k, end, NODE);
    assert FirstFit(h.blocks, NODE) == k by {
      assert forall i :: 0 <= i < k ==> !Fits(h.blocks[i], NODE);
    }
    assert HeapTake(h, NODE).blocks == g.blocks;
    NodesNext(h, 0);
  }

  lemma PlainGrows(k: nat, end: int)
    requires PlainOk(k, end) && end < LIMIT
    ensures Grow(Plain(k, end)) == Plain(k, end + CHUNK)
  {
    var h := Plain(k, end);
    PlainFits(k, end, 0);
    MergeLast(h.blocks, Block(end, CHUNK - HEADER, false));
    assert Grow(h).blocks == Plain(k, end + CHUNK).blocks;
  }

  lemma PlainBoot()
    ensures Plain(0, START + CHUNK) == INITIAL && PlainOk(0, START + CHUNK) && BootSize(INITIAL)
    ensures START + CHUNK == 0xC0C0_0000
  {
    assert Plain(0, START + CHUNK).blocks == INITIAL.blocks;
  }

  // ---------------------------------------------------------------- a heap with little left

  /** The boot chunk: a large block in use, `k` nodes, a small free block, a last block in use, and behind it `more`. */
  function Crowded(k: nat, more: seq<Block>, end: int): HeapState {
    Heap([Block(START, CHUNK - 2032, true)] + seq(k, i requires 0 <= i < k => Block(SMALL + 28 * i, NODE, true))
         + [Block(SMALL + 28 * k, 2000 - 28 * k, false), Block(START + CHUNK - 16, 8, true)] + more, end)
  }

  const SMALL := START + CHUNK - 2024
  const SECOND := Block(START + CHUNK, CHUNK - HEADER, false)

  /** As boot leaves it, and after one expansion. */
  ghost predicate CrowdedOk(k: nat, more: seq<Block>, end: int) {
    k <= 9 && ((more == [] && end == START + CHUNK) || (more == [SECOND] && end == START + 2 * CHUNK))
  }

  function CrowdedBlock(k: nat, i: nat): Block {
    if i == 0 then Block(START, CHUNK - 2032, true)
    else if i <= k then Block(SMALL + 28 * (i - 1), NODE, true)
    else if i == k + 1 then Block(SMALL + 28 * k, 2000 - 28 * k, false)
    else if i == k + 2 then Block(START + CHUNK - 16, 8, true)
    else SECOND
  }

  lemma CrowdedBlocks(k: nat, more: seq<Block>, end: int)
    requires CrowdedOk(k, more, end)
    ensures |Crowded(k, more, end).blocks| == k + 3 + |more|
    ensures forall i :: 0 <= i < k + 3 + |more| ==> Crowded(k, more, end).blocks[i] == CrowdedBlock(k, i)
  {
  }

  lemma CrowdedAligned(k: nat, i: nat)
    requires k <= 9
    ensures Aligned(CrowdedBlock(k, i).size) && Aligned(CrowdedBlock(k, i).addr)
  {
    hide Aligned;
    Multiple(START, START / 4);
    Multiple(CHUNK - 2032, CHUNK / 4 - 508);
    Multiple(SMALL + 28 * (i - 1), SMALL / 4 + 7 * (i - 1));
    Multiple(NODE, 5);
    Multiple(SMALL + 28 * k, SMALL / 4 + 7 * k);
    Multiple(2000 - 28 * k, 500 - 7 * k);
    Multiple(START + CHUNK - 16, SMALL / 4 + 502);
    Multiple(8, 2);
    Multiple(START + CHUNK, START / 4 + CHUNK / 4);
    Multiple(CHUNK - HEADER, CHUNK / 4 - 2);
  }

  lemma CrowdedHeap(k: nat, more: seq<Block>, end: int)
    requires CrowdedOk(k, more, end)
    ensures HeapOk(Crowded(k, more, end)) && HeapFits(Crowded(k, more, end), NODE)
    ensures FirstFit(Crowded(k, more, end).blocks, NODE) == k + 1
  {
    CrowdedBlocks(k, more, end);
    CrowdedEnd(k, more, end);
    hide Crowded, Aligned;
    var bs := Crowded(k, more, end).blocks;
    forall i | 0 <= i < |bs|
      ensures Aligned(bs[i].size) && Aligned(bs[i].addr)
    {
      CrowdedAligned(k, i);
    }
    assert Fits(bs[k + 1], NODE) && forall i :: 0 <= i <= k ==> !Fits(bs[i], NODE);
  }

  lemma CrowdedNode(k: nat, more: seq<Block>, end: int)
    requires CrowdedOk(k, more, end)
    ensures HeapFits(Crowded(k, more, end), NODE) && HeapTake(Crowded(k, more, end), NODE) == Crowded(k + 1, more, end)
  {
    var h, g := Crowded(k, more, end), Crowded(k + 1, more, end);
    CrowdedHeap(k, more, end);
    assert HeapTake(h, NODE).blocks == g.blocks;
  }

  lemma CrowdedGrows(k: nat)
    requires k <= 9
    ensures Grow(Crowded(k, [], START + CHUNK)) == Crowded(k, [SECOND], START + 2 * CHUNK)
  {
    var h := Crowded(k, [], START + CHUNK);
    CrowdedHeap(k, [], START + CHUNK);
    MergeLast(h.blocks, SECOND);
    assert Grow(h).blocks == Crowded(k, [SECOND], START + 2 * CHUNK).blocks;
  }

  /** A page-sized buffer goes to the second chunk. */
  lemma CrowdedBuffer(k: nat)
    requires k <= 9
    ensures HeapFits(Crowded(k, [SECOND], START + 2 * CHUNK), 4096)
    ensures TakenAt(Crowded(k, [SECOND], START + 2 * CHUNK), 4096) == 0xC0C0_0008
  {
    var h := Crowded(k, [SECOND], START + 2 * CHUNK);
    var bs := h.blocks;
    assert |bs| == k + 4 && bs[k + 3] == SECOND && Fits(SECOND, 4096);
    assert forall i :: 0 <= i < k + 3 ==> !Fits(bs[i], 4096);
    assert FirstFit(bs, 4096) == k + 3;
  }

  /** From boot to the second chunk: one node for a page, two for the expansion. */
  lemma CrowdedRun()
    ensures var h := Crowded(0, [], START + CHUNK);
            && HeapOk(h) && BootSize(h) && HeapFits(h, NODE) && HeapTake(h, NODE) == Crowded(1, [], START + CHUNK)
    ensures Nodes(Crowded(1, [], START + CHUNK), 2) == Some(Crowded(3, [], START + CHUNK))
    ensures var g := Crowded(3, [SECOND], START + 2 * CHUNK);
            && Grow(Crowded(3, [], START + CHUNK)) == g && AfterPiece(g, 1) == Some(Crowded(4, [SECOND], START + 2 * CHUNK))
            && HeapFits(g, NODE) && HeapTake(g, NODE) == Crowded(4, [SECOND], START + 2 * CHUNK)
  {
    hide HeapFits, HeapTake, TakenAt, Crowded;
    CrowdedHeap(0, [], START + CHUNK);
    CrowdedNode(0, [], START + CHUNK);
    CrowdedNode(1, [], START + CHUNK);
    CrowdedNode(2, [], START + CHUNK);
    NoNodes(Crowded(1, [], START + CHUNK));
    NodesNext(Crowded(1, [], START + CHUNK), 0);
    NodesNext(Crowded(1, [], START + CHUNK), 1);
    CrowdedGrows(3);
    CrowdedNode(3, [SECOND], START + 2 * CHUNK);
    CrowdedBuffer(4);
    CrowdedEnd(0, [], START + CHUNK);
  }

  lemma CrowdedEnd(k: nat, more: seq<Block>, end: int)
    ensures Crowded(k, more, end).end == end
  {
  }
}
