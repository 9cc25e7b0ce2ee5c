/**
 What the system heap of src/mem.c does, stated on values.

 A heap is the list of its blocks in the order of their offsets, the last one
 being the end marker, and the offset that the search for a free block starts
 from.  Every operation is made of three edits: a block is split, joined with
 the next one, or marked.
 */
module SystemHeapSpec {

  import opened MemoryBytes
  import opened Rounding

  const HEADER: int := 12           // SIZEOF_STRUCT_MEM
  const MINSIZE: int := LEAST       // MIN_SIZE_ALIGNED
  const NULL: int := -1             // no offset of a payload

  datatype Block = Block(at: int, used: bool)

  datatype Heap = Heap(blocks: seq<Block>, lfree: int)

  datatype Outcome = Outcome(heap: Heap, ptr: int)

  /** mem_size_aligned, as the end marker's offset tells it. */
  function MemSize(bs: seq<Block>): int
    requires |bs| > 0
  {
    bs[|bs| - 1].at - HEADER
  }

  function Payload(bs: seq<Block>, k: nat): int
    requires k + 1 < |bs|
  {
    bs[k + 1].at - bs[k].at - HEADER
  }

  function IndexOf(bs: seq<Block>, a: int): (k: nat)
    ensures k <= |bs| && (k < |bs| ==> bs[k].at == a)
    ensures forall i :: 0 <= i < k ==> bs[i].at != a
  {
    if bs == [] || bs[0].at == a then 0 else 1 + IndexOf(bs[1..], a)
  }

  // ---------------------------------------------------------------- the edits

  function SplitAt(bs: seq<Block>, k: nat, a: int): seq<Block>
    requires k < |bs|
  {
    bs[..k + 1] + [Block(a, false)] + bs[k + 1..]
  }

  function JoinAt(bs: seq<Block>, k: nat): seq<Block>
    requires k + 1 < |bs|
  {
    bs[..k + 1] + bs[k + 2..]
  }

  function Mark(bs: seq<Block>, k: nat, used: bool): seq<Block>
    requires k < |bs|
  {
    bs[k := bs[k].(used := used)]
  }

  // ---------------------------------------------------------------- the operations

  /** rt_system_heap_init */
  function InitHeap(memSize: nat): Heap {
    Heap([Block(0, false), Block(memSize + HEADER, true)], 0)
  }

  /** May the search for n bytes stop at block k? */
  predicate Good(bs: seq<Block>, k: nat, n: int) {
    k + 1 < |bs| && !bs[k].used && Payload(bs, k) >= n && bs[k].at < MemSize(bs) - n
  }

  /** The search of rt_malloc from block k on, or |bs|. */
  function Search(bs: seq<Block>, k: nat, n: int): nat
    decreases |bs| - k
  {
    if k + 1 >= |bs| || bs[k].at >= MemSize(bs) - n then |bs|
    else if Good(bs, k, n) then k
    else Search(bs, k + 1, n)
  }

  /** The next block from k on that is free, or the end marker. */
  function NextFree(bs: seq<Block>, k: nat): (r: nat)
    requires k < |bs|
    ensures k <= r < |bs| && (r == |bs| - 1 || !bs[r].used)
    ensures forall i :: k <= i < r ==> bs[i].used
    decreases |bs| - k
  {
    if k == |bs| - 1 || !bs[k].used then k else NextFree(bs, k + 1)
  }

  /** Block k is taken for n bytes; the rest stays free if a block fits into it. */
  function Carve(bs: seq<Block>, k: nat, n: int): (r: seq<Block>)
    requires k + 1 < |bs|
    ensures |r| >= |bs|
  {
    Mark(if Payload(bs, k) >= n + HEADER + MINSIZE then SplitAt(bs, k, bs[k].at + HEADER + n) else bs, k, true)
  }

  function Take(h: Heap, k: nat, n: int): Heap
    requires k + 1 < |h.blocks|
  {
    var bs := Carve(h.blocks, k, n);
    Heap(bs, if h.blocks[k].at == h.lfree then bs[NextFree(bs, k)].at else h.lfree)
  }

  /** rt_malloc; the result is the offset of the payload. */
  function Malloc(h: Heap, size: int): Outcome
    requires |h.blocks| > 0
  {
    if size == 0 || Align(size) > MemSize(h.blocks) then Outcome(h, NULL)
    else
      var k := Search(h.blocks, IndexOf(h.blocks, h.lfree), Request(size));
      if k + 1 >= |h.blocks| then Outcome(h, NULL)
      else Outcome(Take(h, k, Request(size)), h.blocks[k].at + HEADER)
  }

  /** The first half of plug_holes: the next block is free too. */
  function PlugRight(h: Heap, k: nat): Heap
    requires k + 1 < |h.blocks|
  {
    if h.blocks[k + 1].used then h
    else Heap(JoinAt(h.blocks, k), if h.lfree == h.blocks[k + 1].at then h.blocks[k].at else h.lfree)
  }

  /** The second half of plug_holes: the block before is free too. */
  function PlugLeft(h: Heap, k: nat): Heap
    requires k < |h.blocks|
  {
    if k == 0 || h.blocks[k - 1].used then h
    else Heap(JoinAt(h.blocks, k - 1), if h.lfree == h.blocks[k].at then h.blocks[k - 1].at else h.lfree)
  }

  function PlugHoles(h: Heap, k: nat): Heap
    requires k + 1 < |h.blocks|
  {
    PlugLeft(PlugRight(h, k), k)
  }

  /** Position k holds a block that a client may release. */
  predicate Owned(bs: seq<Block>, k: nat) {
    k + 1 < |bs| && bs[k].used
  }

  function Released(h: Heap, k: nat): Heap
    requires k + 1 < |h.blocks|
  {
    Heap(Mark(h.blocks, k, false), if h.blocks[k].at < h.lfree then h.blocks[k].at else h.lfree)
  }

  /** rt_free */
  function Free(h: Heap, k: nat): Heap
    requires Owned(h.blocks, k)
  {
    PlugHoles(Released(h, k), k)
  }

  /** The shrinking path of rt_realloc. */
  function Shrink(h: Heap, k: nat, n: int): Heap
    requires k + 1 < |h.blocks|
  {
    PlugHoles(Heap(SplitAt(h.blocks, k, h.blocks[k].at + HEADER + n), h.lfree), k + 1)
  }

  /** The copying path of rt_realloc: allocate, copy, release. */
  function Moved(h: Heap, k: nat, n: int): Heap
    requires Owned(h.blocks, k)
  {
    var r := Malloc(h, n);
    var k' := IndexOf(r.heap.blocks, h.blocks[k].at);
    if r.ptr == NULL || !Owned(r.heap.blocks, k') then r.heap else Free(r.heap, k')
  }

  /** rt_realloc of the block at position k. */
  function Realloc(h: Heap, k: nat, size: int): Outcome
    requires Owned(h.blocks, k)
  {
    var n, ptr := Align(size), h.blocks[k].at + HEADER;
    if n > MemSize(h.blocks) then Outcome(h, NULL)
    else if n == 0 then Outcome(Free(h, k), NULL)
    else if n == Payload(h.blocks, k) then Outcome(h, ptr)
    else if n + HEADER + MINSIZE < Payload(h.blocks, k) then Outcome(Shrink(h, k, n), ptr)
    else
      Outcome(Moved(h, k, n), Malloc(h, n).ptr)
  }

  // ---------------------------------------------------------------- the invariant

  ghost predicate Tiles(bs: seq<Block>) {
    forall i, j :: 0 <= i < j < |bs| ==> bs[i].at + HEADER <= bs[j].at
  }

  /** No two neighbours are free, unless one of them is block x. */
  ghost predicate MergedBut(bs: seq<Block>, x: int) {
    forall i: nat :: i != x && i + 1 != x ==> !FreePair(bs, i)
  }

  predicate FreePair(bs: seq<Block>, i: nat) {
    i + 1 < |bs| && !bs[i].used && !bs[i + 1].used
  }

  ghost predicate Framed(bs: seq<Block>) {
    |bs| >= 2 && bs[0].at == 0 && bs[|bs| - 1].used && Tiles(bs)
  }

  /** The search starts at a free block, or at the end. */
  ghost predicate StartsFree(h: Heap) {
    exists l :: 0 <= l < |h.blocks| && h.blocks[l].at == h.lfree && (l == |h.blocks| - 1 || !h.blocks[l].used)
  }

  ghost predicate Inv(h: Heap) {
    Framed(h.blocks) && MergedBut(h.blocks, -1) && StartsFree(h)
  }

  /** The search starts at the lowest free block, or at the end if there is none. */
  ghost predicate Lowest(h: Heap) {
    |h.blocks| > 0 && h.lfree == h.blocks[NextFree(h.blocks, 0)].at
  }

  predicate SameExtent(h: Heap, g: Heap) {
    |h.blocks| > 0 && |g.blocks| > 0 && h.blocks[|h.blocks| - 1] == g.blocks[|g.blocks| - 1]
  }

  lemma InitInv(memSize: nat)
    ensures Inv(InitHeap(memSize)) && Lowest(InitHeap(memSize))
  {
    assert InitHeap(memSize).blocks[0].at == 0;
  }

  // ---------------------------------------------------------------- what the edits keep

  lemma SplitFramed(bs: seq<Block>, k: nat, a: int)
    requires Framed(bs) && k + 1 < |bs| && bs[k].at + HEADER <= a && a + HEADER <= bs[k + 1].at
    ensures var r := SplitAt(bs, k, a); Framed(r) && r[|r| - 1] == bs[|bs| - 1]
  {
    var r := SplitAt(bs, k, a);
    forall i, j | 0 <= i < j < |r| ensures r[i].at + HEADER <= r[j].at {
      assert i > k + 1 ==> r[i] == bs[i - 1];
      assert j > k + 1 ==> r[j] == bs[j - 1];
    }
  }

  lemma JoinFramed(bs: seq<Block>, k: nat)
    requires Framed(bs) && k + 2 < |bs|
    ensures var r := JoinAt(bs, k); Framed(r) && r[|r| - 1] == bs[|bs| - 1]
  {
    var r := JoinAt(bs, k);
    forall i, j | 0 <= i < j < |r| ensures r[i].at + HEADER <= r[j].at {
      assert i > k ==> r[i] == bs[i + 1];
      assert j > k ==> r[j] == bs[j + 1];
    }
  }

  lemma MarkFramed(bs: seq<Block>, k: nat, used: bool)
    requires Framed(bs) && k + 1 < |bs|
    ensures Framed(Mark(bs, k, used)) && Mark(bs, k, used)[|bs| - 1] == bs[|bs| - 1]
  {
  }

  lemma At(bs: seq<Block>, k: nat)
    requires Tiles(bs) && k < |bs|
    ensures IndexOf(bs, bs[k].at) == k
  {
  }

  /** Where the blocks of a split list come from. */
  lemma SplitShape(bs: seq<Block>, k: nat, a: int)
    requires k < |bs|
    ensures var r := SplitAt(bs, k, a);
            && |r| == |bs| + 1 && r[k + 1] == Block(a, false)
            && (forall i :: 0 <= i <= k ==> r[i] == bs[i])
            && (forall i :: k + 1 < i < |r| ==> r[i] == bs[i - 1])
  {
  }

  lemma JoinShape(bs: seq<Block>, k: nat)
    requires k + 1 < |bs|
    ensures var r := JoinAt(bs, k);
            && |r| == |bs| - 1
            && (forall i :: 0 <= i <= k ==> r[i] == bs[i])
            && (forall i :: k < i < |r| ==> r[i] == bs[i + 1])
  {
  }

  // ---------------------------------------------------------------- the search

  /** The search finds the first good block. */
  lemma {:induction false} SearchIs(bs: seq<Block>, k: nat, n: int)
    requires Tiles(bs)
    ensures Search(bs, k, n) == |bs| || (k <= Search(bs, k, n) && Good(bs, Search(bs, k, n), n))
    ensures forall j :: k <= j < Search(bs, k, n) ==> !Good(bs, j, n)
    decreases |bs| - k
  {
    if k + 1 >= |bs| {
    } else if bs[k].at >= MemSize(bs) - n {
      assert forall j :: k < j < |bs| ==> bs[k].at + HEADER <= bs[j].at;
    } else if !Good(bs, k, n) {
      SearchIs(bs, k + 1, n);
    }
  }

  /** The shortcut is right: from the lowest free block the search ends where first fit from the start ends. */
  lemma FirstFit(h: Heap, n: int)
    requires Inv(h) && Lowest(h)
    ensures Search(h.blocks, IndexOf(h.blocks, h.lfree), n) == Search(h.blocks, 0, n)
  {
    var l := NextFree(h.blocks, 0);
    At(h.blocks, l);
    SearchIs(h.blocks, l, n);
    SearchIs(h.blocks, 0, n);
    assert forall j :: 0 <= j < l ==> !Good(h.blocks, j, n);
  }

  /** Block k is free and long enough for n bytes, and not a last block that fits exactly. */
  predicate Roomy(bs: seq<Block>, k: nat, n: int) {
    k + 1 < |bs| && !bs[k].used && Payload(bs, k) >= n && !(k + 2 == |bs| && Payload(bs, k) == n)
  }

  /** The strict bound refuses exactly one block: a last block that fits exactly. */
  lemma GoodMeans(bs: seq<Block>, k: nat, n: int)
    requires Framed(bs)
    ensures Good(bs, k, n) <==> Roomy(bs, k, n)
  {
    assert k + 1 < |bs| - 1 ==> bs[k + 1].at + HEADER <= bs[|bs| - 1].at;
  }

  /** rt_malloc finds memory if and only if some roomy block lies where the search starts or behind. */
  lemma MallocSucceeds(h: Heap, size: int)
    requires Inv(h) && MemSize(h.blocks) >= MINSIZE
    ensures Malloc(h, size).ptr != NULL <==>
            size != 0 && exists k: nat :: Roomy(h.blocks, k, Request(size)) && h.lfree <= h.blocks[k].at
  {
    hide Tiles;
    var bs, n := h.blocks, Request(size);
    var l := IndexOf(bs, h.lfree);
    SearchIs(bs, l, n);
    forall k: nat | k < |bs|
      ensures Good(bs, k, n) <==> Roomy(bs, k, n)
      ensures h.lfree <= bs[k].at <==> l <= k
      ensures Good(bs, k, n) ==> Align(size) <= MemSize(bs)
    {
      GoodMeans(bs, k, n);
      Order(bs, k, l);
      Extent(bs, 0);
      if k + 1 < |bs| {
        Extent(bs, k);
      }
    }
    var k := Search(bs, l, n);
    if k < |bs| {
      assert Roomy(bs, k, n) && h.lfree <= bs[k].at;
    }
  }

  /** As long as the search starts at the lowest free block, any roomy block will do. */
  lemma MallocLowest(h: Heap, size: int)
    requires Inv(h) && Lowest(h) && MemSize(h.blocks) >= MINSIZE
    ensures Malloc(h, size).ptr != NULL <==> size != 0 && exists k: nat :: Roomy(h.blocks, k, Request(size))
  {
    hide Tiles, Malloc, Request;
    MallocSucceeds(h, size);
    forall k: nat | Roomy(h.blocks, k, Request(size)) ensures h.lfree <= h.blocks[k].at {
      Order(h.blocks, k, NextFree(h.blocks, 0));
    }
  }

  // ---------------------------------------------------------------- the lowest free block

  lemma LowestIs(h: Heap, l: nat)
    requires Framed(h.blocks) && l < |h.blocks| && (l == |h.blocks| - 1 || !h.blocks[l].used)
    requires forall i :: 0 <= i < l ==> h.blocks[i].used
    ensures NextFree(h.blocks, 0) == l && (Lowest(h) <==> h.lfree == h.blocks[l].at)
  {
  }

  /** The offsets of the blocks are in the order of their positions. */
  lemma Order(bs: seq<Block>, i: nat, j: nat)
    requires Tiles(bs) && i < |bs| && j < |bs|
    ensures bs[i].at < bs[j].at <==> i < j
    ensures bs[i].at == bs[j].at <==> i == j
  {
  }

  // ---------------------------------------------------------------- every operation keeps the invariant

  lemma SplitMerged(bs: seq<Block>, k: nat, a: int)
    requires MergedBut(bs, -1) && k + 1 < |bs|
    ensures bs[k].used ==> MergedBut(SplitAt(bs, k, a), k + 1)
    ensures !bs[k].used ==> MergedBut(Mark(SplitAt(bs, k, a), k, true), -1)
  {
    var r := SplitAt(bs, k, a);
    SplitShape(bs, k, a);
    hide SplitAt;
    assert !bs[k].used ==> !FreePair(bs, k) && bs[k + 1].used && r[k + 2] == bs[k + 1];
    forall i: nat | i + 1 < |r| && i != k && i != k + 1 ensures !FreePair(r, i) {
      assert !FreePair(bs, if i < k then i else i - 1);
    }
    var m := Mark(r, k, true);
    forall i: nat | i + 1 < |r| ensures !bs[k].used ==> !FreePair(m, i) {
      assert !bs[k].used && i != k && i != k + 1 ==> !FreePair(r, i);
    }
  }

  lemma MarkMerged(bs: seq<Block>, k: nat)
    requires MergedBut(bs, -1) && k < |bs|
    ensures MergedBut(Mark(bs, k, true), -1) && MergedBut(Mark(bs, k, false), k)
  {
    forall i: nat
      ensures !FreePair(Mark(bs, k, true), i) && (i != k && i + 1 != k ==> !FreePair(Mark(bs, k, false), i))
    {
      assert !FreePair(bs, i);
    }
  }

  /** What a carved list looks like: d more blocks behind the carved one. */
  ghost predicate Carved(bs: seq<Block>, k: nat, r: seq<Block>, d: nat) {
    && k + 1 < |bs| && |r| == |bs| + d
    && Framed(r) && MergedBut(r, -1) && r[|r| - 1] == bs[|bs| - 1] && r[k] == Block(bs[k].at, true)
    && (forall i :: 0 <= i < k ==> r[i] == bs[i])
    && (forall i :: k < i < |bs| ==> r[i + d] == bs[i])
  }

  lemma CarveSplit(bs: seq<Block>, k: nat, a: int)
    requires Framed(bs) && MergedBut(bs, -1) && k + 1 < |bs| && !bs[k].used && bs[k].at + HEADER <= a
    requires a + HEADER <= bs[k + 1].at
    ensures Carved(bs, k, Mark(SplitAt(bs, k, a), k, true), 1)
  {
    hide MergedBut, SplitAt, Framed;
    SplitFramed(bs, k, a);
    SplitShape(bs, k, a);
    SplitMerged(bs, k, a);
    MarkFramed(SplitAt(bs, k, a), k, true);
  }

  lemma CarveFramed(bs: seq<Block>, k: nat, n: int)
    requires Framed(bs) && MergedBut(bs, -1) && k + 1 < |bs| && !bs[k].used && 0 <= n <= Payload(bs, k)
    ensures Carved(bs, k, Carve(bs, k, n), if Payload(bs, k) >= n + HEADER + MINSIZE then 1 else 0)
  {
    hide MergedBut, SplitAt, Framed;
    if Payload(bs, k) >= n + HEADER + MINSIZE {
      CarveSplit(bs, k, bs[k].at + HEADER + n);
    } else {
      MarkFramed(bs, k, true);
      MarkMerged(bs, k);
    }
  }

  lemma TakeInv(h: Heap, k: nat, n: int)
    requires Inv(h) && k + 1 < |h.blocks| && !h.blocks[k].used && 0 <= n <= Payload(h.blocks, k)
    ensures Inv(Take(h, k, n)) && SameExtent(h, Take(h, k, n))
    ensures Lowest(h) ==> Lowest(Take(h, k, n))
  {
    hide Carve, MergedBut, Tiles;
    var bs, r := h.blocks, Carve(h.blocks, k, n);
    CarveFramed(bs, k, n);
    var d := |r| - |bs|;
    var l :| 0 <= l < |bs| && bs[l].at == h.lfree && (l == |bs| - 1 || !bs[l].used);
    Order(bs, k, l);
    if l == k {
      TakeLowest(h, k, n, k);
    } else if l < k {
      assert r[l] == bs[l];
      TakeLowest(h, k, n, l);
    } else {
      assert r[l + d] == bs[l];
      NotLowest(h, k, l);
    }
  }

  lemma NotLowest(h: Heap, k: nat, l: nat)
    requires Framed(h.blocks) && k < l < |h.blocks| && !h.blocks[k].used && h.blocks[l].at == h.lfree
    ensures !Lowest(h)
  {
    Order(h.blocks, l, NextFree(h.blocks, 0));
  }

  lemma TakeLowest(h: Heap, k: nat, n: int, l: nat)
    requires Inv(h) && k + 1 < |h.blocks| && !h.blocks[k].used && 0 <= n <= Payload(h.blocks, k)
    requires l <= k && h.blocks[l].at == h.lfree
    ensures Lowest(h) ==> Lowest(Take(h, k, n))
  {
    hide Carve, MergedBut, Tiles;
    var bs, r := h.blocks, Carve(h.blocks, k, n);
    CarveFramed(bs, k, n);
    if Lowest(h) {
      Order(bs, k, l);
      Order(bs, l, NextFree(bs, 0));
      LowestIs(Take(h, k, n), if l == k then NextFree(r, k) else l);
    }
  }

  lemma MallocInv(h: Heap, size: int)
    requires Inv(h)
    ensures Inv(Malloc(h, size).heap) && SameExtent(h, Malloc(h, size).heap)
    ensures Lowest(h) ==> Lowest(Malloc(h, size).heap)
  {
    hide Inv, Lowest, Take;
    var n := Request(size);
    TilesOf(h);
    SearchIs(h.blocks, IndexOf(h.blocks, h.lfree), n);
    var k := Search(h.blocks, IndexOf(h.blocks, h.lfree), n);
    if k + 1 < |h.blocks| {
      TakeInv(h, k, n);
    }
  }

  lemma TilesOf(h: Heap)
    requires Inv(h)
    ensures Framed(h.blocks)
  {
  }

  lemma JoinMerged(bs: seq<Block>, k: nat, x: int)
    requires k + 2 < |bs| && x <= k && bs[k + 2].used
    requires forall i: nat :: i + 1 != x && i != k && i + 1 != k ==> !FreePair(bs, i)
    requires k > 0 && x != k ==> bs[k - 1].used || bs[k].used
    ensures forall i: nat :: i + 1 != x ==> !FreePair(JoinAt(bs, k), i)
  {
    JoinShape(bs, k);
    var r := JoinAt(bs, k);
    hide JoinAt;
    forall i: nat | i + 1 != x ensures !FreePair(r, i) {
      if i + 1 < |r| && i != k {
        assert !FreePair(bs, if i < k then i else i + 1) || i + 1 == k;
      }
    }
  }

  lemma PlugRightInv(h: Heap, k: nat)
    requires Framed(h.blocks) && MergedBut(h.blocks, k) && StartsFree(h) && k + 1 < |h.blocks| && !h.blocks[k].used
    ensures var g := PlugRight(h, k);
            && Framed(g.blocks) && StartsFree(g) && SameExtent(h, g) && k + 1 < |g.blocks| && g.blocks[k + 1].used
            && (forall i :: 0 <= i <= k ==> g.blocks[i] == h.blocks[i])
            && (forall i: nat :: i + 1 != k ==> !FreePair(g.blocks, i))
            && (Lowest(g) <==>
                || Lowest(h)
                || (NextFree(h.blocks, 0) == k && h.lfree == h.blocks[k + 1].at && !h.blocks[k + 1].used))
  {
    hide JoinAt, Tiles;
    var bs, g := h.blocks, PlugRight(h, k);
    if bs[k + 1].used {
      forall i: nat | i + 1 != k ensures !FreePair(bs, i) {
        assert i != k ==> !FreePair(bs, i);
      }
    } else {
      var l :| 0 <= l < |bs| && bs[l].at == h.lfree && (l == |bs| - 1 || !bs[l].used);
      var m := NextFree(bs, 0);
      assert !FreePair(bs, k + 1);
      JoinMerged(bs, k, k);
      JoinFramed(bs, k);
      JoinShape(bs, k);
      Order(bs, l, m);
      Order(bs, l, k + 1);
      Order(bs, m, k);
      assert g.blocks[if l <= k then l else l - 1].at == g.lfree;
      LowestIs(g, m);
    }
  }

  lemma PlugLeftInv(h: Heap, k: nat)
    requires Framed(h.blocks) && StartsFree(h) && k + 1 < |h.blocks| && !h.blocks[k].used
    requires forall i: nat :: i + 1 != k ==> !FreePair(h.blocks, i)
    ensures Inv(PlugLeft(h, k)) && SameExtent(h, PlugLeft(h, k))
    ensures Lowest(h) ==> Lowest(PlugLeft(h, k))
  {
    hide JoinAt, Tiles;
    var bs, g := h.blocks, PlugLeft(h, k);
    if k == 0 || bs[k - 1].used {
      forall i: nat ensures !FreePair(bs, i) {
        assert i + 1 != k ==> !FreePair(bs, i);
      }
    } else {
      var l :| 0 <= l < |bs| && bs[l].at == h.lfree && (l == |bs| - 1 || !bs[l].used);
      var m := NextFree(bs, 0);
      assert !FreePair(bs, k) && (k > 1 ==> !FreePair(bs, k - 2));
      JoinMerged(bs, k - 1, -1);
      JoinFramed(bs, k - 1);
      JoinShape(bs, k - 1);
      Order(bs, l, k);
      Order(bs, m, k);
      assert g.blocks[if l < k then l else l - 1].at == g.lfree;
      LowestIs(g, m);
    }
  }

  /** plug_holes around a free block leaves no two free neighbours. */
  lemma PlugInv(h: Heap, k: nat)
    requires Framed(h.blocks) && MergedBut(h.blocks, k) && StartsFree(h) && k + 1 < |h.blocks| && !h.blocks[k].used
    ensures Inv(PlugHoles(h, k)) && SameExtent(h, PlugHoles(h, k))
    ensures Lowest(h) ==> Lowest(PlugHoles(h, k))
  {
    PlugRightInv(h, k);
    hide Lowest, PlugRight, PlugLeft, Framed, StartsFree;
    PlugLeftInv(PlugRight(h, k), k);
  }

  lemma ReleasedFacts(h: Heap, k: nat)
    requires Inv(h) && Owned(h.blocks, k)
    ensures var g := Released(h, k);
            && Framed(g.blocks) && MergedBut(g.blocks, k) && StartsFree(g) && SameExtent(h, g)
            && !g.blocks[k].used && |g.blocks| == |h.blocks| && (Lowest(h) ==> Lowest(g))
  {
    hide MergedBut, Tiles;
    var bs, g := h.blocks, Released(h, k);
    var l :| 0 <= l < |bs| && bs[l].at == h.lfree && (l == |bs| - 1 || !bs[l].used);
    MarkFramed(bs, k, false);
    MarkMerged(bs, k);
    Order(bs, k, l);
    assert g.blocks[if k < l then k else l].at == g.lfree;
    if Lowest(h) {
      At(bs, l);
      At(bs, NextFree(bs, 0));
      LowestIs(g, if k < l then k else l);
    }
  }

  lemma FreeInv(h: Heap, k: nat)
    requires Inv(h) && Owned(h.blocks, k)
    ensures Inv(Free(h, k)) && SameExtent(h, Free(h, k))
    ensures Lowest(h) ==> Lowest(Free(h, k))
  {
    ReleasedFacts(h, k);
    hide Inv, Lowest, PlugHoles, Released, Framed, MergedBut, StartsFree;
    PlugInv(Released(h, k), k);
  }

  /** The guard of the shrinking path. */
  predicate Shrinks(h: Heap, k: nat, n: int) {
    Owned(h.blocks, k) && 0 < n && n + HEADER + MINSIZE < Payload(h.blocks, k)
  }

  lemma SplitFacts(h: Heap, k: nat, n: int)
    requires Inv(h) && Shrinks(h, k, n)
    ensures var g := Heap(SplitAt(h.blocks, k, h.blocks[k].at + HEADER + n), h.lfree);
            && Framed(g.blocks) && MergedBut(g.blocks, k + 1) && StartsFree(g) && SameExtent(h, g)
            && |g.blocks| == |h.blocks| + 1 && !g.blocks[k + 1].used && g.blocks[k].used
            && g.blocks[k + 2] == h.blocks[k + 1]
            && (Lowest(h) ==> (Lowest(g) <==> h.lfree < h.blocks[k].at))
            && (Lowest(h) && h.lfree >= h.blocks[k].at ==> NextFree(g.blocks, 0) == k + 1)
  {
    hide SplitAt, MergedBut, Tiles;
    var bs, a := h.blocks, h.blocks[k].at + HEADER + n;
    var g := Heap(SplitAt(bs, k, a), h.lfree);
    var l :| 0 <= l < |bs| && bs[l].at == h.lfree && (l == |bs| - 1 || !bs[l].used);
    SplitFramed(bs, k, a);
    SplitShape(bs, k, a);
    SplitMerged(bs, k, a);
    Order(bs, k, l);
    Order(bs, l, k + 1);
    assert g.blocks[if l <= k then l else l + 1] == bs[l];
    if Lowest(h) {
      At(bs, l);
      At(bs, NextFree(bs, 0));
      LowestIs(g, if l < k then l else k + 1);
    }
  }

  /**
   Shrinking a block keeps the invariant, but does not always lower the start
   of the search: it stays the lowest free block exactly if a free block lies
   below the shrunk one, or right behind it.
   */
  lemma ShrinkInv(h: Heap, k: nat, n: int)
    requires Inv(h) && Shrinks(h, k, n)
    ensures Inv(Shrink(h, k, n)) && SameExtent(h, Shrink(h, k, n))
    ensures Lowest(h) ==>
              (Lowest(Shrink(h, k, n)) <==>
               h.lfree < h.blocks[k].at || (h.lfree == h.blocks[k + 1].at && k + 2 < |h.blocks|))
  {
    hide Inv, Lowest, PlugRight, Framed, StartsFree, MergedBut, SplitAt, NextFree;
    var g := Heap(SplitAt(h.blocks, k, h.blocks[k].at + HEADER + n), h.lfree);
    SplitFacts(h, k, n);
    PlugRightInv(g, k + 1);
    LastUsed(h, k);
    PlugInv(g, k + 1);
    assert PlugHoles(g, k + 1) == PlugRight(g, k + 1);
  }

  lemma LastUsed(h: Heap, k: nat)
    requires Inv(h) && Owned(h.blocks, k)
    ensures !h.blocks[k + 1].used ==> k + 2 < |h.blocks|
    ensures h.lfree == h.blocks[k + 1].at && k + 2 < |h.blocks| ==> !h.blocks[k + 1].used
  {
    var l :| 0 <= l < |h.blocks| && h.blocks[l].at == h.lfree && (l == |h.blocks| - 1 || !h.blocks[l].used);
    Order(h.blocks, l, k + 1);
  }

  /** Two blocks of 100 bytes fill the heap. */
  function FullHeap(): Heap {
    Heap([Block(0, true), Block(112, true), Block(224, true)], 224)
  }

  lemma FullFacts()
    ensures Inv(FullHeap()) && Lowest(FullHeap()) && Shrinks(FullHeap(), 0, 12)
  {
    var h := FullHeap();
    assert Framed(h.blocks) && h.blocks[2].at == h.lfree;
    LowestIs(h, 2);
  }

  /** A heap where shrinking the first block leaves free memory below the start of the search. */
  lemma ShrinkForgets()
    ensures exists h, k, n :: Inv(h) && Lowest(h) && Shrinks(h, k, n) && !Lowest(Shrink(h, k, n))
  {
    FullFacts();
    ShrinkInv(FullHeap(), 0, 12);
  }

  /** What the client gave back there is out of reach: a request that it would serve fails. */
  lemma MallocMisses()
    ensures var g := Shrink(FullHeap(), 0, 12);
            Inv(g) && Roomy(g.blocks, 1, Request(12)) && Malloc(g, 12).ptr == NULL
  {
    var g := Shrink(FullHeap(), 0, 12);
    FullFacts();
    ShrinkInv(FullHeap(), 0, 12);
    assert g == Heap([Block(0, true), Block(24, false), Block(112, true), Block(224, true)], 224);
    MallocSucceeds(g, 12);
  }

  // ---------------------------------------------------------------- bytes

  /** used_mem: the length of all used blocks with their headers. */
  function UsedBytes(bs: seq<Block>): int {
    if |bs| < 2 then 0 else (if bs[0].used then bs[1].at - bs[0].at else 0) + UsedBytes(bs[1..])
  }

  lemma {:induction false} UsedSplit(bs: seq<Block>, k: nat, a: int)
    requires k + 1 < |bs|
    ensures UsedBytes(SplitAt(bs, k, a)) == UsedBytes(bs) - if bs[k].used then bs[k + 1].at - a else 0
    decreases k
  {
    var r := SplitAt(bs, k, a);
    if k == 0 {
      assert r[1..] == [Block(a, false)] + bs[1..] && r[1..][1..] == bs[1..];
    } else {
      assert r[1..] == SplitAt(bs[1..], k - 1, a);
      UsedSplit(bs[1..], k - 1, a);
    }
  }

  lemma {:induction false} UsedJoin(bs: seq<Block>, k: nat)
    requires k + 2 < |bs| && !bs[k].used && !bs[k + 1].used
    ensures UsedBytes(JoinAt(bs, k)) == UsedBytes(bs)
    decreases k
  {
    var r := JoinAt(bs, k);
    if k == 0 {
      assert r[1..] == bs[2..] && bs[1..][1..] == bs[2..];
    } else {
      assert r[1..] == JoinAt(bs[1..], k - 1);
      UsedJoin(bs[1..], k - 1);
    }
  }

  lemma {:induction false} UsedMark(bs: seq<Block>, k: nat, used: bool)
    requires k + 1 < |bs|
    ensures var len := bs[k + 1].at - bs[k].at;
            UsedBytes(Mark(bs, k, used)) == UsedBytes(bs) - (if bs[k].used then len else 0) + (if used then len else 0)
    decreases k
  {
    var r := Mark(bs, k, used);
    if k == 0 {
      assert r[1..] == bs[1..];
    } else {
      assert r[1..] == Mark(bs[1..], k - 1, used);
      UsedMark(bs[1..], k - 1, used);
    }
  }

  /** The bytes of a block that rt_malloc makes out of block k. */
  function Granted(bs: seq<Block>, k: nat, n: int): int
    requires k + 1 < |bs|
  {
    if Payload(bs, k) >= n + HEADER + MINSIZE then n else Payload(bs, k)
  }

  lemma CarveBytes(bs: seq<Block>, k: nat, n: int)
    requires k + 1 < |bs| && !bs[k].used
    ensures UsedBytes(Carve(bs, k, n)) == UsedBytes(bs) + Granted(bs, k, n) + HEADER
  {
    var a := bs[k].at + HEADER + n;
    if Payload(bs, k) >= n + HEADER + MINSIZE {
      UsedSplit(bs, k, a);
      UsedMark(SplitAt(bs, k, a), k, true);
      SplitShape(bs, k, a);
    } else {
      UsedMark(bs, k, true);
    }
  }

  lemma PlugBytes(h: Heap, k: nat)
    requires k + 1 < |h.blocks| && h.blocks[|h.blocks| - 1].used && !h.blocks[k].used
    ensures UsedBytes(PlugHoles(h, k).blocks) == UsedBytes(h.blocks)
  {
    var g := PlugRight(h, k);
    if !h.blocks[k + 1].used {
      UsedJoin(h.blocks, k);
      JoinShape(h.blocks, k);
    }
    if k > 0 && !g.blocks[k - 1].used {
      UsedJoin(g.blocks, k - 1);
    }
  }

  /** Releasing a block gives back its bytes and its header. */
  lemma FreeBytes(h: Heap, k: nat)
    requires Owned(h.blocks, k) && h.blocks[|h.blocks| - 1].used
    ensures UsedBytes(Free(h, k).blocks) == UsedBytes(h.blocks) - Payload(h.blocks, k) - HEADER
  {
    UsedMark(h.blocks, k, false);
    PlugBytes(Released(h, k), k);
  }

  lemma ShrinkBytes(h: Heap, k: nat, n: int)
    requires Shrinks(h, k, n) && h.blocks[|h.blocks| - 1].used
    ensures UsedBytes(Shrink(h, k, n).blocks) == UsedBytes(h.blocks) - (Payload(h.blocks, k) - n)
  {
    var a := h.blocks[k].at + HEADER + n;
    UsedSplit(h.blocks, k, a);
    SplitShape(h.blocks, k, a);
    hide SplitAt;
    PlugBytes(Heap(SplitAt(h.blocks, k, a), h.lfree), k + 1);
  }

  // ---------------------------------------------------------------- what clients hold

  /** A client holds n bytes behind the header at offset a. */
  ghost predicate Live(bs: seq<Block>, a: int, n: int) {
    exists k: nat :: LiveAt(bs, k, a, n)
  }

  ghost predicate LiveAtLeast(bs: seq<Block>, a: int, n: int) {
    exists got :: got >= n && Live(bs, a, got)
  }

  predicate LiveAt(bs: seq<Block>, k: nat, a: int, n: int) {
    k + 1 < |bs| && bs[k].used && bs[k].at == a && Payload(bs, k) == n
  }

  /** Splitting a used block shortens one allocation; joining free blocks changes none. */
  lemma SplitLive(bs: seq<Block>, k: nat, a: int, x: int, n: int)
    requires Tiles(bs) && k + 1 < |bs|
    ensures bs[k].used ==>
              (Live(SplitAt(bs, k, a), x, n) <==> if x == bs[k].at then n == a - x - HEADER else Live(bs, x, n))
    ensures !bs[k].used ==> (Live(SplitAt(bs, k, a), x, n) <==> Live(bs, x, n))
  {
    hide SplitAt, Live;
    SplitLiveTo(bs, k, a, x, n);
    if Live(SplitAt(bs, k, a), x, n) {
      SplitLiveFrom(bs, k, a, x, n);
    }
    if !bs[k].used && x == bs[k].at {
      NotLive(bs, k, n);
    }
  }

  lemma SplitLiveTo(bs: seq<Block>, k: nat, a: int, x: int, n: int)
    requires Tiles(bs) && k + 1 < |bs|
    ensures Live(bs, x, n) && x != bs[k].at ==> Live(SplitAt(bs, k, a), x, n)
    ensures bs[k].used && x == bs[k].at && n == a - x - HEADER ==> Live(SplitAt(bs, k, a), x, n)
  {
    hide SplitAt, Tiles;
    var r := SplitAt(bs, k, a);
    SplitShape(bs, k, a);
    if Live(bs, x, n) && x != bs[k].at {
      var i: nat :| LiveAt(bs, i, x, n);
      Order(bs, i, k);
      assert LiveAt(r, if i < k then i else i + 1, x, n);
    }
    assert bs[k].used && x == bs[k].at && n == a - x - HEADER ==> LiveAt(r, k, x, n);
  }

  lemma SplitLiveFrom(bs: seq<Block>, k: nat, a: int, x: int, n: int)
    requires Tiles(bs) && k + 1 < |bs| && Live(SplitAt(bs, k, a), x, n)
    ensures if x == bs[k].at then bs[k].used && n == a - x - HEADER else Live(bs, x, n)
  {
    hide SplitAt, Tiles;
    var r := SplitAt(bs, k, a);
    SplitShape(bs, k, a);
    var i: nat :| LiveAt(r, i, x, n);
    if i != k {
      var j := if i < k then i else i - 1;
      assert LiveAt(bs, j, x, n);
      Order(bs, j, k);
    }
  }

  lemma JoinLive(bs: seq<Block>, k: nat, x: int, n: int)
    requires k + 2 < |bs| && !bs[k].used && !bs[k + 1].used
    ensures Live(JoinAt(bs, k), x, n) <==> Live(bs, x, n)
  {
    var r := JoinAt(bs, k);
    JoinShape(bs, k);
    hide JoinAt;
    if Live(bs, x, n) {
      var i: nat :| LiveAt(bs, i, x, n);
      assert LiveAt(r, if i < k then i else i - 1, x, n);
    }
    if Live(r, x, n) {
      var i: nat :| LiveAt(r, i, x, n);
      assert LiveAt(bs, if i < k then i else i + 1, x, n);
    }
  }

  lemma MarkLive(bs: seq<Block>, k: nat, used: bool, x: int, n: int)
    requires Tiles(bs) && k + 1 < |bs|
    ensures Live(Mark(bs, k, used), x, n) <==> if x == bs[k].at then used && n == Payload(bs, k) else Live(bs, x, n)
  {
    var r := Mark(bs, k, used);
    if Live(bs, x, n) {
      var i: nat :| LiveAt(bs, i, x, n);
      Order(bs, i, k);
      assert i != k ==> LiveAt(r, i, x, n);
    }
    if Live(r, x, n) {
      var i: nat :| LiveAt(r, i, x, n);
      Order(bs, i, k);
      assert i != k ==> LiveAt(bs, i, x, n);
    }
    if x == bs[k].at && used && n == Payload(bs, k) {
      assert LiveAt(r, k, x, n);
    }
  }

  lemma CarveLive(bs: seq<Block>, k: nat, n: int, x: int, m: int)
    requires Framed(bs) && k + 1 < |bs| && !bs[k].used && 0 <= n <= Payload(bs, k)
    ensures Live(Carve(bs, k, n), x, m) <==> if x == bs[k].at then m == Granted(bs, k, n) else Live(bs, x, m)
  {
    hide Live, SplitAt;
    var a := bs[k].at + HEADER + n;
    if Payload(bs, k) >= n + HEADER + MINSIZE {
      SplitFramed(bs, k, a);
      SplitShape(bs, k, a);
      SplitLive(bs, k, a, x, m);
      MarkLive(SplitAt(bs, k, a), k, true, x, m);
    } else {
      MarkLive(bs, k, true, x, m);
    }
  }

  lemma PlugLive(h: Heap, k: nat, x: int, m: int)
    requires k + 1 < |h.blocks| && h.blocks[|h.blocks| - 1].used && !h.blocks[k].used
    ensures Live(PlugHoles(h, k).blocks, x, m) <==> Live(h.blocks, x, m)
  {
    hide Live, JoinAt;
    var g := PlugRight(h, k);
    if !h.blocks[k + 1].used {
      JoinLive(h.blocks, k, x, m);
      JoinShape(h.blocks, k);
    }
    if k > 0 && !g.blocks[k - 1].used {
      JoinLive(g.blocks, k - 1, x, m);
    }
  }

  /** Releasing a block removes exactly that allocation. */
  lemma FreeLive(h: Heap, k: nat, x: int, m: int)
    requires Inv(h) && Owned(h.blocks, k)
    ensures Live(Free(h, k).blocks, x, m) <==> Live(h.blocks, x, m) && x != h.blocks[k].at
  {
    hide Live;
    MarkLive(h.blocks, k, false, x, m);
    PlugLive(Released(h, k), k, x, m);
  }

  /** Shrinking changes the length of exactly that allocation. */
  lemma ShrinkLive(h: Heap, k: nat, n: int, x: int, m: int)
    requires Inv(h) && Shrinks(h, k, n)
    ensures Live(Shrink(h, k, n).blocks, x, m) <==> if x == h.blocks[k].at then m == n else Live(h.blocks, x, m)
  {
    hide Live, SplitAt;
    var a := h.blocks[k].at + HEADER + n;
    SplitShape(h.blocks, k, a);
    SplitLive(h.blocks, k, a, x, m);
    PlugLive(Heap(SplitAt(h.blocks, k, a), h.lfree), k + 1, x, m);
  }

  // ---------------------------------------------------------------- allocations

  lemma LiveOwned(bs: seq<Block>, a: int, n: int)
    requires Tiles(bs) && Live(bs, a, n)
    ensures Owned(bs, IndexOf(bs, a)) && Payload(bs, IndexOf(bs, a)) == n
  {
    var k: nat :| LiveAt(bs, k, a, n);
    At(bs, k);
  }

  lemma OwnedLive(bs: seq<Block>, k: nat)
    requires Owned(bs, k)
    ensures Live(bs, bs[k].at, Payload(bs, k))
  {
    assert LiveAt(bs, k, bs[k].at, Payload(bs, k));
  }

  /** Two allocations do not overlap, and both lie inside the heap. */
  lemma LiveDisjoint(h: Heap, a: int, n: int, b: int, m: int)
    requires Inv(h) && Live(h.blocks, a, n) && Live(h.blocks, b, m) && a < b
    ensures 0 <= a && 0 <= n && a + HEADER + n <= b && 0 <= m && b + HEADER + m <= MemSize(h.blocks) + HEADER
  {
    hide Live, Tiles;
    LiveOwned(h.blocks, a, n);
    LiveOwned(h.blocks, b, m);
    var i, j := IndexOf(h.blocks, a), IndexOf(h.blocks, b);
    Order(h.blocks, i, j);
    Order(h.blocks, j, i + 1);
    Extent(h.blocks, i);
    Extent(h.blocks, j);
  }

  lemma Extent(bs: seq<Block>, k: nat)
    requires Framed(bs) && k + 1 < |bs|
    ensures 0 <= bs[k].at && bs[k].at + HEADER <= bs[k + 1].at <= bs[|bs| - 1].at
  {
  }

  /** The block that the search of rt_malloc ends at. */
  function Chosen(h: Heap, size: int): nat {
    Search(h.blocks, IndexOf(h.blocks, h.lfree), Request(size))
  }

  /**
   A successful rt_malloc adds one allocation, at least as long as asked for, where there was none, and changes no
   other.
   */
  lemma MallocLive(h: Heap, size: int, x: int, m: int)
    requires Inv(h) && Malloc(h, size).ptr != NULL
    ensures var r, k := Malloc(h, size), Chosen(h, size);
            && Good(h.blocks, k, Request(size)) && r.ptr == h.blocks[k].at + HEADER
            && !Live(h.blocks, r.ptr - HEADER, m)
            && Granted(h.blocks, k, Request(size)) >= Request(size)
            && (Live(r.heap.blocks, x, m) <==>
                  if x == r.ptr - HEADER then m == Granted(h.blocks, k, Request(size)) else Live(h.blocks, x, m))
  {
    hide Live, Carve;
    SearchIs(h.blocks, IndexOf(h.blocks, h.lfree), Request(size));
    var k := Chosen(h, size);
    CarveLive(h.blocks, k, Request(size), x, m);
    NotLive(h.blocks, k, m);
  }

  lemma NotLive(bs: seq<Block>, k: nat, m: int)
    requires Tiles(bs) && k < |bs| && !bs[k].used
    ensures !Live(bs, bs[k].at, m)
  {
    if Live(bs, bs[k].at, m) {
      LiveOwned(bs, bs[k].at, m);
      At(bs, k);
      assert false;
    }
  }

  /** The bytes in use grow by the new block. */
  lemma MallocBytes(h: Heap, size: int)
    requires Inv(h)
    ensures var r := Malloc(h, size);
            if r.ptr == NULL then r.heap == h
            else
              var got := Granted(h.blocks, Chosen(h, size), Request(size));
              UsedBytes(r.heap.blocks) == UsedBytes(h.blocks) + got + HEADER
  {
    hide Carve, UsedBytes;
    SearchIs(h.blocks, IndexOf(h.blocks, h.lfree), Request(size));
    if Malloc(h, size).ptr != NULL {
      CarveBytes(h.blocks, Chosen(h, size), Request(size));
    }
  }

  /** rt_free undoes rt_malloc: the same blocks are free, and the search starts at the same one. */
  lemma FreeUndoesMalloc(h: Heap, size: int)
    requires Inv(h) && Malloc(h, size).ptr != NULL
    ensures var r := Malloc(h, size);
            var k := IndexOf(r.heap.blocks, r.ptr - HEADER);
            Owned(r.heap.blocks, k) && Free(r.heap, k) == h
  {
    var k, n := Chosen(h, size), Request(size);
    SearchIs(h.blocks, IndexOf(h.blocks, h.lfree), n);
    CarveFramed(h.blocks, k, n);
    At(Carve(h.blocks, k, n), k);
    FreeUndoesTake(h, k, n);
  }

  lemma FreeUndoesTake(h: Heap, k: nat, n: int)
    requires Inv(h) && Good(h.blocks, k, n) && IndexOf(h.blocks, h.lfree) <= k && 0 <= n
    ensures Owned(Take(h, k, n).blocks, k) && Free(Take(h, k, n), k) == h
  {
    hide Tiles, Carve, SplitAt, JoinAt, MergedBut;
    var bs, t := h.blocks, Take(h, k, n);
    var l :| 0 <= l < |bs| && bs[l].at == h.lfree && (l == |bs| - 1 || !bs[l].used);
    At(bs, l);
    CarveFramed(bs, k, n);
    Neighbours(bs, k);
    Order(bs, l, k);
    var l' := NextFree(t.blocks, k);
    Order(t.blocks, k, l');
    assert t.blocks[k].at == bs[k].at && (k > 0 ==> t.blocks[k - 1] == bs[k - 1]);
    var g := Released(t, k);
    assert g.lfree == h.lfree;
    MarkBack(bs, k, n);
    if Payload(bs, k) >= n + HEADER + MINSIZE {
      Order(t.blocks, k, k + 1);
      CarvedRest(bs, k, n);
      assert PlugRight(g, k) == h;
    } else {
      assert PlugRight(g, k) == h;
    }
  }

  lemma CarvedRest(bs: seq<Block>, k: nat, n: int)
    requires k + 1 < |bs| && Payload(bs, k) >= n + HEADER + MINSIZE
    ensures Carve(bs, k, n)[k + 1] == Block(bs[k].at + HEADER + n, false)
  {
  }

  lemma Neighbours(bs: seq<Block>, k: nat)
    requires MergedBut(bs, -1) && k + 1 < |bs| && !bs[k].used
    ensures bs[k + 1].used && (k > 0 ==> bs[k - 1].used)
  {
    assert !FreePair(bs, k) && (k > 0 ==> !FreePair(bs, k - 1));
  }

  lemma MarkBack(bs: seq<Block>, k: nat, n: int)
    requires k + 1 < |bs| && !bs[k].used
    ensures var r := Mark(Carve(bs, k, n), k, false);
            if Payload(bs, k) >= n + HEADER + MINSIZE then |r| == |bs| + 1 && JoinAt(r, k) == bs else r == bs
  {
    var a := bs[k].at + HEADER + n;
    if Payload(bs, k) >= n + HEADER + MINSIZE {
      var r := Mark(Carve(bs, k, n), k, false);
      assert r == SplitAt(bs, k, a);
      assert JoinAt(r, k) == bs;
    } else {
      assert Mark(Mark(bs, k, true), k, false) == bs;
    }
  }

  // ---------------------------------------------------------------- reallocation

  /** After a successful rt_malloc the old block is still there. */
  lemma StillOwned(h: Heap, k: nat, size: int)
    requires Inv(h) && Owned(h.blocks, k) && Malloc(h, size).ptr != NULL
    ensures var r := Malloc(h, size);
            var k' := IndexOf(r.heap.blocks, h.blocks[k].at);
            && Inv(r.heap) && Owned(r.heap.blocks, k') && r.heap.blocks[k'].at == h.blocks[k].at
            && Payload(r.heap.blocks, k') == Payload(h.blocks, k) && r.ptr != h.blocks[k].at + HEADER
  {
    hide Live, Malloc;
    MallocInv(h, size);
    OwnedLive(h.blocks, k);
    MallocLive(h, size, h.blocks[k].at, Payload(h.blocks, k));
    LiveOwned(Malloc(h, size).heap.blocks, h.blocks[k].at, Payload(h.blocks, k));
  }

  lemma ReallocInv(h: Heap, k: nat, size: int)
    requires Inv(h) && Owned(h.blocks, k)
    ensures Inv(Realloc(h, k, size).heap) && SameExtent(h, Realloc(h, k, size).heap)
    ensures Lowest(h) && !Shrinks(h, k, Align(size)) ==> Lowest(Realloc(h, k, size).heap)
  {
    var n := Align(size);
    hide Inv, Lowest, Free, Shrink, Malloc, Align;
    AlignNonNegative(size);
    if n > MemSize(h.blocks) {
      SameItself(h);
    } else if n == 0 {
      FreeInv(h, k);
    } else if n == Payload(h.blocks, k) {
      SameItself(h);
    } else if n + HEADER + MINSIZE < Payload(h.blocks, k) {
      ShrinkInv(h, k, n);
    } else {
      var r := Malloc(h, n);
      MallocInv(h, n);
      if r.ptr != NULL {
        StillOwned(h, k, n);
        FreeInv(r.heap, IndexOf(r.heap.blocks, h.blocks[k].at));
      }
    }
  }

  lemma SameItself(h: Heap)
    requires Inv(h)
    ensures SameExtent(h, h)
  {
  }

  /** rt_realloc keeps every other allocation; this one becomes long enough, or nothing happens at all. */
  lemma ReallocLive(h: Heap, k: nat, size: int, x: int, m: int)
    requires Inv(h) && Owned(h.blocks, k) && Align(size) > 0
    ensures var r, a := Realloc(h, k, size), h.blocks[k].at;
            && (r.ptr == NULL ==> r.heap == h)
            && (r.ptr != NULL ==> LiveAtLeast(r.heap.blocks, r.ptr - HEADER, Align(size)))
            && (r.ptr != NULL && x != r.ptr - HEADER ==>
                  (Live(r.heap.blocks, x, m) <==> Live(h.blocks, x, m) && x != a))
  {
    hide Live, Free, Shrink, Malloc, Align;
    var n, a := Align(size), h.blocks[k].at;
    OwnedLive(h.blocks, k);
    if n > MemSize(h.blocks) || n == Payload(h.blocks, k) {
    } else if n + HEADER + MINSIZE < Payload(h.blocks, k) {
      ShrinkLive(h, k, n, x, m);
      ShrinkLive(h, k, n, a, n);
    } else {
      AlignTwice(size);
      assert Request(n) >= n;
      MoveLive(h, k, n, x, m);
    }
  }

  /**
   What rt_realloc does in place, exactly: a block of the length asked for stays as it is, and one that can be cut gets
   that length, where it is, with the difference out of use.
   */
  lemma ReallocInPlace(h: Heap, k: nat, size: int)
    requires Inv(h) && Owned(h.blocks, k) && 0 < Align(size)
    ensures var r, n, have, a := Realloc(h, k, size), Align(size), Payload(h.blocks, k), h.blocks[k].at;
            && (n == have ==> r == Outcome(h, a + HEADER))
            && (n + HEADER + MINSIZE < have ==>
                  && r.ptr == a + HEADER && Live(r.heap.blocks, a, n)
                  && UsedBytes(r.heap.blocks) == UsedBytes(h.blocks) - (have - n))
  {
    hide Live, Shrink, Malloc, Align, UsedBytes, Moved;
    var n := Align(size);
    Extent(h.blocks, k);
    Extent(h.blocks, 0);
    if n + HEADER + MINSIZE < Payload(h.blocks, k) {
      ShrinkLive(h, k, n, h.blocks[k].at, n);
      ShrinkBytes(h, k, n);
    }
  }

  lemma MoveLive(h: Heap, k: nat, n: int, x: int, m: int)
    requires Inv(h) && Owned(h.blocks, k) && n > 0
    ensures var r := Malloc(h, n);
            var k' := IndexOf(r.heap.blocks, h.blocks[k].at);
            if r.ptr == NULL then r.heap == h
            else
              && Owned(r.heap.blocks, k')
              && LiveAtLeast(Free(r.heap, k').blocks, r.ptr - HEADER, Request(n))
              && (x != r.ptr - HEADER ==>
                    (Live(Free(r.heap, k').blocks, x, m) <==> Live(h.blocks, x, m) && x != h.blocks[k].at))
  {
    MallocBytes(h, n);
    hide Live, Free, Malloc;
    var r := Malloc(h, n);
    if r.ptr != NULL {
      StillOwned(h, k, n);
      var k', got := IndexOf(r.heap.blocks, h.blocks[k].at), Granted(h.blocks, Chosen(h, n), Request(n));
      MallocLive(h, n, x, m);
      MallocLive(h, n, r.ptr - HEADER, got);
      FreeLive(r.heap, k', x, m);
      FreeLive(r.heap, k', r.ptr - HEADER, got);
    }
  }

  /**
   rt_realloc succeeds if and only if the block has exactly the new length, or is so much longer that it can be cut,
   or rt_malloc finds another one: a block that is only a little too long is not kept.
   */
  lemma ReallocSucceeds(h: Heap, k: nat, size: int)
    requires Inv(h) && Owned(h.blocks, k) && MemSize(h.blocks) >= MINSIZE
    ensures var n, have := Align(size), Payload(h.blocks, k);
            Realloc(h, k, size).ptr != NULL <==>
            && n > 0
            && (|| n == have || n + HEADER + MINSIZE < have
                || exists i: nat :: Roomy(h.blocks, i, Request(n)) && h.lfree <= h.blocks[i].at)
  {
    hide Tiles, Malloc, Align, Free, Shrink, Roomy;
    var n := Align(size);
    AlignNonNegative(size);
    AlignTwice(size);
    Extent(h.blocks, 0);
    Extent(h.blocks, k);
    MallocSucceeds(h, n);
    if n > MemSize(h.blocks) {
      TooLong(h, n);
    }
  }

  lemma TooLong(h: Heap, n: int)
    requires Inv(h) && n > MemSize(h.blocks) && Align(n) == n
    ensures forall i: nat :: !Roomy(h.blocks, i, Request(n))
  {
    forall i: nat | i + 1 < |h.blocks| ensures !Roomy(h.blocks, i, Request(n)) {
      Extent(h.blocks, i);
    }
  }

  // ---------------------------------------------------------------- the bytes of a client

  /** No payload differs: this is all that the writes to headers may do. */
  ghost predicate SamePayloads(bs: seq<Block>, m: Bytes, m': Bytes) {
    forall a, n :: Live(bs, a, n) ==> SameBytes(m, m', a + HEADER, n)
  }

  /** How many bytes the copying path copies. */
  function CopyCount(bs: seq<Block>, k: nat, n: int): int
    requires k + 1 < |bs|
  {
    if Payload(bs, k) < n then Payload(bs, k) else n
  }

  /** A new allocation does not overlap one that was there. */
  lemma NewIsApart(h: Heap, size: int, x: int, len: int)
    requires Inv(h) && Malloc(h, size).ptr != NULL && Live(h.blocks, x, len)
    ensures var r, got := Malloc(h, size), Granted(h.blocks, Chosen(h, size), Request(size));
            x + HEADER + len <= r.ptr || r.ptr + got <= x
  {
    hide Malloc, Live, Tiles, MergedBut, StartsFree, Granted, Chosen;
    MallocInv(h, size);
    MallocLive(h, size, x, len);
    var r, got := Malloc(h, size), Granted(h.blocks, Chosen(h, size), Request(size));
    MallocLive(h, size, r.ptr - HEADER, got);
    if x < r.ptr - HEADER {
      LiveDisjoint(r.heap, x, len, r.ptr - HEADER, got);
    } else if r.ptr - HEADER < x {
      LiveDisjoint(r.heap, r.ptr - HEADER, got, x, len);
    }
  }

  /**
   With the memory m before the copying path, m1 after the allocation and m2 at the end: the client finds the first
   bytes of the old block, as many as both blocks hold, and nobody else's bytes have changed.
   */
  lemma MoveCopies(h: Heap, k: nat, n: int, m: Bytes, m1: Bytes, m2: Bytes)
    requires Inv(h) && Owned(h.blocks, k) && Align(n) == n > 0 && Malloc(h, n).ptr != NULL
    requires SamePayloads(h.blocks, m, m1)
    requires var c := Copied(m1, h.blocks[k].at + HEADER, Malloc(h, n).ptr, CopyCount(h.blocks, k, n));
             SamePayloads(Moved(h, k, n).blocks, c, m2)
    ensures CopyOf(m, h.blocks[k].at + HEADER, m2, Malloc(h, n).ptr, CopyCount(h.blocks, k, n))
    ensures forall x, len :: Live(h.blocks, x, len) && x != h.blocks[k].at ==> SameBytes(m, m2, x + HEADER, len)
  {
    hide Malloc, Live, Inv, Granted, Chosen, Align, Free, Copied, SameBytes, CopyOf, Moved;
    var a, have, r, count := h.blocks[k].at, Payload(h.blocks, k), Malloc(h, n), CopyCount(h.blocks, k, n);
    MallocLive(h, n, a, have);
    var got, c := Granted(h.blocks, Chosen(h, n), Request(n)), Copied(m1, a + HEADER, r.ptr, count);
    OwnedLive(h.blocks, k);
    MovedLive(h, k, n, r.ptr - HEADER, got);
    FewerBytes(m, m1, a + HEADER, have, count);
    FewerBytes(c, m2, r.ptr, got, count);
    CopyArrives(m, m1, m2, a + HEADER, r.ptr, count);
    forall x, len | Live(h.blocks, x, len) && x != a ensures SameBytes(m, m2, x + HEADER, len) {
      MovedLive(h, k, n, x, len);
      NewIsApart(h, n, x, len);
      CopySpares(m, m1, m2, a + HEADER, r.ptr, count, x + HEADER, len);
    }
  }

  /** What clients hold after the copying path. */
  lemma MovedLive(h: Heap, k: nat, n: int, x: int, len: int)
    requires Inv(h) && Owned(h.blocks, k) && Malloc(h, n).ptr != NULL
    ensures var got := Granted(h.blocks, Chosen(h, n), Request(n));
            && got >= Request(n)
            && (x == Malloc(h, n).ptr - HEADER && len == got ==> Live(Moved(h, k, n).blocks, x, len))
            && (Live(h.blocks, x, len) && x != h.blocks[k].at ==> Live(Moved(h, k, n).blocks, x, len))
  {
    hide Live, Malloc, Inv, Granted, Chosen, Request, Free;
    var r := Malloc(h, n);
    StillOwned(h, k, n);
    MallocLive(h, n, x, len);
    FreeLive(r.heap, IndexOf(r.heap.blocks, h.blocks[k].at), x, len);
  }

  /**
   The bound of the search is computed in machine words.  A request that was
   rounded up to the minimum exceeds a heap smaller than that; then the bound
   wraps, and the search passes the end marker, which is its own successor,
   for ever.  In every other case the bound is the difference.
   */
  lemma SearchBound(h: Heap, n: int, k: nat)
    requires Inv(h) && MemSize(h.blocks) < WORD - 24 && k < |h.blocks| && MINSIZE <= n
    requires n == MINSIZE || n <= MemSize(h.blocks)
    ensures MINSIZE <= MemSize(h.blocks) ==> (MemSize(h.blocks) - n) % WORD == MemSize(h.blocks) - n
    ensures MINSIZE > MemSize(h.blocks) ==>
              h.blocks[k].at < (MemSize(h.blocks) - n) % WORD && (k + 1 < |h.blocks| ==> Payload(h.blocks, k) < n)
  {
    hide Tiles;
    Order(h.blocks, k, |h.blocks| - 1);
    Extent(h.blocks, 0);
    if k + 1 < |h.blocks| {
      Extent(h.blocks, k);
    }
    if MINSIZE > MemSize(h.blocks) {
      assert (MemSize(h.blocks) - n) % WORD == MemSize(h.blocks) - n + WORD;
    }
  }

  /** rt_malloc comes back. */
  predicate Returns(h: Heap, size: int) {
    |h.blocks| > 0 && (size == 0 || Align(size) > MemSize(h.blocks) || MemSize(h.blocks) >= MINSIZE)
  }

  /** rt_realloc of block k comes back: it need not allocate, or the allocation does. */
  predicate ReallocReturns(h: Heap, k: nat, size: int)
    requires k + 1 < |h.blocks|
  {
    var n, have := Align(size), Payload(h.blocks, k);
    n == 0 || n > MemSize(h.blocks) || n == have || n + HEADER + MINSIZE < have || Returns(h, n)
  }

  /** The block that the search looks at after so many steps; the end marker is its own successor. */
  function Looked(bs: seq<Block>, k: nat, steps: nat): int {
    if k + steps < |bs| then k + steps else |bs| - 1
  }

  /** Otherwise the search goes on for ever: after any number of steps it has found nothing and the bound holds. */
  lemma SearchNeverEnds(h: Heap, size: int, steps: nat)
    requires Inv(h) && MemSize(h.blocks) < WORD - 24 && !Returns(h, size)
    ensures var k, n := Looked(h.blocks, IndexOf(h.blocks, h.lfree), steps), Request(size);
            && 0 <= k < |h.blocks| && h.blocks[k].at < (MemSize(h.blocks) - n) % WORD
            && !(!h.blocks[k].used && k + 1 < |h.blocks| && Payload(h.blocks, k) >= n)
  {
    hide Tiles, MergedBut;
    AlignNonNegative(size);
    SearchBound(h, Request(size), Looked(h.blocks, IndexOf(h.blocks, h.lfree), steps));
  }

  // ---------------------------------------------------------------- alignment

  /** Every header, and so every payload, lies at a multiple of RT_ALIGN_SIZE. */
  ghost predicate Aligned(bs: seq<Block>) {
    forall i :: 0 <= i < |bs| ==> bs[i].at % 4 == 0
  }

  lemma PlugAligned(h: Heap, k: nat)
    requires Aligned(h.blocks) && k + 1 < |h.blocks|
    ensures Aligned(PlugHoles(h, k).blocks)
  {
  }

  lemma SplitAligned(bs: seq<Block>, k: nat, n: int)
    requires Aligned(bs) && k < |bs| && n % 4 == 0
    ensures Aligned(SplitAt(bs, k, bs[k].at + HEADER + n))
  {
    assert (bs[k].at + HEADER + n) % 4 == 0;
  }

  lemma MallocAligned(h: Heap, size: int)
    requires Aligned(h.blocks) && |h.blocks| > 0
    ensures Aligned(Malloc(h, size).heap.blocks) && (Malloc(h, size).ptr != NULL ==> Malloc(h, size).ptr % 4 == 0)
  {
    hide Search, Align;
    var k := Search(h.blocks, IndexOf(h.blocks, h.lfree), Request(size));
    RequestAligned(size);
    if k + 1 < |h.blocks| {
      SplitAligned(h.blocks, k, Request(size));
    }
  }

  lemma FreeAligned(h: Heap, k: nat)
    requires Aligned(h.blocks) && Owned(h.blocks, k)
    ensures Aligned(Free(h, k).blocks)
  {
    PlugAligned(Released(h, k), k);
  }

  lemma ReallocAligned(h: Heap, k: nat, size: int)
    requires Aligned(h.blocks) && Owned(h.blocks, k)
    ensures Aligned(Realloc(h, k, size).heap.blocks)
    ensures Realloc(h, k, size).ptr != NULL ==> Realloc(h, k, size).ptr % 4 == 0
  {
    hide Align, Free, Malloc, SplitAt, PlugHoles;
    var n := Align(size);
    AlignNonNegative(size);
    FreeAligned(h, k);
    MallocAligned(h, n);
    if n + HEADER + MINSIZE < Payload(h.blocks, k) {
      SplitAligned(h.blocks, k, n);
      SplitShape(h.blocks, k, h.blocks[k].at + HEADER + n);
      PlugAligned(Heap(SplitAt(h.blocks, k, h.blocks[k].at + HEADER + n), h.lfree), k + 1);
    }
    var r := Malloc(h, n);
    var k' := IndexOf(r.heap.blocks, h.blocks[k].at);
    if Owned(r.heap.blocks, k') {
      FreeAligned(r.heap, k');
    }
  }

  // ---------------------------------------------------------------- whole runs

  datatype Call = DoMalloc(size: int) | DoFree(at: int) | DoRealloc(at: int, size: int)

  /** The client owns what it gives back, and the call comes back. */
  predicate Legal(h: Heap, c: Call) {
    match c
    case DoMalloc(size) => Returns(h, size)
    case DoFree(at) => Owned(h.blocks, IndexOf(h.blocks, at))
    case DoRealloc(at, size) =>
      var k := IndexOf(h.blocks, at);
      Owned(h.blocks, k) && ReallocReturns(h, k, size)
  }

  function Step(h: Heap, c: Call): Heap
    requires |h.blocks| > 0 && Legal(h, c)
  {
    match c
    case DoMalloc(size) => Malloc(h, size).heap
    case DoFree(at) => Free(h, IndexOf(h.blocks, at))
    case DoRealloc(at, size) => Realloc(h, IndexOf(h.blocks, at), size).heap
  }

  lemma StepInv(h: Heap, c: Call)
    requires Inv(h) && Legal(h, c)
    ensures Inv(Step(h, c)) && SameExtent(h, Step(h, c))
    ensures Lowest(h) && !c.DoRealloc? ==> Lowest(Step(h, c))
  {
    hide Inv, Lowest, Malloc, Free, Realloc;
    match c
    case DoMalloc(size) => MallocInv(h, size);
    case DoFree(at) => FreeInv(h, IndexOf(h.blocks, at));
    case DoRealloc(at, size) => ReallocInv(h, IndexOf(h.blocks, at), size);
  }

  ghost predicate Runs(h: Heap, calls: seq<Call>, g: Heap)
    decreases |calls|
  {
    if calls == [] then h == g
    else |h.blocks| > 0 && Legal(h, calls[0]) && Runs(Step(h, calls[0]), calls[1..], g)
  }

  /** The invariant holds after every run; without reallocations the search always starts at the lowest free block. */
  lemma {:induction false} RunInv(h: Heap, calls: seq<Call>, g: Heap)
    requires Inv(h) && Runs(h, calls, g)
    ensures Inv(g) && SameExtent(h, g)
    ensures Lowest(h) && (forall c :: c in calls ==> !c.DoRealloc?) ==> Lowest(g)
    decreases |calls|
  {
    TilesOf(h);
    hide Inv, Lowest, Step;
    if calls != [] {
      StepInv(h, calls[0]);
      RunInv(Step(h, calls[0]), calls[1..], g);
    }
  }

  /** So over all such runs the shortcut allocates exactly as first fit from the start of the heap. */
  lemma RunFirstFit(memSize: nat, calls: seq<Call>, h: Heap, n: int)
    requires Runs(InitHeap(memSize), calls, h) && forall c :: c in calls ==> !c.DoRealloc?
    ensures Search(h.blocks, IndexOf(h.blocks, h.lfree), n) == Search(h.blocks, 0, n)
  {
    InitInv(memSize);
    RunInv(InitHeap(memSize), calls, h);
    FirstFit(h, n);
  }
}
