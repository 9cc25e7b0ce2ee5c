/**
 The system heap as src/mem.c keeps it: headers at offsets of the heap, each
 with the offsets of its neighbours, updated in place.

 Every method is proved against SystemHeapSpec.
 */
module SystemHeap {

  import opened Rounding
  import opened SystemHeapSpec

  /** The header fields of all blocks, by offset; headers of joined blocks stay behind unused. */
  datatype Memory = Memory(next: map<int, int>, prev: map<int, int>, used: map<int, bool>)

  ghost predicate Has(m: Memory, a: int) {
    a in m.next && a in m.prev && a in m.used
  }

  /** The header of block i links it to its neighbours; nothing is known of the end marker's prev. */
  ghost predicate HeaderOk(bs: seq<Block>, m: Memory, i: nat)
    requires i < |bs|
  {
    && Has(m, bs[i].at) && m.used[bs[i].at] == bs[i].used
    && m.next[bs[i].at] == (if i + 1 < |bs| then bs[i + 1].at else bs[i].at)
    && (i + 1 < |bs| ==> m.prev[bs[i].at] == if i == 0 then bs[0].at else bs[i - 1].at)
  }

  ghost predicate Headers(bs: seq<Block>, m: Memory) {
    forall i :: 0 <= i < |bs| ==> HeaderOk(bs, m, i)
  }

  /** The header writes of a split: the new header at offset a, and both links to it. */
  function SplitMem(m: Memory, ptr: int, a: int, end: int): Memory
    requires ptr in m.next
  {
    var n := m.next[ptr];
    var prev := if n != end then m.prev[a := ptr][n := a] else m.prev[a := ptr];
    Memory(m.next[a := n][ptr := a], prev, m.used[a := false])
  }

  /** The header writes of a join: block ptr swallows the next one. */
  function JoinMem(m: Memory, ptr: int, next: int): Memory
    requires next in m.next
  {
    m.(next := m.next[ptr := m.next[next]], prev := m.prev[m.next[next] := ptr])
  }

  lemma SplitHeaders(bs: seq<Block>, m: Memory, k: nat, a: int)
    requires Framed(bs) && Headers(bs, m) && k + 1 < |bs| && bs[k].at < a < bs[k + 1].at
    ensures HeaderOk(bs, m, k) && Headers(SplitAt(bs, k, a), SplitMem(m, bs[k].at, a, bs[|bs| - 1].at))
  {
    hide SplitAt, Tiles, Headers;
    OneHeader(bs, m, k);
    var r, m' := SplitAt(bs, k, a), SplitMem(m, bs[k].at, a, bs[|bs| - 1].at);
    SplitShape(bs, k, a);
    Order(bs, k + 1, |bs| - 1);
    OneHeader(bs, m, k + 1);
    forall i | 0 <= i < |r| && i != k + 1 ensures HeaderOk(r, m', i) {
      var j := if i <= k then i else i - 1;
      assert r[i] == bs[j];
      OneHeader(bs, m, j);
      Order(bs, j, k);
      Order(bs, j, k + 1);
    }
    assert HeaderOk(r, m', k + 1);
    AllHeaders(r, m');
  }

  lemma OneHeader(bs: seq<Block>, m: Memory, i: nat)
    requires Headers(bs, m) && i < |bs|
    ensures HeaderOk(bs, m, i)
  {
  }

  lemma AllHeaders(bs: seq<Block>, m: Memory)
    requires forall i :: 0 <= i < |bs| ==> HeaderOk(bs, m, i)
    ensures Headers(bs, m)
  {
  }

  lemma JoinHeaders(bs: seq<Block>, m: Memory, k: nat)
    requires Framed(bs) && Headers(bs, m) && k + 2 < |bs|
    ensures HeaderOk(bs, m, k) && HeaderOk(bs, m, k + 1) && m.next[bs[k].at] == bs[k + 1].at
    ensures Headers(JoinAt(bs, k), JoinMem(m, bs[k].at, bs[k + 1].at))
  {
    hide JoinAt, Tiles, Headers;
    OneHeader(bs, m, k);
    OneHeader(bs, m, k + 1);
    var r, m' := JoinAt(bs, k), JoinMem(m, bs[k].at, bs[k + 1].at);
    JoinShape(bs, k);
    forall i | 0 <= i < |r| ensures HeaderOk(r, m', i) {
      var j := if i <= k then i else i + 1;
      assert r[i] == bs[j];
      OneHeader(bs, m, j);
      Order(bs, j, k);
      Order(bs, j, k + 2);
    }
    AllHeaders(r, m');
  }

  lemma MarkHeaders(bs: seq<Block>, m: Memory, k: nat, used: bool)
    requires Framed(bs) && Headers(bs, m) && k + 1 < |bs|
    ensures Headers(Mark(bs, k, used), m.(used := m.used[bs[k].at := used]))
  {
    hide Tiles, Headers;
    var r, m' := Mark(bs, k, used), m.(used := m.used[bs[k].at := used]);
    forall i | 0 <= i < |r| ensures HeaderOk(r, m', i) {
      OneHeader(bs, m, i);
      Order(bs, i, k);
    }
    AllHeaders(r, m');
  }

  /** What a method may rely on at block k. */
  lemma BlockFacts(bs: seq<Block>, m: Memory, k: nat)
    requires Framed(bs) && Headers(bs, m) && k < |bs|
    ensures Has(m, bs[k].at) && m.used[bs[k].at] == bs[k].used
    ensures k + 1 < |bs| ==>
              m.next[bs[k].at] == bs[k + 1].at && Has(m, bs[k + 1].at) && m.used[bs[k + 1].at] == bs[k + 1].used
    ensures k + 1 < |bs| ==> m.prev[bs[k].at] == (if k == 0 then bs[0].at else bs[k - 1].at) && Has(m, m.prev[bs[k].at])
    ensures k + 1 < |bs| && k > 0 ==> m.used[m.prev[bs[k].at]] == bs[k - 1].used && bs[k - 1].at != bs[k].at
    ensures k + 1 < |bs| ==> bs[k].at + HEADER <= bs[k + 1].at
    ensures bs[k].at == bs[|bs| - 1].at <==> k == |bs| - 1
  {
    hide Tiles, Headers;
    OneHeader(bs, m, k);
    Order(bs, k, |bs| - 1);
    if k + 1 < |bs| {
      OneHeader(bs, m, k + 1);
      Extent(bs, k);
    }
    if k > 0 {
      OneHeader(bs, m, k - 1);
      Order(bs, k - 1, k);
    }
  }

  class Heap {
    const memSize: nat   // mem_size_aligned
    var next: map<int, int>
    var prev: map<int, int>
    var used: map<int, bool>
    var lfree: int
    var usedMem: int
    var maxMem: int
    ghost var blocks: seq<Block>

    ghost function H(): SystemHeapSpec.Heap
      reads this
    {
      SystemHeapSpec.Heap(blocks, lfree)
    }

    function Mem(): Memory
      reads this
    {
      Memory(next, prev, used)
    }

    /** The headers describe the blocks; the blocks fill the heap. */
    ghost predicate Linked()
      reads this
    {
      Framed(blocks) && Headers(blocks, Mem()) && MemSize(blocks) == memSize
    }

    ghost predicate Valid()
      reads this
    {
      && Linked() && Inv(H())
      && usedMem == UsedBytes(blocks) <= maxMem
    }

    /** rt_system_heap_init, for a heap of this many bytes between two headers. */
    constructor (size: nat)
      ensures Valid() && memSize == size && H() == InitHeap(size) && usedMem == maxMem == 0
    {
      memSize := size;
      var end := size + HEADER;
      next, prev, used := map[0 := end, end := end], map[0 := 0, end := end], map[0 := false, end := true];
      lfree, usedMem, maxMem := 0, 0, 0;
      blocks := [Block(0, false), Block(end, true)];
      new;
      InitInv(size);
      assert HeaderOk(blocks, Mem(), 0) && HeaderOk(blocks, Mem(), 1);
      assert blocks[1..] == [Block(end, true)] && UsedBytes(blocks[1..]) == 0;
    }

    /** A new free header at offset ptr2 inside block k. */
    method Split(ptr: int, ptr2: int, ghost k: nat)
      requires Linked() && k + 1 < |blocks| && ptr == blocks[k].at && ptr + HEADER <= ptr2
      requires ptr2 + HEADER <= blocks[k + 1].at
      modifies this`next, this`prev, this`used, this`blocks
      ensures Linked() && blocks == SplitAt(old(blocks), k, ptr2)
    {
      hide Headers, SplitAt, Tiles;
      BlockFacts(blocks, Mem(), k);
      SplitHeaders(blocks, Mem(), k, ptr2);
      SplitFramed(blocks, k, ptr2);
      SplitShape(blocks, k, ptr2);
      used := used[ptr2 := false];
      next := next[ptr2 := next[ptr]];
      prev := prev[ptr2 := ptr];
      next := next[ptr := ptr2];
      if next[ptr2] != memSize + HEADER {
        prev := prev[next[ptr2] := ptr2];
      }
      blocks := SplitAt(blocks, k, ptr2);
    }

    /** Block k, at offset ptr, swallows the next one. */
    method Join(ptr: int, ghost k: nat)
      requires Linked() && k + 2 < |blocks| && ptr == blocks[k].at
      modifies this`next, this`prev, this`blocks
      ensures Linked() && blocks == JoinAt(old(blocks), k)
    {
      hide Headers, JoinAt, Tiles;
      JoinHeaders(blocks, Mem(), k);
      JoinFramed(blocks, k);
      var n := next[ptr];
      next := next[ptr := next[n]];
      prev := prev[next[n] := ptr];
      blocks := JoinAt(blocks, k);
    }

    method SetUsed(ptr: int, flag: bool, ghost k: nat)
      requires Linked() && k + 1 < |blocks| && ptr == blocks[k].at
      modifies this`used, this`blocks
      ensures Linked() && blocks == Mark(old(blocks), k, flag)
    {
      hide Headers, Tiles;
      MarkHeaders(blocks, Mem(), k, flag);
      MarkFramed(blocks, k, flag);
      used := used[ptr := flag];
      blocks := Mark(blocks, k, flag);
    }

    /** plug_holes */
    method PlugHoles(mem: int, ghost k: nat)
      requires Linked() && k + 1 < |blocks| && mem == blocks[k].at && !blocks[k].used
      modifies this`next, this`prev, this`blocks, this`lfree
      ensures Linked() && H() == SystemHeapSpec.PlugHoles(old(H()), k)
    {
      hide Headers, JoinAt, Tiles;
      BlockFacts(blocks, Mem(), k);
      BlockFacts(blocks, Mem(), k + 1);
      JoinShape(blocks, k);
      var nmem := next[mem];
      if mem != nmem && !used[nmem] && nmem != memSize + HEADER {
        if lfree == nmem {
          lfree := mem;
        }
        Join(mem, k);
      }
      assert H() == PlugRight(old(H()), k);
      BlockFacts(blocks, Mem(), k);
      var pmem := prev[mem];
      if pmem != mem && !used[pmem] {
        if lfree == mem {
          lfree := pmem;
        }
        Join(pmem, k - 1);
      }
    }

    /** The inner part of rt_malloc: block k, at offset ptr, is taken for size bytes. */
    method Take(ptr: int, size: int, ghost k: nat)
      requires Valid() && k + 1 < |blocks| && ptr == blocks[k].at && !blocks[k].used && 0 <= size <= Payload(blocks, k)
      modifies this
      ensures Valid() && H() == SystemHeapSpec.Take(old(H()), k, size)
      ensures maxMem == if old(maxMem) < usedMem then usedMem else old(maxMem)
    {
      hide Headers, SplitAt, Tiles, Inv, UsedBytes;
      TakeInv(H(), k, size);
      CarveBytes(blocks, k, size);
      BlockFacts(blocks, Mem(), k);
      SplitShape(blocks, k, ptr + HEADER + size);
      if next[ptr] - (ptr + HEADER) >= size + HEADER + MINSIZE {
        Split(ptr, ptr + HEADER + size, k);
        SetUsed(ptr, true, k);
        usedMem := usedMem + size + HEADER;
      } else {
        SetUsed(ptr, true, k);
        BlockFacts(blocks, Mem(), k);
        usedMem := usedMem + next[ptr] - ptr;
      }
      if maxMem < usedMem {
        maxMem := usedMem;
      }
      assert blocks == Carve(old(blocks), k, size);
      if ptr == lfree {
        SkipUsed(k);
      }
    }

    /** The loop that moves lfree from block k to the next free block, or to the end. */
    method SkipUsed(ghost k: nat)
      requires Linked() && k < |blocks| && lfree == blocks[k].at
      modifies this`lfree
      ensures lfree == blocks[NextFree(blocks, k)].at
    {
      hide Headers, Tiles;
      ghost var j := k;
      BlockFacts(blocks, Mem(), j);
      while used[lfree] && lfree != memSize + HEADER
        invariant j < |blocks| && lfree == blocks[j].at && NextFree(blocks, k) == NextFree(blocks, j)
        invariant Has(Mem(), lfree) && used[lfree] == blocks[j].used
        invariant lfree == memSize + HEADER <==> j == |blocks| - 1
        decreases |blocks| - j
      {
        BlockFacts(blocks, Mem(), j);
        BlockFacts(blocks, Mem(), j + 1);
        lfree := next[lfree];
        j := j + 1;
      }
    }

    /** rt_malloc; the result is the offset of the payload. */
    method Malloc(request: int) returns (ptr: int)
      requires Valid() && 0 <= request < WORD && Returns(H(), request)
      modifies this
      ensures Valid() && SystemHeapSpec.Outcome(H(), ptr) == SystemHeapSpec.Malloc(old(H()), request)
      ensures maxMem == if old(maxMem) < usedMem then usedMem else old(maxMem)
    {
      hide Headers, Tiles, Inv, UsedBytes, Align, SystemHeapSpec.Take, IndexOf, Search;
      if request == 0 {
        return NULL;
      }
      var size := Align(request);
      if size > memSize {
        return NULL;
      }
      if size < MINSIZE {
        size := MINSIZE;
      }
      var found, at := Find(size);
      if !found {
        return NULL;
      }
      SearchGood(H(), size);
      Take(at, size, Search(blocks, IndexOf(blocks, lfree), size));
      ptr := at + HEADER;
    }

    /** The search loop of rt_malloc. */
    method Find(size: int) returns (found: bool, at: int)
      requires Valid() && MINSIZE <= size && size <= memSize
      ensures found <==> Search(blocks, IndexOf(blocks, lfree), size) < |blocks|
      ensures found ==> at == blocks[Search(blocks, IndexOf(blocks, lfree), size)].at
    {
      hide Headers, Tiles, Inv, UsedBytes, IndexOf;
      ghost var k: nat := Start(H());
      BlockFacts(blocks, Mem(), k);
      at := lfree;
      while at < memSize - size
        invariant k < |blocks| && at == blocks[k].at
        invariant Search(blocks, IndexOf(blocks, lfree), size) == Search(blocks, k, size)
        decreases |blocks| - k
      {
        BlockFacts(blocks, Mem(), k);
        if !used[at] && next[at] - (at + HEADER) >= size {
          return true, at;
        }
        at := next[at];
        k := k + 1;
      }
      return false, at;
    }

    /** rt_free of a payload that the client holds, or of nothing. */
    method Free(ptr: int)
      requires Valid() && (ptr != NULL ==> Owned(blocks, IndexOf(blocks, ptr - HEADER)))
      modifies this
      ensures Valid() && maxMem == old(maxMem)
      ensures H() == if ptr == NULL then old(H()) else SystemHeapSpec.Free(old(H()), IndexOf(old(blocks), ptr - HEADER))
    {
      hide Headers, Tiles, Inv, UsedBytes, SystemHeapSpec.PlugHoles;
      if ptr == NULL {
        return;
      }
      ghost var k := IndexOf(blocks, ptr - HEADER);
      FreeFacts(H(), k);
      BlockFacts(blocks, Mem(), k);
      var mem := ptr - HEADER;
      SetUsed(mem, false, k);
      if mem < lfree {
        lfree := mem;
      }
      BlockFacts(blocks, Mem(), k);
      usedMem := usedMem - (next[mem] - mem);
      PlugHoles(mem, k);
    }

    /** The shrinking path of rt_realloc. */
    method Shrink(ptr: int, size: int, newsize: int, ghost k: nat)
      requires Valid() && Shrinks(H(), k, newsize) && ptr == blocks[k].at && size == Payload(blocks, k)
      modifies this
      ensures Valid() && maxMem == old(maxMem) && H() == SystemHeapSpec.Shrink(old(H()), k, newsize)
    {
      hide Headers, Tiles, Inv, UsedBytes, SplitAt, SystemHeapSpec.PlugHoles;
      ShrinkInv(H(), k, newsize);
      ShrinkBytes(H(), k, newsize);
      SplitShape(blocks, k, ptr + HEADER + newsize);
      usedMem := usedMem - (size - newsize);
      Split(ptr, ptr + HEADER + newsize, k);
      PlugHoles(ptr + HEADER + newsize, k + 1);
    }

    /** rt_realloc of a payload that the client holds. */
    method Realloc(rmem: int, request: int) returns (ptr: int)
      requires Valid() && 0 <= request < WORD && Owned(blocks, IndexOf(blocks, rmem - HEADER))
      requires ReallocReturns(H(), IndexOf(blocks, rmem - HEADER), request)
      modifies this
      ensures Valid()
      ensures SystemHeapSpec.Outcome(H(), ptr)
           == SystemHeapSpec.Realloc(old(H()), IndexOf(old(blocks), rmem - HEADER), request)
    {
      hide Headers, Tiles, Inv, UsedBytes, Align, SystemHeapSpec.Free, SystemHeapSpec.Malloc, SystemHeapSpec.Shrink;
      ghost var k := IndexOf(blocks, rmem - HEADER);
      AlignNonNegative(request);
      AlignBelow(request);
      BlockFacts(blocks, Mem(), k);
      var newsize := Align(request);
      if newsize > memSize {
        return NULL;
      } else if newsize == 0 {
        NotNull(H(), k);
        Free(rmem);
        return NULL;
      }
      var mem := rmem - HEADER;
      var size := next[mem] - mem - HEADER;
      if size == newsize {
        return rmem;
      }
      if newsize + HEADER + MINSIZE < size {
        Shrink(mem, size, newsize, k);
        return rmem;
      }
      ghost var before := H();
      ptr := Malloc(newsize);
      if ptr != NULL {
        StillOwned(before, k, newsize);
        NotNull(H(), IndexOf(blocks, mem));
        Free(rmem);
      }
    }

    /** rt_realloc of nothing, or of a pointer outside the heap. */
    method ReallocOutside(rmem: int, request: int) returns (ptr: int)
      requires Valid() && 0 <= request < WORD && (rmem == NULL ==> Returns(H(), Align(request)))
      requires rmem == NULL || rmem < 0 || rmem >= memSize + HEADER
      requires Align(request) == 0 ==> rmem == NULL
      modifies this
      ensures Valid()
      ensures if rmem == NULL && 0 < Align(request) <= memSize
              then SystemHeapSpec.Outcome(H(), ptr) == SystemHeapSpec.Malloc(old(H()), Align(request))
              else H() == old(H()) && ptr == if Align(request) == 0 || Align(request) > memSize then NULL else rmem
    {
      hide Headers, Tiles, Inv, UsedBytes, Align, SystemHeapSpec.Malloc;
      AlignNonNegative(request);
      AlignBelow(request);
      var newsize := Align(request);
      if newsize > memSize {
        return NULL;
      } else if newsize == 0 {
        Free(rmem);
        return NULL;
      }
      if rmem == NULL {
        ptr := Malloc(newsize);
        return;
      }
      ptr := rmem;
    }
  }

  lemma NotNull(h: SystemHeapSpec.Heap, k: nat)
    requires Inv(h) && k < |h.blocks|
    ensures h.blocks[k].at + HEADER != NULL && IndexOf(h.blocks, h.blocks[k].at) == k
  {
  }

  lemma AlignBelow(size: int)
    ensures Align(size) < WORD
  {
  }

  lemma SearchGood(h: SystemHeapSpec.Heap, n: int)
    requires Inv(h)
    ensures var k := Search(h.blocks, IndexOf(h.blocks, h.lfree), n); k < |h.blocks| ==> Good(h.blocks, k, n)
  {
    SearchIs(h.blocks, IndexOf(h.blocks, h.lfree), n);
  }

  /** What a release keeps. */
  lemma FreeFacts(h: SystemHeapSpec.Heap, k: nat)
    requires Inv(h) && Owned(h.blocks, k)
    ensures Inv(SystemHeapSpec.Free(h, k))
    ensures UsedBytes(SystemHeapSpec.Free(h, k).blocks) == UsedBytes(h.blocks) - (h.blocks[k + 1].at - h.blocks[k].at)
    ensures h.blocks[k].at < h.blocks[k + 1].at
  {
    hide SystemHeapSpec.Free, UsedBytes, MergedBut, StartsFree, Tiles;
    FreeInv(h, k);
    FreeBytes(h, k);
    Extent(h.blocks, k);
  }

  /** The block that the search starts from. */
  lemma Start(h: SystemHeapSpec.Heap) returns (k: nat)
    requires Inv(h)
    ensures k < |h.blocks| && h.blocks[k].at == h.lfree && IndexOf(h.blocks, h.lfree) == k
  {
    var l :| 0 <= l < |h.blocks| && h.blocks[l].at == h.lfree && (l == |h.blocks| - 1 || !h.blocks[l].used);
    At(h.blocks, l);
    k := l;
  }
}
