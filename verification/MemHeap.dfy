/**
 The memory heap object of src/memheap.c: block headers linked into a physical
 ring and a free ring, relinked in place.

 Header fields are maps from header addresses, one map per field of
 struct rt_memheap_item, so that each assignment through a pointer is one map
 update.  Every method is proved against its counterpart in MemHeapSpec.
 */
module MemHeap {

  import opened Rings
  import opened Rounding
  import opened MemHeapSpec

  const FREE_HEADER: int := -1  // the address of the free_header item, outside every pool

  function Addrs(bs: seq<Block>): seq<int> {
    seq(|bs|, i requires 0 <= i < |bs| => bs[i].addr)
  }

  ghost predicate Marked(used: map<int, bool>, bs: seq<Block>) {
    forall i :: 0 <= i < |bs| ==> bs[i].addr in used && used[bs[i].addr] == bs[i].used
  }

  // ---------------------------------------------------------------- what splices do to the rings

  lemma AddrsDistinct(bs: seq<Block>)
    requires Tiles(bs)
    ensures Distinct(Addrs(bs))
  {
  }

  /** MEMITEM_SIZE of a header is the payload of its block. */
  lemma ItemSize(next: Links, prev: Links, bs: seq<Block>, a: int)
    requires Ring(next, prev, Addrs(bs)) && IndexOf(bs, a) + 1 < |bs|
    ensures a in next && next[a] - a - HEADER == PayloadAt(bs, a)
  {
    var k := IndexOf(bs, a);
    assert Addrs(bs)[k] == a && Addrs(bs)[k + 1] == bs[k + 1].addr;
  }

  /** The physical links at position k. */
  lemma Neighbours(next: Links, prev: Links, bs: seq<Block>, k: nat)
    requires Ring(next, prev, Addrs(bs)) && k + 1 < |bs|
    ensures bs[k].addr in next && next[bs[k].addr] == bs[k + 1].addr
    ensures bs[k].addr in prev && prev[bs[k].addr] == bs[if k > 0 then k - 1 else |bs| - 1].addr
  {
    var s := Addrs(bs);
    assert s[k] == bs[k].addr;
  }

  lemma AddrsInsert(bs: seq<Block>, lo: nat, b: Block, c: Block)
    requires lo < |bs| && b.addr == bs[lo].addr
    ensures Addrs(Splice(bs, lo, lo + 1, [b, c])) == Inserted(Addrs(bs), lo, c.addr)
  {
  }

  lemma AddrsSame(bs: seq<Block>, lo: nat, b: Block)
    requires lo < |bs| && b.addr == bs[lo].addr
    ensures Addrs(Splice(bs, lo, lo + 1, [b])) == Addrs(bs)
  {
  }

  lemma MarkOne(used: map<int, bool>, bs: seq<Block>, lo: nat, hi: nat, b: Block)
    requires Marked(used, bs) && Tiles(bs) && lo < hi <= |bs| && b.addr == bs[lo].addr
    ensures Marked(used[b.addr := b.used], Splice(bs, lo, hi, [b]))
  {
    var r := Splice(bs, lo, hi, [b]);
    forall i | 0 <= i < |r|
      ensures r[i].addr in used[b.addr := b.used] && used[b.addr := b.used][r[i].addr] == r[i].used
    {
      if i != lo {
        var j := if i < lo then i else i - 1 + (hi - lo);
        assert r[i] == bs[j];
        assert j < lo ==> bs[j].addr + HEADER <= bs[lo].addr;
        assert j > lo ==> bs[lo].addr + HEADER <= bs[j].addr;
      }
    }
  }

  lemma MarkTwo(used: map<int, bool>, bs: seq<Block>, lo: nat, hi: nat, b: Block, c: Block)
    requires Marked(used, bs) && Tiles(bs) && lo < hi < |bs| && b.addr == bs[lo].addr < c.addr < bs[hi].addr
    ensures Marked(used[c.addr := c.used][b.addr := b.used], Splice(bs, lo, hi, [b, c]))
  {
    var r, used' := Splice(bs, lo, hi, [b, c]), used[c.addr := c.used][b.addr := b.used];
    forall i | 0 <= i < |r| ensures r[i].addr in used' && used'[r[i].addr] == r[i].used {
      if i < lo || i > lo + 1 {
        var j := if i < lo then i else i - 2 + (hi - lo);
        assert r[i] == bs[j];
        assert j < lo ==> bs[j].addr + HEADER <= bs[lo].addr;
        assert j > hi ==> bs[hi].addr + HEADER <= bs[j].addr;
      }
    }
  }

  /** An address strictly inside a block is no header's address. */
  lemma NewAddress(bs: seq<Block>, k: nat, a: int)
    requires Tiles(bs) && k + 1 < |bs| && bs[k].addr < a < bs[k + 1].addr
    ensures a !in Addrs(bs)
  {
    forall i | 0 <= i < |bs| ensures bs[i].addr != a {
      assert i > k + 1 ==> bs[k + 1].addr + HEADER <= bs[i].addr;
      assert i < k ==> bs[i].addr + HEADER <= bs[k].addr;
    }
  }

  /** The position of a search that stopped at the first fit. */
  lemma FirstFitIs(bs: seq<Block>, free: seq<int>, n: int, i: nat)
    requires i <= |free|
    requires forall j :: 0 <= j < i ==> PayloadAt(bs, free[j]) < n
    requires i < |free| ==> PayloadAt(bs, free[i]) >= n
    ensures FirstFit(bs, free, n) == i
  {
  }

  lemma InsertFreeFacts(nextFree: Links, prevFree: Links, free: seq<int>, item: int)
    requires Ring(nextFree, prevFree, [FREE_HEADER] + free) && item != FREE_HEADER && item !in free
    ensures FREE_HEADER in nextFree && nextFree[FREE_HEADER] != item
    ensures Ring(nextFree[item := nextFree[FREE_HEADER]][FREE_HEADER := item],
                 prevFree[item := FREE_HEADER][nextFree[FREE_HEADER] := item],
                 [FREE_HEADER] + ([item] + free))
  {
    var s := [FREE_HEADER] + free;
    InsertAfter(nextFree, prevFree, s, 0, item);
    var first := nextFree[FREE_HEADER];
    assert first == After(s, 0) && first in s;
    hide Ring, After;
    InsertedFirst(FREE_HEADER, free, item);
    hide Inserted;
    assert prevFree[first := item][item := FREE_HEADER] == prevFree[item := FREE_HEADER][first := item];
  }

  lemma RemoveFreeFacts(nextFree: Links, prevFree: Links, free: seq<int>, item: int)
    requires Ring(nextFree, prevFree, [FREE_HEADER] + free) && item in free
    ensures item in nextFree && item in prevFree && nextFree[item] != item
    ensures Ring(nextFree[prevFree[item] := nextFree[item]], prevFree[nextFree[item] := prevFree[item]],
                 [FREE_HEADER] + Drop(free, item))
  {
    var i :| 0 <= i < |free| && free[i] == item;
    RemoveFreeAt(nextFree, prevFree, free, i);
  }

  lemma RemoveFreeAt(nextFree: Links, prevFree: Links, free: seq<int>, i: nat)
    requires Ring(nextFree, prevFree, [FREE_HEADER] + free) && i < |free|
    ensures free[i] in nextFree && free[i] in prevFree && nextFree[free[i]] != free[i]
    ensures Ring(nextFree[prevFree[free[i]] := nextFree[free[i]]], prevFree[nextFree[free[i]] := prevFree[free[i]]],
                 [FREE_HEADER] + Drop(free, free[i]))
  {
    var s := [FREE_HEADER] + free;
    assert s[i + 1] == free[i];
    assert free[i] in nextFree && nextFree[free[i]] != free[i] by {
      assert nextFree[s[i + 1]] == After(s, i + 1);
    }
    TailDistinct(FREE_HEADER, free);
    Unlink(nextFree, prevFree, s, i + 1);
    hide Ring;
    DropAt(free, i);
    WithoutBehind(FREE_HEADER, free, i);
    hide Without, Drop;
  }

  lemma WithoutBehind(x: int, s: seq<int>, i: nat)
    requires i < |s|
    ensures Without([x] + s, i + 1) == [x] + Without(s, i)
  {
    var r := [x] + s;
    assert r[..i + 1] == [x] + s[..i] && r[i + 2..] == s[i + 1..];
  }

  lemma InsertedFirst(x: int, s: seq<int>, n: int)
    ensures Inserted([x] + s, 0, n) == [x] + ([n] + s)
  {
  }

  lemma TailDistinct(x: int, s: seq<int>)
    requires Distinct([x] + s)
    ensures Distinct(s)
  {
    assert forall j :: 0 <= j < |s| ==> s[j] == ([x] + s)[j + 1];
  }

  /** The two rings and the marks after a free block has been split. */
  lemma SplitFacts(p: Pool, k: nat, n: int, a: int, newPtr: int, used: map<int, bool>)
    requires Inv(p) && k + 1 < |p.blocks| && !p.blocks[k].used && n > 0 && Marked(used, p.blocks)
    requires Payload(p.blocks, k) >= n + HEADER + MINIALLOC
    requires a == p.blocks[k].addr && newPtr == a + n + HEADER
    ensures newPtr != FREE_HEADER && newPtr !in Addrs(p.blocks) && a in p.free && newPtr !in Drop(p.free, a)
    ensures Carve(p, k, n).free == [newPtr] + Drop(p.free, a)
    ensures |Addrs(p.blocks)| == |p.blocks| && Addrs(p.blocks)[k] == a
    ensures Addrs(Carve(p, k, n).blocks) == Inserted(Addrs(p.blocks), k, newPtr)
    ensures Marked(used[newPtr := false][a := true], Carve(p, k, n).blocks)
  {
    FreeByPosition(p, k);
    NewAddress(p.blocks, k, newPtr);
    InsideIsFresh(p, k, newPtr);
    NotNull(p, k);
    DropKeeps(p.free, a);
    AddrsInsert(p.blocks, k, Block(a, true), Block(newPtr, false));
    MarkTwo(used, p.blocks, k, k + 1, Block(a, true), Block(newPtr, false));
  }

  ghost predicate Left(p: Pool, k: nat)
    requires Owned(p, k)
  {
    k > 0 && !p.blocks[k - 1].used
  }

  ghost predicate Right(p: Pool, k: nat)
    requires Owned(p, k)
  {
    !p.blocks[k + 1].used
  }

  /** The physical ring once block k has been merged into its left neighbour, and its position there. */
  ghost function LeftRing(p: Pool, k: nat): seq<int>
    requires Owned(p, k)
  {
    if Left(p, k) then Without(Addrs(p.blocks), k) else Addrs(p.blocks)
  }

  ghost function LeftIndex(p: Pool, k: nat): nat
    requires Owned(p, k)
  {
    if Left(p, k) then k - 1 else k
  }

  lemma LeftRingAt(p: Pool, k: nat)
    requires Inv(p) && Owned(p, k)
    ensures |LeftRing(p, k)| > LeftIndex(p, k) + 1 > 0
    ensures LeftRing(p, k)[LeftIndex(p, k)] == p.blocks[LeftIndex(p, k)].addr
    ensures LeftRing(p, k)[LeftIndex(p, k) + 1] == p.blocks[k + 1].addr
  {
    assert Addrs(p.blocks)[k + 1] == p.blocks[k + 1].addr;
  }

  lemma AddrsSplice(bs: seq<Block>, lo: nat, hi: nat, b: Block)
    requires lo < hi <= |bs| && b.addr == bs[lo].addr
    ensures Addrs(Splice(bs, lo, hi, [b])) == Addrs(bs)[..lo + 1] + Addrs(bs)[hi..]
  {
  }

  /** The physical ring after a release. */
  lemma FreeRing(p: Pool, k: nat)
    requires Owned(p, k)
    ensures |LeftRing(p, k)| > LeftIndex(p, k) + 1 > 0
    ensures Addrs(Free(p, k).blocks) ==
            if Right(p, k) then Without(LeftRing(p, k), LeftIndex(p, k) + 1) else LeftRing(p, k)
  {
    hide Addrs, Drop;
    var s, lo, hi := Addrs(p.blocks), LeftIndex(p, k), if Right(p, k) then k + 2 else k + 1;
    AddrsLength(p.blocks);
    AddrsSplice(p.blocks, lo, hi, Block(p.blocks[lo].addr, false));
    assert Addrs(Free(p, k).blocks) == s[..lo + 1] + s[hi..];
    if Right(p, k) {
      if Left(p, k) {
        TwiceWithout(s, k);
      }
    } else if !Left(p, k) {
      assert s == s[..lo + 1] + s[hi..];
    }
  }

  lemma AddrsLength(bs: seq<Block>)
    ensures |Addrs(bs)| == |bs|
  {
  }

  lemma TwiceWithout(s: seq<int>, k: nat)
    requires k + 1 < |s|
    ensures Without(Without(s, k), k) == s[..k] + s[k + 2..]
  {
    assert Without(s, k)[..k] == s[..k] && Without(s, k)[k + 1..] == s[k + 2..];
  }

  /** The marks after a release. */
  lemma FreeMarked(p: Pool, k: nat, used: map<int, bool>)
    requires Tiles(p.blocks) && Owned(p, k) && Marked(used, p.blocks)
    ensures Marked(used[p.blocks[k].addr := false], Free(p, k).blocks)
  {
    var lo, hi := LeftIndex(p, k), if Right(p, k) then k + 2 else k + 1;
    if Left(p, k) {
      FreeMarks(used, p.blocks, k, hi);
    } else {
      MarkOne(used, p.blocks, k, hi, Block(p.blocks[k].addr, false));
    }
  }

  /** The mark of a header that has been merged away does not matter. */
  lemma FreeMarks(used: map<int, bool>, bs: seq<Block>, k: nat, hi: nat)
    requires Tiles(bs) && Marked(used, bs) && 0 < k < hi <= |bs| && !bs[k - 1].used
    ensures Marked(used[bs[k].addr := false], Splice(bs, k - 1, hi, [Block(bs[k - 1].addr, false)]))
  {
    var r := Splice(bs, k - 1, hi, [Block(bs[k - 1].addr, false)]);
    forall i | 0 <= i < |r| ensures r[i].addr != bs[k].addr && r[i].addr in used && used[r[i].addr] == r[i].used {
      var j := if i < k then i else i - k + hi;
      assert r[i] == bs[j];
      assert j < k ==> bs[j].addr + HEADER <= bs[k].addr;
      assert j > k ==> bs[k].addr + HEADER <= bs[j].addr;
    }
  }

  /** The free list once a free right neighbour of block k has been taken out. */
  ghost function MergedList(p: Pool, k: nat): seq<int>
    requires Owned(p, k)
  {
    if Right(p, k) then Drop(p.free, p.blocks[k + 1].addr) else p.free
  }

  lemma ReleasedIsNew(p: Pool, k: nat)
    requires Inv(p) && Owned(p, k)
    ensures p.blocks[k].addr != FREE_HEADER && p.blocks[k].addr !in MergedList(p, k)
  {
    NotNull(p, k);
    FreeByPosition(p, k);
    DropKeeps(p.free, p.blocks[k + 1].addr);
  }

  lemma NeighbourMarks(p: Pool, k: nat, used: map<int, bool>)
    requires Inv(p) && Owned(p, k) && Marked(used, p.blocks)
    ensures var used' := used[p.blocks[k].addr := false];
            var b := p.blocks[if k > 0 then k - 1 else |p.blocks| - 1];
            && b.addr in used' && used'[b.addr] == b.used
            && p.blocks[k + 1].addr in used' && used'[p.blocks[k + 1].addr] == p.blocks[k + 1].used
  {
    var b := p.blocks[if k > 0 then k - 1 else |p.blocks| - 1];
    assert b.addr + HEADER <= p.blocks[k].addr || p.blocks[k].addr + HEADER <= b.addr;
  }

  /** All a release needs to know about the pool it works on. */
  lemma ReleaseFacts(p: Pool, k: nat, used: map<int, bool>, next: Links, prev: Links)
    requires Inv(p) && Owned(p, k) && Marked(used, p.blocks) && Ring(next, prev, Addrs(p.blocks))
    ensures var a, used' := p.blocks[k].addr, used[p.blocks[k].addr := false];
            var b := p.blocks[if k > 0 then k - 1 else |p.blocks| - 1];
            && a in next && next[a] - a - HEADER == Payload(p.blocks, k)
            && b.addr in used' && used'[b.addr] == b.used
            && p.blocks[k + 1].addr in used' && used'[p.blocks[k + 1].addr] == p.blocks[k + 1].used
            && a != FREE_HEADER && a !in MergedList(p, k)
    ensures var s, j := LeftRing(p, k), LeftIndex(p, k);
            && |s| > j + 1 && s[j] == p.blocks[j].addr && s[j + 1] == p.blocks[k + 1].addr
            && Addrs(Free(p, k).blocks) == (if Right(p, k) then Without(s, j + 1) else s)
            && (!Left(p, k) ==> j == k)
    ensures Marked(used[p.blocks[k].addr := false], Free(p, k).blocks)
    ensures Free(p, k).free == if Left(p, k) then MergedList(p, k) else [p.blocks[k].addr] + MergedList(p, k)
  {
    Neighbours(next, prev, p.blocks, k);
    NeighbourMarks(p, k, used);
    ReleasedIsNew(p, k);
    LeftRingAt(p, k);
    FreeRing(p, k);
    FreeMarked(p, k, used);
  }

  /** What a release does to the byte count. */
  lemma FreeAccounts(p: Pool, a: int)
    requires Inv(p) && Owned(p, IndexOf(p.blocks, a))
    ensures var k := IndexOf(p.blocks, a);
            && p.blocks[k].addr == a && Inv(Free(p, k)) && SameExtent(p, Free(p, k))
            && FreeBytes(Free(p, k).blocks) == FreeBytes(p.blocks) + Payload(p.blocks, k)
                 + (if Left(p, k) then HEADER else 0) + (if Right(p, k) then HEADER else 0)
            && FreeBytes(p.blocks) <= FreeBytes(Free(p, k).blocks)
  {
    FreeInv(p, IndexOf(p.blocks, a));
    FreeBytesBack(p, IndexOf(p.blocks, a));
  }

  /** Room for n bytes in block k and for the header of a free block behind them. */
  ghost predicate Fit(p: Pool, k: nat, n: int)
    requires Owned(p, k)
  {
    var hi := if Right(p, k) then k + 2 else k + 1;
    0 < n && hi < |p.blocks| && p.blocks[k].addr + HEADER + n + HEADER <= p.blocks[hi].addr
  }

  lemma AddrsResize(bs: seq<Block>, k: nat, hi: nat, b: Block, c: Block)
    requires k < hi <= |bs| && b.addr == bs[k].addr
    ensures Addrs(Splice(bs, k, hi, [b, c])) == Addrs(bs)[..k + 1] + [c.addr] + Addrs(bs)[hi..]
  {
  }

  /** The physical ring after a resize, reached by unlinking before or after linking. */
  lemma ResizeRing(p: Pool, k: nat, n: int)
    requires Owned(p, k) && Fit(p, k, n)
    ensures var s, newPtr := Addrs(p.blocks), p.blocks[k].addr + HEADER + n;
            && |s| == |p.blocks|
            && (Right(p, k) ==> Addrs(Resize(p, k, n).blocks) == Inserted(Without(s, k + 1), k, newPtr))
            && (Right(p, k) ==> Addrs(Resize(p, k, n).blocks) == Without(Inserted(s, k, newPtr), k + 2))
            && (!Right(p, k) ==> Addrs(Resize(p, k, n).blocks) == Inserted(s, k, newPtr))
  {
    var s, newPtr := Addrs(p.blocks), p.blocks[k].addr + HEADER + n;
    var hi := if Right(p, k) then k + 2 else k + 1;
    AddrsResize(p.blocks, k, hi, Block(p.blocks[k].addr, true), Block(newPtr, false));
    if Right(p, k) {
      assert Without(s, k + 1)[..k + 1] == s[..k + 1] && Without(s, k + 1)[k + 1..] == s[k + 2..];
      assert Inserted(s, k, newPtr)[..k + 2] == s[..k + 1] + [newPtr] && Inserted(s, k, newPtr)[k + 3..] == s[k + 2..];
    }
  }

  lemma ResizeNew(p: Pool, k: nat, n: int)
    requires Inv(p) && Owned(p, k) && Fit(p, k, n)
    ensures var newPtr := p.blocks[k].addr + HEADER + n;
            && newPtr != FREE_HEADER && newPtr !in MergedList(p, k)
            && (Right(p, k) ==> newPtr !in Without(Addrs(p.blocks), k + 1))
            && (newPtr != p.blocks[k + 1].addr ==> newPtr !in Addrs(p.blocks))
  {
    var newPtr := p.blocks[k].addr + HEADER + n;
    NotNull(p, k);
    DropKeeps(p.free, p.blocks[k + 1].addr);
    if newPtr < p.blocks[k + 1].addr {
      InsideIsFresh(p, k, newPtr);
      NewAddress(p.blocks, k, newPtr);
    } else if newPtr > p.blocks[k + 1].addr {
      InsideIsFresh(p, k + 1, newPtr);
      NewAddress(p.blocks, k + 1, newPtr);
    } else {
      AddrsDistinct(p.blocks);
      NotInWithout(Addrs(p.blocks), k + 1);
    }
  }

  lemma NotInWithout(s: seq<int>, k: nat)
    requires Distinct(s) && k < |s|
    ensures s[k] !in Without(s, k)
  {
  }

  /** All that resizing block k needs to know about the pool it works on. */
  lemma ResizeFacts(p: Pool, k: nat, n: int, used: map<int, bool>, next: Links, prev: Links)
    requires Inv(p) && Owned(p, k) && Fit(p, k, n) && Marked(used, p.blocks) && Ring(next, prev, Addrs(p.blocks))
    ensures var s, newPtr := Addrs(p.blocks), p.blocks[k].addr + HEADER + n;
            && |s| == |p.blocks| && s[k] == p.blocks[k].addr && s[k + 1] == p.blocks[k + 1].addr
            && newPtr != FREE_HEADER && newPtr !in MergedList(p, k)
            && Resize(p, k, n).free == [newPtr] + MergedList(p, k)
            && Marked(used[newPtr := false], Resize(p, k, n).blocks)
    ensures Right(p, k) ==>
            var s, newPtr := Addrs(p.blocks), p.blocks[k].addr + HEADER + n;
            && k + 2 < |p.blocks| && p.blocks[k + 1].addr in p.free
            && MergedList(p, k) == Drop(p.free, p.blocks[k + 1].addr)
            && newPtr !in Without(s, k + 1) && |Without(s, k + 1)| > k && Without(s, k + 1)[k] == s[k]
            && Addrs(Resize(p, k, n).blocks) == Inserted(Without(s, k + 1), k, newPtr)
    ensures var r := Inserted(Addrs(p.blocks), k, p.blocks[k].addr + HEADER + n);
            |r| > k + 2 && Addrs(Resize(p, k, n).blocks) == if Right(p, k) then Without(r, k + 2) else r
    ensures !Right(p, k) ==> MergedList(p, k) == p.free
  {
    hide Inv, Ring, Marked, Tiles;
    InvTiles(p);
    ResizeRing(p, k, n);
    ResizeNew(p, k, n);
    FreeByPosition(p, k + 1);
    ResizeMarks(p, k, n, used);
  }

  lemma InvTiles(p: Pool)
    requires Inv(p)
    ensures Tiles(p.blocks)
  {
  }

  lemma ResizeMarks(p: Pool, k: nat, n: int, used: map<int, bool>)
    requires Tiles(p.blocks) && Owned(p, k) && Fit(p, k, n) && Marked(used, p.blocks)
    ensures Marked(used[p.blocks[k].addr + HEADER + n := false], Resize(p, k, n).blocks)
  {
    var b, c := Block(p.blocks[k].addr, true), Block(p.blocks[k].addr + HEADER + n, false);
    MarkTwo(used, p.blocks, k, if Right(p, k) then k + 2 else k + 1, b, c);
    assert used[c.addr := false][b.addr := true] == used[c.addr := false];
  }

  /** Cutting block k: the new header lies inside it and the next block keeps its mark. */
  lemma ShrinkFacts(p: Pool, k: nat, n: int, used: map<int, bool>)
    requires Inv(p) && Owned(p, k) && 0 < n && n + HEADER < Payload(p.blocks, k) && Marked(used, p.blocks)
    ensures var newPtr, c := p.blocks[k].addr + HEADER + n, p.blocks[k + 1];
            && newPtr !in Addrs(p.blocks)
            && c.addr in used && used[newPtr := false][c.addr] == c.used
  {
    NewAddress(p.blocks, k, p.blocks[k].addr + HEADER + n);
  }

  /** The links around a header that has been put behind block k. */
  lemma ShrinkLinks(p: Pool, k: nat, newPtr: int, next: Links, prev: Links)
    requires Inv(p) && Owned(p, k) && Ring(next, prev, Inserted(Addrs(p.blocks), k, newPtr))
    ensures var s, c := Inserted(Addrs(p.blocks), k, newPtr), p.blocks[k + 1];
            && newPtr in next && next[newPtr] == c.addr && |s| > k + 2 && s[k + 2] == c.addr
            && (Right(p, k) ==> k + 2 < |p.blocks| && c.addr in next && c.addr in p.free)
            && (Right(p, k) ==> next[c.addr] - c.addr - HEADER == Payload(p.blocks, k + 1))
  {
    var s := Inserted(Addrs(p.blocks), k, newPtr);
    assert s[k + 1] == newPtr && s[k + 2] == p.blocks[k + 1].addr;
    assert Right(p, k) ==> s[k + 3] == p.blocks[k + 2].addr;
    FreeByPosition(p, k + 1);
  }

  /** The link behind the free block of a resize. */
  lemma ResizedLinks(p: Pool, k: nat, n: int, next: Links, prev: Links)
    requires Owned(p, k) && Fit(p, k, n) && Ring(next, prev, Addrs(Resize(p, k, n).blocks))
    ensures var newPtr := p.blocks[k].addr + HEADER + n;
            newPtr in next && next[newPtr] == p.blocks[if Right(p, k) then k + 2 else k + 1].addr
  {
    hide Backward, Distinct, Drop;
    var s := Addrs(Resize(p, k, n).blocks);
    assert s[k + 1] == p.blocks[k].addr + HEADER + n;
    assert s[k + 2] == p.blocks[if Right(p, k) then k + 2 else k + 1].addr;
  }

  /** What the headers say about a block in use and the one behind it. */
  lemma BlockAt(p: Pool, a: int, used: map<int, bool>, next: Links, prev: Links)
    requires Inv(p) && Owned(p, IndexOf(p.blocks, a)) && Marked(used, p.blocks) && Ring(next, prev, Addrs(p.blocks))
    ensures var k := IndexOf(p.blocks, a);
            && p.blocks[k].addr == a && a in next && next[a] == p.blocks[k + 1].addr
            && next[a] in used && used[next[a]] == !Right(p, k)
            && (Right(p, k) ==> k + 2 < |p.blocks| && next[a] in next && next[next[a]] == p.blocks[k + 2].addr)
  {
    var k := IndexOf(p.blocks, a);
    Neighbours(next, prev, p.blocks, k);
    if Right(p, k) {
      Neighbours(next, prev, p.blocks, k + 1);
    }
  }

  /** What a resize in place does to the byte count. */
  lemma ResizeAccounts(p: Pool, k: nat, n: int)
    requires Inv(p) && Owned(p, k) && 0 < n
    requires n + HEADER <= Payload(p.blocks, k) ||
             (Right(p, k) && k + 2 < |p.blocks| && n <= Payload(p.blocks, k) + Payload(p.blocks, k + 1))
    ensures Fit(p, k, n) && Inv(Resize(p, k, n)) && SameExtent(p, Resize(p, k, n))
    ensures FreeBytes(Resize(p, k, n).blocks) ==
            FreeBytes(p.blocks) + Payload(p.blocks, k) - n - if Right(p, k) then 0 else HEADER
  {
    if n + HEADER <= Payload(p.blocks, k) {
      ShrinkFits(p, k, n);
    }
    ResizeInv(p, k, n);
    ResizeBytes(p, k, n);
  }

  lemma SameRequest(p: Pool, m: int, n: int)
    requires Inv(p) && Request(m) == Request(n)
    ensures Alloc(p, m) == Alloc(p, n)
  {
  }

  lemma TakeFacts(p: Pool, a: int, freeSize: int, n: int)
    requires Inv(p) && a in p.free && freeSize == PayloadAt(p.blocks, a) && freeSize >= n > 0
    ensures var k := IndexOf(p.blocks, a);
            && k + 1 < |p.blocks| && p.blocks[k] == Block(a, false) && Payload(p.blocks, k) == freeSize
            && Inv(Carve(p, k, n)) && SameExtent(p, Carve(p, k, n))
            && FreeBytes(Carve(p, k, n).blocks) ==
               FreeBytes(p.blocks) - (if freeSize >= n + HEADER + MINIALLOC then n + HEADER else freeSize)
  {
    FreeIndex(p, a);
    CarveInv(p, IndexOf(p.blocks, a), n);
    CarveBytes(p, IndexOf(p.blocks, a), n);
  }

  /** The i-th node of the free list, the header behind the last. */
  function FreeNode(free: seq<int>, i: nat): int
    requires i <= |free|
  {
    if i < |free| then free[i] else FREE_HEADER
  }

  lemma AtFreeHeader(nextFree: Links, prevFree: Links, free: seq<int>)
    requires Ring(nextFree, prevFree, [FREE_HEADER] + free)
    ensures FREE_HEADER in nextFree && nextFree[FREE_HEADER] == FreeNode(free, 0)
  {
    var s := [FREE_HEADER] + free;
    assert s[0] == FREE_HEADER && After(s, 0) == FreeNode(free, 0);
  }

  lemma FreeNodeIsBlock(nextFree: Links, prevFree: Links, free: seq<int>, i: nat)
    requires Ring(nextFree, prevFree, [FREE_HEADER] + free) && i <= |free|
    ensures i < |free| <==> FreeNode(free, i) != FREE_HEADER
  {
    var s := [FREE_HEADER] + free;
    assert i < |free| ==> s[i + 1] == free[i] && s[0] != s[i + 1];
  }

  /** Where a walk of the free list gets from its i-th node. */
  lemma AtFree(p: Pool, next: Links, prev: Links, nextFree: Links, prevFree: Links, i: nat)
    requires Inv(p) && Ring(next, prev, Addrs(p.blocks)) && Ring(nextFree, prevFree, [FREE_HEADER] + p.free)
    requires i <= |p.free| && FreeNode(p.free, i) != FREE_HEADER
    ensures i < |p.free| && p.free[i] in next && next[p.free[i]] - p.free[i] - HEADER == PayloadAt(p.blocks, p.free[i])
    ensures p.free[i] in nextFree && nextFree[p.free[i]] == FreeNode(p.free, i + 1)
  {
    FreeIndex(p, p.free[i]);
    ItemSize(next, prev, p.blocks, p.free[i]);
    var s := [FREE_HEADER] + p.free;
    assert s[i + 1] == p.free[i] && After(s, i + 1) == FreeNode(p.free, i + 1);
  }

  lemma AfterNull(p: Pool, a: int)
    requires Inv(p) && a in p.free
    ensures a > NULL
  {
    FreeIndex(p, a);
    var k := IndexOf(p.blocks, a);
    assert k > 0 ==> p.blocks[0].addr + HEADER <= p.blocks[k].addr;
  }

  /** The mark is exactly the highest of these counts. */
  ghost predicate HighWater(mark: int, history: seq<int>) {
    mark in history && forall u :: u in history ==> u <= mark
  }

  /** A count that is not above the last one leaves the mark. */
  lemma BelowMark(mark: int, history: seq<int>, u: int)
    requires HighWater(mark, history) && u <= history[|history| - 1]
    ensures HighWater(mark, history + [u])
  {
    assert history[|history| - 1] in history;
  }

  class Heap {
    var startAddr: int
    var poolSize: int
    var available: int
    var maxUsed: int
    ghost var history: seq<int>  // the bytes in use after each change
    var used: map<int, bool>
    var next: Links
    var prev: Links
    var nextFree: Links
    var prevFree: Links
    ghost var pool: Pool

    /** The headers in memory describe the pool p. */
    ghost predicate Linked(p: Pool)
      reads this
    {
      && Ring(next, prev, Addrs(p.blocks))
      && Ring(nextFree, prevFree, [FREE_HEADER] + p.free)
      && Marked(used, p.blocks)
    }

    ghost predicate Valid()
      reads this
    {
      && Inv(pool)
      && Linked(pool)
      && available == FreeBytes(pool.blocks)
      && startAddr == pool.blocks[0].addr
      && poolSize == pool.blocks[|pool.blocks| - 1].addr + HEADER - startAddr
      && startAddr + poolSize <= WORD
      && HighWater(maxUsed, history) && history[|history| - 1] == poolSize - available
    }

    /** rt_memheap_init; the pool holds at least the two headers it is given. */
    constructor (addr: int, size: int)
      requires NULL < addr && addr + size <= WORD && 2 * HEADER <= size / ALIGN * ALIGN
      ensures Valid() && startAddr == addr && poolSize == size / ALIGN * ALIGN
      ensures pool == InitPool(addr, addr + size / ALIGN * ALIGN - HEADER)
      ensures available == poolSize - 2 * HEADER && maxUsed == 2 * HEADER && history == [2 * HEADER]
    {
      startAddr := addr;
      poolSize := size / ALIGN * ALIGN;
      available := size / ALIGN * ALIGN - 2 * HEADER;
      maxUsed := 2 * HEADER;
      history := [2 * HEADER];
      var item := addr;
      var tail := addr + (size / ALIGN * ALIGN - 2 * HEADER) + HEADER;
      next := map[item := tail, tail := addr];
      prev := map[item := tail, tail := addr];
      nextFree := map[item := FREE_HEADER, FREE_HEADER := item];
      prevFree := map[item := FREE_HEADER, FREE_HEADER := item];
      used := map[item := false, tail := true];
      pool := InitPool(addr, tail);
      new;
      InitInv(addr, tail);
      assert [FREE_HEADER] + pool.free == [FREE_HEADER, item];
      assert Addrs(pool.blocks) == [item, tail];
    }

    /** Insert an item right behind the free list header. */
    method InsertFree(item: int, ghost free: seq<int>)
      requires Ring(nextFree, prevFree, [FREE_HEADER] + free) && item != FREE_HEADER && item !in free
      modifies this`nextFree, this`prevFree
      ensures Ring(nextFree, prevFree, [FREE_HEADER] + ([item] + free))
    {
      InsertFreeFacts(nextFree, prevFree, free, item);
      hide Ring;
      nextFree := nextFree[item := nextFree[FREE_HEADER]];
      prevFree := prevFree[item := FREE_HEADER];
      prevFree := prevFree[nextFree[FREE_HEADER] := item];
      nextFree := nextFree[FREE_HEADER := item];
    }

    /** Take an item out of the free list. */
    method RemoveFree(item: int, ghost free: seq<int>)
      requires Ring(nextFree, prevFree, [FREE_HEADER] + free) && item in free
      modifies this`nextFree, this`prevFree
      ensures Ring(nextFree, prevFree, [FREE_HEADER] + Drop(free, item))
    {
      RemoveFreeFacts(nextFree, prevFree, free, item);
      hide Ring;
      prevFree := prevFree[nextFree[item] := prevFree[item]];
      nextFree := nextFree[prevFree[item] := nextFree[item]];
    }

    /** Link a new header behind the one at position k of the physical ring. */
    method InsertBlock(item: int, at: int, ghost s: seq<int>, ghost k: nat)
      requires Ring(next, prev, s) && k < |s| && s[k] == at && item !in s
      modifies this`next, this`prev
      ensures Ring(next, prev, Inserted(s, k, item))
    {
      InsertAfter(next, prev, s, k, item);
      assert next[at] == After(s, k);
      prev := prev[item := at];
      next := next[item := next[at]];
      prev := prev[next[at] := item];
      next := next[at := item];
    }

    /** rt_memheap_alloc */
    method Alloc(size: int) returns (ptr: int)
      requires Valid() && 0 <= size < WORD
      modifies this
      ensures Valid() && startAddr == old(startAddr) && poolSize == old(poolSize)
      ensures Outcome(pool, ptr) == MemHeapSpec.Alloc(old(pool), size)
      ensures history == old(history) + if ptr == NULL then [] else [poolSize - available]
    {
      hide Inv, Ring, Marked, FreeBytes, Carve, HighWater, Align;
      var n := Align(size);
      if n < MINIALLOC {
        n := MINIALLOC;
      }
      if n < available {
        var freeSize, header := Search(n);
        if freeSize >= n {
          AfterNull(pool, header);
          Take(header, freeSize, n);
          return header + HEADER;
        }
      }
      return NULL;
    }

    /** Walk the free list to the first block of at least n bytes. */
    method Search(n: int) returns (freeSize: int, header: int)
      requires Inv(pool) && Linked(pool) && n > 0
      ensures var i := FirstFit(pool.blocks, pool.free, n);
              if i < |pool.free|
              then header == pool.free[i] && freeSize == PayloadAt(pool.blocks, header) && freeSize >= n
              else freeSize < n
    {
      ghost var i := 0;
      freeSize := 0;
      AtFreeHeader(nextFree, prevFree, pool.free);
      header := nextFree[FREE_HEADER];
      while header != FREE_HEADER && freeSize < n
        invariant 0 <= i <= |pool.free| && header == FreeNode(pool.free, i)
        invariant forall j :: 0 <= j < i ==> PayloadAt(pool.blocks, pool.free[j]) < n
        invariant freeSize >= n ==> i < |pool.free| && freeSize == PayloadAt(pool.blocks, pool.free[i])
        decreases |pool.free| - i, n - freeSize
      {
        AtFree(pool, next, prev, nextFree, prevFree, i);
        freeSize := next[header] - header - HEADER;
        if freeSize < n {
          header := nextFree[header];
          i := i + 1;
        }
      }
      FreeNodeIsBlock(nextFree, prevFree, pool.free, i);
      FirstFitIs(pool.blocks, pool.free, n, i);
    }

    /** Record a new high-water mark of used bytes. */
    method Charge()
      requires HighWater(maxUsed, history)
      modifies this`maxUsed
      ensures HighWater(maxUsed, history + [poolSize - available])
    {
      if poolSize - available > maxUsed {
        maxUsed := poolSize - available;
      }
    }

    /** Split n bytes off the free block at header. */
    method Split(header: int, n: int, ghost k: nat)
      requires Inv(pool) && Linked(pool) && k + 1 < |pool.blocks| && header == pool.blocks[k].addr
      requires !pool.blocks[k].used && Payload(pool.blocks, k) >= n + HEADER + MINIALLOC && n > 0
      modifies this`used, this`next, this`prev, this`nextFree, this`prevFree
      modifies this`available
      ensures Linked(Carve(pool, k, n)) && available == old(available) - n - HEADER
    {
      hide Inv, Ring, Marked, Carve, Addrs, Inserted, Drop;
      var newPtr := header + n + HEADER;
      SplitFacts(pool, k, n, header, newPtr, used);
      used := used[newPtr := false];
      InsertBlock(newPtr, header, Addrs(pool.blocks), k);
      SwapFree(header, newPtr, pool.free);
      available := available - n - HEADER;
      used := used[header := true];
    }

    /** Take one item out of the free list and put in another. */
    method SwapFree(out: int, item: int, ghost free: seq<int>)
      requires Ring(nextFree, prevFree, [FREE_HEADER] + free) && out in free
      requires item != FREE_HEADER && item !in Drop(free, out)
      modifies this`nextFree, this`prevFree
      ensures Ring(nextFree, prevFree, [FREE_HEADER] + ([item] + Drop(free, out)))
    {
      hide Ring;
      RemoveFree(out, free);
      InsertFree(item, Drop(free, out));
    }

    /** Use all of the free block at header. */
    method UseWhole(header: int, freeSize: int, n: int, ghost k: nat)
      requires Inv(pool) && Linked(pool) && k + 1 < |pool.blocks| && header == pool.blocks[k].addr
      requires !pool.blocks[k].used && Payload(pool.blocks, k) < n + HEADER + MINIALLOC
      modifies this`used, this`nextFree, this`prevFree, this`available
      ensures Linked(Carve(pool, k, n)) && available == old(available) - freeSize
    {
      available := available - freeSize;
      FreeByPosition(pool, k);
      RemoveFree(header, pool.free);
      used := used[header := true];
      AddrsSame(pool.blocks, k, Block(header, true));
      MarkOne(old(used), pool.blocks, k, k + 1, Block(header, true));
    }

    /** Allocate n bytes from the free block at header, splitting it if the rest is worth it. */
    method Take(header: int, freeSize: int, n: int)
      requires Valid() && header in pool.free && freeSize == PayloadAt(pool.blocks, header) && freeSize >= n > 0
      modifies this
      ensures Valid() && startAddr == old(startAddr) && poolSize == old(poolSize)
      ensures IndexOf(old(pool).blocks, header) + 1 < |old(pool).blocks|
      ensures pool == Carve(old(pool), IndexOf(old(pool).blocks, header), n)
      ensures history == old(history) + [poolSize - available]
    {
      hide Inv, Ring, Marked, IndexOf, FreeBytes, Carve, PayloadAt, HighWater;
      ghost var k := IndexOf(pool.blocks, header);
      TakeFacts(pool, header, freeSize, n);
      if freeSize >= n + HEADER + MINIALLOC {
        Split(header, n, k);
      } else {
        UseWhole(header, freeSize, n, k);
      }
      Charge();
      history := history + [poolSize - available];
      pool := Carve(pool, k, n);
    }

    /** Join the neighbours of a header in the physical ring. */
    method UnlinkBlock(item: int, ghost s: seq<int>, ghost k: nat)
      requires Ring(next, prev, s) && k < |s| && |s| > 1 && s[k] == item
      modifies this`next, this`prev
      ensures Ring(next, prev, Without(s, k))
    {
      Unlink(next, prev, s, k);
      assert prev[item] == Before(s, k) && next[item] == After(s, k) && After(s, k) != item;
      hide Ring;
      prev := prev[next[item] := prev[item]];
      next := next[prev[item] := next[item]];
    }

    /** Merge the released block at header into a free left neighbour. */
    method MergeLeft(header: int, ghost k: nat) returns (h: int, merged: bool)
      requires Inv(pool) && Owned(pool, k) && header == pool.blocks[k].addr
      requires Ring(next, prev, Addrs(pool.blocks))
      requires var b := pool.blocks[if k > 0 then k - 1 else |pool.blocks| - 1];
               b.addr in used && used[b.addr] == b.used
      modifies this`next, this`prev, this`available
      ensures merged == Left(pool, k) && h == pool.blocks[LeftIndex(pool, k)].addr
      ensures Ring(next, prev, LeftRing(pool, k))
      ensures available == old(available) + if merged then HEADER else 0
    {
      Neighbours(next, prev, pool.blocks, k);
      ghost var s := Addrs(pool.blocks);
      assert |s| > 1 && s[k] == header;
      h, merged := header, false;
      if !used[prev[header]] {
        available := available + HEADER;
        h, merged := prev[header], true;
        UnlinkBlock(header, s, k);
      }
    }

    /** Merge a free right neighbour into the block at h. */
    method MergeRight(h: int, ghost k: nat, ghost s: seq<int>, ghost j: nat)
      requires Inv(pool) && Owned(pool, k) && Ring(next, prev, s) && j + 1 < |s| && s[j] == h
      requires s[j + 1] == pool.blocks[k + 1].addr
      requires pool.blocks[k + 1].addr in used && used[pool.blocks[k + 1].addr] == pool.blocks[k + 1].used
      requires Ring(nextFree, prevFree, [FREE_HEADER] + pool.free)
      modifies this`next, this`prev, this`nextFree, this`prevFree, this`available
      ensures Ring(next, prev, if Right(pool, k) then Without(s, j + 1) else s)
      ensures Ring(nextFree, prevFree, [FREE_HEADER] + MergedList(pool, k))
      ensures available == old(available) + if Right(pool, k) then HEADER else 0
    {
      assert h in next && next[h] == s[j + 1] by {
        assert After(s, j) == s[j + 1];
      }
      FreeByPosition(pool, k + 1);
      hide Ring, Inv;
      if !used[next[h]] {
        available := available + HEADER;
        var newPtr := next[h];
        UnlinkBlock(newPtr, s, j + 1);
        RemoveFree(newPtr, pool.free);
      }
    }

    /** The header work of a release, on both rings. */
    method Release(a: int, ghost k: nat)
      requires Inv(pool) && Linked(pool) && Owned(pool, k) && a == pool.blocks[k].addr
      modifies this`used, this`next, this`prev, this`nextFree, this`prevFree, this`available
      ensures Linked(MemHeapSpec.Free(pool, k))
      ensures available == old(available) + Payload(pool.blocks, k)
                           + (if Left(pool, k) then HEADER else 0) + (if Right(pool, k) then HEADER else 0)
    {
      hide Ring, Marked, Inv, Addrs, Without, Drop, LeftRing, LeftIndex, MergedList, MemHeapSpec.Free, Left, Right;
      ReleaseFacts(pool, k, used, next, prev);
      used := used[a := false];
      available := available + (next[a] - a - HEADER);
      var h, merged := MergeLeft(a, k);
      MergeRight(h, k, LeftRing(pool, k), LeftIndex(pool, k));
      if !merged {
        InsertFree(h, MergedList(pool, k));
      }
    }

    /** rt_memheap_free */
    method Free(ptr: int)
      requires Valid() && (ptr != NULL ==> Owned(pool, IndexOf(pool.blocks, ptr - HEADER)))
      modifies this
      ensures Valid() && startAddr == old(startAddr) && poolSize == old(poolSize)
      ensures pool == if ptr == NULL then old(pool)
                      else MemHeapSpec.Free(old(pool), IndexOf(old(pool).blocks, ptr - HEADER))
      ensures history == old(history) + if ptr == NULL then [] else [poolSize - available]
    {
      hide Inv, Ring, Marked, IndexOf, FreeBytes, MemHeapSpec.Free, Left, Right, HighWater;
      if ptr == NULL {
        return;
      }
      ghost var k := IndexOf(pool.blocks, ptr - HEADER);
      FreeAccounts(pool, ptr - HEADER);
      Release(ptr - HEADER, k);
      BelowMark(maxUsed, history, poolSize - available);
      history := history + [poolSize - available];
      pool := MemHeapSpec.Free(pool, k);
    }

    /** Grow the block at a into the free block behind it, whose remainder moves up. */
    method Grow(a: int, nextPtr: int, n: int, ghost k: nat)
      requires Inv(pool) && Linked(pool) && Owned(pool, k) && Right(pool, k) && Fit(pool, k, n)
      requires a == pool.blocks[k].addr && nextPtr == pool.blocks[k + 1].addr
      modifies this`used, this`next, this`prev, this`nextFree, this`prevFree
      ensures Linked(Resize(pool, k, n))
    {
      hide Ring, Marked, Inv, Addrs, Without, Inserted, Drop, MergedList, Resize, Fit;
      var newPtr := a + HEADER + n;
      ResizeFacts(pool, k, n, used, next, prev);
      RemoveFree(nextPtr, pool.free);
      UnlinkBlock(nextPtr, Addrs(pool.blocks), k + 1);
      used := used[newPtr := false];
      InsertBlock(newPtr, a, Without(Addrs(pool.blocks), k + 1), k);
      InsertFree(newPtr, MergedList(pool, k));
    }

    /** Cut the block at a down to n bytes; the rest, with a free block behind it, becomes free. */
    method Shrink(a: int, n: int, ghost k: nat)
      requires Inv(pool) && Linked(pool) && Owned(pool, k) && Fit(pool, k, n)
      requires a == pool.blocks[k].addr && n + HEADER < Payload(pool.blocks, k)
      modifies this`used, this`next, this`prev, this`nextFree, this`prevFree, this`available
      ensures Linked(Resize(pool, k, n))
      ensures available == old(available) + Payload(pool.blocks, k) - n - if Right(pool, k) then 0 else HEADER
    {
      hide Ring, Marked, Inv, Addrs, Without, Inserted, Drop, MergedList, Resize;
      var newPtr := a + HEADER + n;
      ResizeFacts(pool, k, n, used, next, prev);
      ShrinkFacts(pool, k, n, used);
      used := used[newPtr := false];
      InsertBlock(newPtr, a, Addrs(pool.blocks), k);
      ShrinkLinks(pool, k, newPtr, next, prev);
      if !used[next[newPtr]] {
        var freePtr := next[newPtr];
        available := available - (next[freePtr] - freePtr - HEADER);
        UnlinkBlock(freePtr, Inserted(Addrs(pool.blocks), k, newPtr), k + 2);
        RemoveFree(freePtr, pool.free);
      }
      ResizedLinks(pool, k, n, next, prev);
      InsertFree(newPtr, MergedList(pool, k));
      available := available + (next[newPtr] - newPtr - HEADER);
    }

    /** rt_memheap_realloc, for all sizes for which its guard does not wrap (ReallocExactly says what happens then). */
    method Realloc(ptr: int, newsize: int) returns (r: int)
      requires Valid() && 0 <= newsize < WORD
      requires ptr != NULL ==> Owned(pool, IndexOf(pool.blocks, ptr - HEADER))
      requires newsize != 0 && ptr != NULL ==> !GuardWraps(pool, IndexOf(pool.blocks, ptr - HEADER), Request(newsize))
      modifies this
      ensures Valid() && startAddr == old(startAddr) && poolSize == old(poolSize)
      ensures newsize == 0 && ptr == NULL ==> r == NULL && pool == old(pool)
      ensures newsize == 0 && ptr != NULL ==>
                r == NULL && pool == MemHeapSpec.Free(old(pool), IndexOf(old(pool).blocks, ptr - HEADER))
      ensures newsize != 0 && ptr == NULL ==> Outcome(pool, r) == MemHeapSpec.Alloc(old(pool), newsize)
      ensures newsize != 0 && ptr != NULL ==>
                Outcome(pool, r) == MemHeapSpec.Realloc(old(pool), IndexOf(old(pool).blocks, ptr - HEADER), newsize)
      ensures old(history) <= history
    {
      hide Inv, Ring, Marked, IndexOf, FreeBytes, MemHeapSpec.Free, MemHeapSpec.Alloc, Resize, Align, HighWater;
      RequestRange(newsize);
      if newsize == 0 {
        Free(ptr);
        return NULL;
      }
      var n := Align(newsize);
      if n < MINIALLOC {
        n := MINIALLOC;
      }
      RequestTwice(newsize);
      if ptr == NULL {
        SameRequest(pool, n, newsize);
        r := Alloc(n);
        return;
      }
      r := ReallocBlock(ptr, n, newsize);
    }

    /** The part of rt_memheap_realloc that handles a block in use. */
    method ReallocBlock(ptr: int, n: int, ghost newsize: int) returns (r: int)
      requires Valid() && n == Request(newsize) == Request(n) && MINIALLOC <= n < WORD && ptr != NULL
      requires Owned(pool, IndexOf(pool.blocks, ptr - HEADER))
      requires !GuardWraps(pool, IndexOf(pool.blocks, ptr - HEADER), n)
      modifies this
      ensures Valid() && startAddr == old(startAddr) && poolSize == old(poolSize)
      ensures Outcome(pool, r) == MemHeapSpec.Realloc(old(pool), IndexOf(old(pool).blocks, ptr - HEADER), newsize)
      ensures old(history) <= history
    {
      hide Inv, Ring, Marked, IndexOf, FreeBytes, MemHeapSpec.Free, MemHeapSpec.Alloc, Resize, Request, HighWater;
      var header := ptr - HEADER;
      ghost var k := IndexOf(pool.blocks, header);
      BlockAt(pool, header, used, next, prev);
      var have := next[header] - header - HEADER;
      if n > have {
        var nextPtr := next[header];
        if !used[nextPtr] {
          var nextSize := next[nextPtr] - nextPtr - HEADER;
          GrowsExactly(have, nextSize, n);
          if nextSize + have > (n + MINIALLOC) % WORD {
            ResizeAccounts(pool, k, n);
            available := available - (n - have);
            Grow(header, nextPtr, n, k);
            Charge();
            history := history + [poolSize - available];
            pool := Resize(pool, k, n);
            return ptr;
          }
        }
        r := MoveBlock(ptr, n, k);
        return;
      }
      if n + HEADER + MINIALLOC >= have {
        return ptr;
      }
      ResizeAccounts(pool, k, n);
      Shrink(header, n, k);
      BelowMark(maxUsed, history, poolSize - available);
      history := history + [poolSize - available];
      pool := Resize(pool, k, n);
      return ptr;
    }

    /** The copying path of rt_memheap_realloc. */
    method MoveBlock(ptr: int, n: int, ghost k: nat) returns (r: int)
      requires Valid() && Owned(pool, k) && pool.blocks[k].addr == ptr - HEADER && Request(n) == n && 0 <= n < WORD
      modifies this
      ensures Valid() && startAddr == old(startAddr) && poolSize == old(poolSize)
      ensures Outcome(pool, r) == Move(old(pool), k, n)
      ensures r == NULL ==> history == old(history)
      ensures r != NULL ==>
                var used := poolSize - FreeBytes(MemHeapSpec.Alloc(old(pool), n).pool.blocks);
                history == old(history) + [used, poolSize - available]
    {
      hide Inv, Ring, Marked, IndexOf, FreeBytes, MemHeapSpec.Free, MemHeapSpec.Alloc, Request, HighWater;
      AllocKeepsOwned(pool, n, k);
      r := Alloc(n);
      if r != NULL {
        NotNull(old(pool), k);
        Free(ptr);
      }
    }
  }
}
