/**
 What the memory heap of src/memheap.c does to its pool, stated on values.

 A pool is the list of its blocks in address order, the last one being the
 zero-length used tailer, and the free ring in ring order.  A block is known
 by the address of its header and its length is the distance to the next one.
 */
module MemHeapSpec {

  import opened MemoryBytes
  import opened Rings
  import opened Rounding

  const HEADER: int := 24           // RT_MEMHEAP_SIZE
  const MINIALLOC: int := LEAST     // RT_MEMHEAP_MINIALLOC
  const NULL: int := 0

  datatype Block = Block(addr: int, used: bool)

  datatype Pool = Pool(blocks: seq<Block>, free: seq<int>)

  datatype Outcome = Outcome(pool: Pool, ptr: int)

  function Payload(bs: seq<Block>, k: nat): int
    requires k + 1 < |bs|
  {
    bs[k + 1].addr - bs[k].addr - HEADER
  }

  /** The position of the block at address a, or |bs|. */
  function IndexOf(bs: seq<Block>, a: int): (k: nat)
    ensures k <= |bs|
    ensures k < |bs| ==> bs[k].addr == a
    ensures forall i :: 0 <= i < k ==> bs[i].addr != a
  {
    if bs == [] then 0 else if bs[0].addr == a then 0 else 1 + IndexOf(bs[1..], a)
  }

  function PayloadAt(bs: seq<Block>, a: int): int {
    var k := IndexOf(bs, a);
    if k + 1 < |bs| then Payload(bs, k) else 0
  }

  /** The sum of all free payloads. */
  function FreeBytes(bs: seq<Block>): int {
    if |bs| < 2 then 0 else (if bs[0].used then 0 else Payload(bs, 0)) + FreeBytes(bs[1..])
  }

  /** The sum of all used payloads, the tailer's zero bytes apart. */
  function LiveBytes(bs: seq<Block>): int {
    if |bs| < 2 then 0 else (if bs[0].used then Payload(bs, 0) else 0) + LiveBytes(bs[1..])
  }

  /** The addresses of the free blocks. */
  function FreeAddrs(bs: seq<Block>): set<int> {
    if bs == [] then {} else (if bs[0].used then {} else {bs[0].addr}) + FreeAddrs(bs[1..])
  }

  /** The allocations a client holds: header address and payload length. */
  function Live(bs: seq<Block>): set<(int, int)> {
    if |bs| < 2 then {} else (if bs[0].used then {(bs[0].addr, Payload(bs, 0))} else {}) + Live(bs[1..])
  }

  ghost predicate Tiles(bs: seq<Block>) {
    forall i, j :: 0 <= i < j < |bs| ==> bs[i].addr + HEADER <= bs[j].addr
  }

  ghost predicate Merged(bs: seq<Block>) {
    forall i :: 0 <= i < |bs| - 1 ==> bs[i].used || bs[i + 1].used
  }

  ghost predicate FreeListed(p: Pool) {
    && Distinct(p.free)
    && (forall a :: a in p.free <==> a in FreeAddrs(p.blocks))
  }

  /** The invariant of a pool: blocks tile it, none need merging, and the ring lists the free ones. */
  ghost predicate Inv(p: Pool) {
    && |p.blocks| >= 2
    && p.blocks[0].addr > NULL
    && p.blocks[|p.blocks| - 1].used
    && Tiles(p.blocks)
    && Merged(p.blocks)
    && FreeListed(p)
  }

  /** Two pools over the same memory. */
  predicate SameExtent(p: Pool, q: Pool) {
    && |p.blocks| > 0 && |q.blocks| > 0
    && p.blocks[0].addr == q.blocks[0].addr
    && p.blocks[|p.blocks| - 1] == q.blocks[|q.blocks| - 1]
  }

  // ---------------------------------------------------------------- the operations

  /** rt_memheap_init: one free block and the tailer. */
  function InitPool(lo: int, hi: int): Pool {
    Pool([Block(lo, false), Block(hi, true)], [lo])
  }

  /** Replace the blocks lo..hi by others. */
  function Splice(bs: seq<Block>, lo: nat, hi: nat, mid: seq<Block>): seq<Block>
    requires lo <= hi <= |bs|
  {
    bs[..lo] + mid + bs[hi..]
  }

  /** The first block of the free ring that is long enough, or |free|. */
  function FirstFit(bs: seq<Block>, free: seq<int>, n: int): (i: nat)
    ensures i <= |free|
    ensures i < |free| ==> PayloadAt(bs, free[i]) >= n
    ensures forall j :: 0 <= j < i ==> PayloadAt(bs, free[j]) < n
  {
    if free == [] then 0
    else if PayloadAt(bs, free[0]) >= n then 0
    else 1 + FirstFit(bs, free[1..], n)
  }

  /** The free ring without a. */
  function Drop(free: seq<int>, a: int): seq<int> {
    if free == [] then [] else if free[0] == a then free[1..] else [free[0]] + Drop(free[1..], a)
  }

  /** Carve n bytes out of the free block at position k: split it if the rest can hold a block. */
  function Carve(p: Pool, k: nat, n: int): Pool
    requires k + 1 < |p.blocks|
  {
    var a := p.blocks[k].addr;
    if Payload(p.blocks, k) >= n + HEADER + MINIALLOC then
      Pool(Splice(p.blocks, k, k + 1, [Block(a, true), Block(a + HEADER + n, false)]),
           [a + HEADER + n] + Drop(p.free, a))
    else
      Pool(Splice(p.blocks, k, k + 1, [Block(a, true)]), Drop(p.free, a))
  }

  /** rt_memheap_alloc */
  ghost function Alloc(p: Pool, size: int): Outcome
    requires Inv(p)
  {
    var n := Request(size);
    var i := FirstFit(p.blocks, p.free, n);
    if n < FreeBytes(p.blocks) && i < |p.free| then
      FreeIndex(p, p.free[i]);
      Outcome(Carve(p, IndexOf(p.blocks, p.free[i]), n), p.free[i] + HEADER)
    else
      Outcome(p, NULL)
  }

  /** Position k holds a block that a client may pass to free or realloc. */
  predicate Owned(p: Pool, k: nat) {
    k + 1 < |p.blocks| && p.blocks[k].used
  }

  /** rt_memheap_free: the block is joined with its free neighbours. */
  function Free(p: Pool, k: nat): Pool
    requires Owned(p, k)
  {
    var bs := p.blocks;
    var left := k > 0 && !bs[k - 1].used;
    var right := !bs[k + 1].used;
    var lo := if left then k - 1 else k;
    var hi := if right then k + 2 else k + 1;
    var free' := if right then Drop(p.free, bs[k + 1].addr) else p.free;
    Pool(Splice(bs, lo, hi, [Block(bs[lo].addr, false)]), if left then free' else [bs[k].addr] + free')
  }

  /** The guard of growing in place, in machine arithmetic. */
  predicate Grows(have: int, next: int, n: int) {
    next + have > (n + MINIALLOC) % WORD
  }

  /** Block k gets n bytes and what follows, up to the next used block, becomes one free block. */
  function Resize(p: Pool, k: nat, n: int): Pool
    requires Owned(p, k)
  {
    var bs := p.blocks;
    var a := bs[k].addr;
    var right := !bs[k + 1].used;
    var free' := if right then Drop(p.free, bs[k + 1].addr) else p.free;
    Pool(Splice(bs, k, if right then k + 2 else k + 1, [Block(a, true), Block(a + HEADER + n, false)]),
         [a + HEADER + n] + free')
  }

  /** The copying path of realloc: allocate elsewhere, then release. */
  ghost function Move(p: Pool, k: nat, n: int): Outcome
    requires Inv(p) && Owned(p, k)
  {
    var r := Alloc(p, n);
    if r.ptr == NULL then r
    else
      AllocKeepsOwned(p, n, k);
      Outcome(Free(r.pool, IndexOf(r.pool.blocks, p.blocks[k].addr)), r.ptr)
  }

  /** rt_memheap_realloc of a block in use, to a non-zero size. */
  ghost function Realloc(p: Pool, k: nat, size: int): Outcome
    requires Inv(p) && Owned(p, k)
  {
    var bs, n := p.blocks, Request(size);
    var have := Payload(bs, k);
    if n > have then
      if !bs[k + 1].used && Grows(have, Payload(bs, k + 1), n) then
        Outcome(Resize(p, k, n), bs[k].addr + HEADER)
      else
        Move(p, k, n)
    else if n + HEADER + MINIALLOC >= have then
      Outcome(p, bs[k].addr + HEADER)
    else
      Outcome(Resize(p, k, n), bs[k].addr + HEADER)
  }

  // ---------------------------------------------------------------- addresses and positions

  lemma IndexOfAt(bs: seq<Block>, k: nat)
    requires Tiles(bs) && k < |bs|
    ensures IndexOf(bs, bs[k].addr) == k
  {
  }

  lemma {:induction false} FreeAt(bs: seq<Block>, k: nat)
    requires k < |bs| && !bs[k].used
    ensures bs[k].addr in FreeAddrs(bs)
  {
    if k > 0 {
      FreeAt(bs[1..], k - 1);
    }
  }

  lemma {:induction false} FreePosition(bs: seq<Block>, a: int) returns (k: nat)
    requires a in FreeAddrs(bs)
    ensures k < |bs| && !bs[k].used && bs[k].addr == a
  {
    if !bs[0].used && bs[0].addr == a {
      k := 0;
    } else {
      var i := FreePosition(bs[1..], a);
      k := i + 1;
    }
  }

  lemma FreeIndex(p: Pool, a: int)
    requires Inv(p) && a in p.free
    ensures IndexOf(p.blocks, a) + 1 < |p.blocks| && !p.blocks[IndexOf(p.blocks, a)].used
  {
    var i := FreePosition(p.blocks, a);
    IndexOfAt(p.blocks, i);
  }

  lemma {:induction false} DropAt(free: seq<int>, i: nat)
    requires Distinct(free) && i < |free|
    ensures Drop(free, free[i]) == Without(free, i)
  {
    if i > 0 {
      assert free[1..][i - 1] == free[i] && free[0] != free[i];
      DropAt(free[1..], i - 1);
    }
  }

  lemma {:induction false} DropMissing(free: seq<int>, a: int)
    requires a !in free
    ensures Drop(free, a) == free
  {
    if free != [] {
      DropMissing(free[1..], a);
    }
  }

  lemma DropKeeps(free: seq<int>, a: int)
    requires Distinct(free)
    ensures Distinct(Drop(free, a))
    ensures forall x :: x in Drop(free, a) <==> x in free && x != a
  {
    if a in free {
      var i :| 0 <= i < |free| && free[i] == a;
      DropAt(free, i);
      WithoutDistinct(free, i);
      assert free == free[..i] + [a] + free[i + 1..];
    } else {
      DropMissing(free, a);
    }
  }

  // ---------------------------------------------------------------- splicing

  lemma SpliceTiles(bs: seq<Block>, lo: nat, hi: nat, mid: seq<Block>)
    requires Tiles(bs) && lo < hi < |bs| && Tiles(mid) && |mid| > 0
    requires mid[0].addr == bs[lo].addr && mid[|mid| - 1].addr + HEADER <= bs[hi].addr
    ensures Tiles(Splice(bs, lo, hi, mid))
  {
  }

  lemma SpliceMerged(bs: seq<Block>, lo: nat, hi: nat, mid: seq<Block>)
    requires Merged(bs) && lo < hi < |bs| && Merged(mid) && |mid| > 0
    requires lo > 0 ==> bs[lo - 1].used || mid[0].used
    requires mid[|mid| - 1].used || bs[hi].used
    ensures Merged(Splice(bs, lo, hi, mid))
  {
  }

  lemma {:induction false} FreeAddrsJoin(xs: seq<Block>, ys: seq<Block>)
    ensures FreeAddrs(xs + ys) == FreeAddrs(xs) + FreeAddrs(ys)
  {
    if xs == [] {
      assert xs + ys == ys;
    } else {
      assert (xs + ys)[1..] == xs[1..] + ys;
      FreeAddrsJoin(xs[1..], ys);
    }
  }

  lemma FreeElsewhere(bs: seq<Block>, lo: nat, hi: nat)
    requires Tiles(bs) && lo <= hi <= |bs|
    ensures FreeAddrs(bs[lo..hi]) !! FreeAddrs(bs[..lo]) + FreeAddrs(bs[hi..])
  {
    forall a | a in FreeAddrs(bs[lo..hi]) ensures a !in FreeAddrs(bs[..lo]) + FreeAddrs(bs[hi..]) {
      var i := FreePosition(bs[lo..hi], a);
      forall b | b in FreeAddrs(bs[..lo]) ensures b != a {
        var j := FreePosition(bs[..lo], b);
        assert bs[j].addr + HEADER <= bs[lo + i].addr;
      }
      forall b | b in FreeAddrs(bs[hi..]) ensures b != a {
        var j := FreePosition(bs[hi..], b);
        assert bs[lo + i].addr + HEADER <= bs[hi + j].addr;
      }
    }
  }

  lemma SpliceFreeAddrs(bs: seq<Block>, lo: nat, hi: nat, mid: seq<Block>)
    requires Tiles(bs) && lo <= hi <= |bs|
    ensures FreeAddrs(Splice(bs, lo, hi, mid)) == FreeAddrs(bs) - FreeAddrs(bs[lo..hi]) + FreeAddrs(mid)
  {
    assert bs == bs[..lo] + bs[lo..hi] + bs[hi..];
    FreeAddrsJoin(bs[..lo] + bs[lo..hi], bs[hi..]);
    FreeAddrsJoin(bs[..lo], bs[lo..hi]);
    FreeAddrsJoin(bs[..lo] + mid, bs[hi..]);
    FreeAddrsJoin(bs[..lo], mid);
    FreeElsewhere(bs, lo, hi);
  }

  /** The ring lists what is free once blocks lo..hi are replaced by mid. */
  ghost predicate Relisted(p: Pool, lo: nat, hi: nat, mid: seq<Block>, free': seq<int>)
    requires lo <= hi <= |p.blocks|
  {
    && Distinct(free')
    && forall a :: a in free' <==> a in FreeAddrs(p.blocks) - FreeAddrs(p.blocks[lo..hi]) + FreeAddrs(mid)
  }

  /** The blocks mid fill the room of the blocks lo..hi and leave nothing to merge. */
  ghost predicate Fits(bs: seq<Block>, lo: nat, hi: nat, mid: seq<Block>) {
    && lo < hi < |bs| && |mid| > 0 && Tiles(mid) && Merged(mid)
    && mid[0].addr == bs[lo].addr && mid[|mid| - 1].addr + HEADER <= bs[hi].addr
    && (lo > 0 ==> bs[lo - 1].used || mid[0].used)
    && (mid[|mid| - 1].used || bs[hi].used)
  }

  /** Splicing in blocks that fit, with the free ring adjusted to match, keeps the invariant. */
  lemma SpliceInv(p: Pool, lo: nat, hi: nat, mid: seq<Block>, free': seq<int>)
    requires Inv(p) && Fits(p.blocks, lo, hi, mid) && Relisted(p, lo, hi, mid, free')
    ensures Inv(Pool(Splice(p.blocks, lo, hi, mid), free'))
    ensures SameExtent(p, Pool(Splice(p.blocks, lo, hi, mid), free'))
  {
    SpliceTiles(p.blocks, lo, hi, mid);
    SpliceMerged(p.blocks, lo, hi, mid);
    SpliceFreeAddrs(p.blocks, lo, hi, mid);
  }

  lemma FreeAddrs1(b: Block)
    ensures FreeAddrs([b]) == if b.used then {} else {b.addr}
  {
  }

  lemma FreeAddrs2(b: Block, c: Block)
    ensures FreeAddrs([b, c]) == FreeAddrs([b]) + FreeAddrs([c])
  {
  }

  lemma FreeAddrs3(b: Block, c: Block, d: Block)
    ensures FreeAddrs([b, c, d]) == FreeAddrs([b]) + FreeAddrs([c]) + FreeAddrs([d])
  {
  }

  /** An address strictly inside a block is no block's address. */
  lemma InsideIsFresh(p: Pool, k: nat, a: int)
    requires Inv(p) && k + 1 < |p.blocks| && p.blocks[k].addr < a < p.blocks[k + 1].addr
    ensures a !in p.free
  {
    forall b | b in p.free ensures b != a {
      var i := FreePosition(p.blocks, b);
      assert i > k + 1 ==> p.blocks[k + 1].addr + HEADER <= p.blocks[i].addr;
      assert i < k ==> p.blocks[i].addr + HEADER <= p.blocks[k].addr;
    }
  }

  lemma FreeByPosition(p: Pool, k: nat)
    requires Inv(p) && k < |p.blocks|
    ensures p.blocks[k].addr in p.free <==> !p.blocks[k].used
  {
    IndexOfAt(p.blocks, k);
    if p.blocks[k].addr in p.free {
      FreeIndex(p, p.blocks[k].addr);
    } else if !p.blocks[k].used {
      FreeAt(p.blocks, k);
    }
  }

  // ---------------------------------------------------------------- the invariant is kept

  /** Removing at most one free address. */
  lemma RelistOut(p: Pool, lo: nat, hi: nat, mid: seq<Block>, out: set<int>, a: int)
    requires FreeListed(p) && lo <= hi <= |p.blocks|
    requires FreeAddrs(p.blocks[lo..hi]) == out && out <= {a} && FreeAddrs(mid) == {}
    ensures Relisted(p, lo, hi, mid, if a in out then Drop(p.free, a) else p.free)
  {
    DropKeeps(p.free, a);
  }

  /** Removing at most one free address and adding one. */
  lemma RelistSwap(p: Pool, lo: nat, hi: nat, mid: seq<Block>, out: set<int>, a: int, b: int)
    requires FreeListed(p) && lo <= hi <= |p.blocks|
    requires FreeAddrs(p.blocks[lo..hi]) == out && out <= {a}
    requires FreeAddrs(mid) == {b} && (b !in p.free || b in out)
    ensures Relisted(p, lo, hi, mid, [b] + if a in out then Drop(p.free, a) else p.free)
  {
    DropKeeps(p.free, a);
    var kept := if a in out then Drop(p.free, a) else p.free;
    assert Distinct([b] + kept) by {
      assert b !in kept;
    }
  }

  lemma CarveRelisted(p: Pool, k: nat, rest: Block)
    requires Inv(p) && k + 1 < |p.blocks| && !p.blocks[k].used && !rest.used
    requires p.blocks[k].addr < rest.addr < p.blocks[k + 1].addr
    ensures Relisted(p, k, k + 1, [Block(p.blocks[k].addr, true), rest],
                     [rest.addr] + Drop(p.free, p.blocks[k].addr))
  {
    var bs, a := p.blocks, p.blocks[k].addr;
    assert bs[k..k + 1] == [bs[k]];
    FreeAddrs1(bs[k]);
    FreeAddrs1(Block(a, true));
    FreeAddrs1(rest);
    FreeAddrs2(Block(a, true), rest);
    InsideIsFresh(p, k, rest.addr);
    RelistSwap(p, k, k + 1, [Block(a, true), rest], {a}, a, rest.addr);
  }

  lemma CarveSplitInv(p: Pool, k: nat, n: int)
    requires Inv(p) && k + 1 < |p.blocks| && !p.blocks[k].used && n >= 0
    requires Payload(p.blocks, k) >= n + HEADER + MINIALLOC
    ensures Inv(Carve(p, k, n)) && SameExtent(p, Carve(p, k, n))
  {
    var a := p.blocks[k].addr;
    var rest := Block(a + HEADER + n, false);
    CarveRelisted(p, k, rest);
    assert Fits(p.blocks, k, k + 1, [Block(a, true), rest]);
    SpliceInv(p, k, k + 1, [Block(a, true), rest], [rest.addr] + Drop(p.free, a));
    assert Carve(p, k, n) == Pool(Splice(p.blocks, k, k + 1, [Block(a, true), rest]), [rest.addr] + Drop(p.free, a));
  }

  lemma CarveWholeInv(p: Pool, k: nat, n: int)
    requires Inv(p) && k + 1 < |p.blocks| && !p.blocks[k].used
    requires Payload(p.blocks, k) < n + HEADER + MINIALLOC
    ensures Inv(Carve(p, k, n)) && SameExtent(p, Carve(p, k, n))
  {
    var bs, a := p.blocks, p.blocks[k].addr;
    assert bs[k..k + 1] == [bs[k]];
    FreeAddrs1(bs[k]);
    FreeAddrs1(Block(a, true));
    RelistOut(p, k, k + 1, [Block(a, true)], {a}, a);
    SpliceInv(p, k, k + 1, [Block(a, true)], Drop(p.free, a));
  }

  lemma CarveInv(p: Pool, k: nat, n: int)
    requires Inv(p) && k + 1 < |p.blocks| && !p.blocks[k].used && n >= 0
    ensures Inv(Carve(p, k, n)) && SameExtent(p, Carve(p, k, n))
  {
    if Payload(p.blocks, k) >= n + HEADER + MINIALLOC {
      CarveSplitInv(p, k, n);
    } else {
      CarveWholeInv(p, k, n);
    }
  }

  /** Every allocation keeps the invariant, whether it succeeds or not. */
  lemma AllocInv(p: Pool, size: int)
    requires Inv(p)
    ensures Inv(Alloc(p, size).pool) && SameExtent(p, Alloc(p, size).pool)
  {
    var n := Request(size);
    var i := FirstFit(p.blocks, p.free, n);
    if n < FreeBytes(p.blocks) && i < |p.free| {
      FreeIndex(p, p.free[i]);
      CarveInv(p, IndexOf(p.blocks, p.free[i]), n);
    }
  }

  // ---------------------------------------------------------------- bytes

  /** Sums over blocks do not look at the state of the last one. */
  lemma {:induction false} SumsIgnoreLast(xs: seq<Block>, b: Block, c: Block)
    requires b.addr == c.addr
    ensures FreeBytes(xs + [b]) == FreeBytes(xs + [c]) && LiveBytes(xs + [b]) == LiveBytes(xs + [c])
  {
    if xs != [] {
      assert (xs + [b])[1..] == xs[1..] + [b] && (xs + [c])[1..] == xs[1..] + [c];
      SumsIgnoreLast(xs[1..], b, c);
    }
  }

  /** Sums over blocks can be cut at any block. */
  lemma {:induction false} SumsCut(bs: seq<Block>, k: nat)
    requires k < |bs|
    ensures FreeBytes(bs) == FreeBytes(bs[..k + 1]) + FreeBytes(bs[k..])
    ensures LiveBytes(bs) == LiveBytes(bs[..k + 1]) + LiveBytes(bs[k..])
  {
    if k > 0 {
      assert bs[..k + 1][1..] == bs[1..][..k] && bs[1..][k - 1..] == bs[k..];
      assert |bs[..k + 1]| >= 2;
      SumsCut(bs[1..], k - 1);
    } else {
      assert bs[0..] == bs;
    }
  }

  /** The three parts of a block list and of its splice. */
  lemma SpliceParts(bs: seq<Block>, lo: nat, hi: nat, mid: seq<Block>)
    requires lo < hi < |bs| && |mid| > 0
    ensures var r := Splice(bs, lo, hi, mid);
            && lo + |mid| < |r|
            && bs[..lo + 1] == bs[..lo] + [bs[lo]]
            && bs[lo..][..hi - lo + 1] == bs[lo..hi] + [bs[hi]]
            && bs[lo..][hi - lo..] == bs[hi..]
            && r[..lo + 1] == bs[..lo] + [mid[0]]
            && r[lo..][..|mid| + 1] == mid + [bs[hi]]
            && r[lo..][|mid|..] == bs[hi..]
  {
  }

  /** Splicing changes the free byte count by what changes inside the splice. */
  lemma SpliceFreeBytes(bs: seq<Block>, lo: nat, hi: nat, mid: seq<Block>)
    requires lo < hi < |bs| && |mid| > 0 && mid[0].addr == bs[lo].addr
    ensures FreeBytes(Splice(bs, lo, hi, mid)) ==
            FreeBytes(bs) - FreeBytes(bs[lo..hi] + [bs[hi]]) + FreeBytes(mid + [bs[hi]])
  {
    var r := Splice(bs, lo, hi, mid);
    SpliceParts(bs, lo, hi, mid);
    SumsCut(bs, lo);
    SumsCut(bs[lo..], hi - lo);
    SumsCut(r, lo);
    SumsCut(r[lo..], |mid|);
    SumsIgnoreLast(bs[..lo], bs[lo], mid[0]);
  }

  lemma FreeBytes2(b: Block, c: Block)
    ensures FreeBytes([b, c]) == if b.used then 0 else c.addr - b.addr - HEADER
  {
  }

  lemma FreeBytes3(b: Block, c: Block, d: Block)
    ensures FreeBytes([b, c, d]) == FreeBytes([b, c]) + FreeBytes([c, d])
  {
  }

  lemma FreeBytes4(b: Block, c: Block, d: Block, e: Block)
    ensures FreeBytes([b, c, d, e]) == FreeBytes([b, c]) + FreeBytes([c, d]) + FreeBytes([d, e])
  {
  }

  /** Conservation: free bytes, live bytes and one header per block add up to the whole pool. */
  lemma {:induction false} Conservation(bs: seq<Block>)
    requires |bs| > 0
    ensures FreeBytes(bs) + LiveBytes(bs) + HEADER * |bs| == bs[|bs| - 1].addr + HEADER - bs[0].addr
  {
    if |bs| > 1 {
      Conservation(bs[1..]);
    }
  }

  // ---------------------------------------------------------------- live blocks

  /** The live blocks are those of used positions. */
  lemma {:induction false} LiveAt(bs: seq<Block>, k: nat)
    requires k + 1 < |bs| && bs[k].used
    ensures (bs[k].addr, Payload(bs, k)) in Live(bs)
  {
    if k > 0 {
      LiveAt(bs[1..], k - 1);
    }
  }

  lemma {:induction false} LivePosition(bs: seq<Block>, x: (int, int)) returns (k: nat)
    requires x in Live(bs)
    ensures k + 1 < |bs| && bs[k].used && x == (bs[k].addr, Payload(bs, k))
  {
    if bs[0].used && x == (bs[0].addr, Payload(bs, 0)) {
      k := 0;
    } else {
      var i := LivePosition(bs[1..], x);
      k := i + 1;
    }
  }

  lemma {:induction false} LiveCut(bs: seq<Block>, k: nat)
    requires k < |bs|
    ensures Live(bs) == Live(bs[..k + 1]) + Live(bs[k..])
  {
    if k > 0 {
      assert bs[..k + 1][1..] == bs[1..][..k] && bs[1..][k - 1..] == bs[k..];
      assert |bs[..k + 1]| >= 2;
      LiveCut(bs[1..], k - 1);
    } else {
      assert bs[0..] == bs;
    }
  }

  lemma {:induction false} LiveIgnoresLast(xs: seq<Block>, b: Block, c: Block)
    requires b.addr == c.addr
    ensures Live(xs + [b]) == Live(xs + [c])
  {
    if xs != [] {
      assert (xs + [b])[1..] == xs[1..] + [b] && (xs + [c])[1..] == xs[1..] + [c];
      LiveIgnoresLast(xs[1..], b, c);
    }
  }

  /** The live blocks before, inside and after a splice. */
  lemma SpliceLive(bs: seq<Block>, lo: nat, hi: nat, mid: seq<Block>)
    requires lo < hi < |bs| && |mid| > 0 && mid[0].addr == bs[lo].addr
    ensures Live(bs) == Live(bs[..lo + 1]) + Live(bs[lo..hi] + [bs[hi]]) + Live(bs[hi..])
    ensures Live(Splice(bs, lo, hi, mid)) == Live(bs[..lo + 1]) + Live(mid + [bs[hi]]) + Live(bs[hi..])
  {
    SpliceParts(bs, lo, hi, mid);
    LiveCut(bs, lo);
    LiveCut(bs[lo..], hi - lo);
    LiveCut(Splice(bs, lo, hi, mid), lo);
    LiveCut(Splice(bs, lo, hi, mid)[lo..], |mid|);
    LiveIgnoresLast(bs[..lo], bs[lo], mid[0]);
  }

  lemma Live1(b: Block, c: Block)
    ensures Live([b, c]) == if b.used then {(b.addr, c.addr - b.addr - HEADER)} else {}
  {
  }

  lemma LiveCons(b: Block, c: Block, rest: seq<Block>)
    ensures Live([b, c] + rest) == Live([b, c]) + Live([c] + rest)
  {
  }

  /** No live block outside the splice starts inside it. */
  lemma LiveElsewhere(bs: seq<Block>, lo: nat, hi: nat, a: int, n: int)
    requires Tiles(bs) && lo < hi < |bs| && bs[lo].addr <= a < bs[hi].addr
    ensures (a, n) !in Live(bs[..lo + 1]) && (a, n) !in Live(bs[hi..])
  {
    forall x | x in Live(bs[..lo + 1]) ensures x.0 < bs[lo].addr {
      var i := LivePosition(bs[..lo + 1], x);
      assert bs[i].addr + HEADER <= bs[lo].addr;
    }
    forall x | x in Live(bs[hi..]) ensures x.0 >= bs[hi].addr {
      var i := LivePosition(bs[hi..], x);
      assert i > 0 ==> bs[hi].addr + HEADER <= bs[hi + i].addr;
    }
  }

  /** Splicing ends the allocations inside the splice and starts those of the new blocks. */
  lemma LiveReplace(bs: seq<Block>, lo: nat, hi: nat, mid: seq<Block>, out: set<(int, int)>)
    requires Tiles(bs) && lo < hi < |bs| && |mid| > 0 && mid[0].addr == bs[lo].addr
    requires Live(bs[lo..hi] + [bs[hi]]) == out
    requires forall x :: x in out ==> bs[lo].addr <= x.0 < bs[hi].addr
    ensures Live(Splice(bs, lo, hi, mid)) == Live(bs) - out + Live(mid + [bs[hi]])
  {
    var before, after := Live(bs[..lo + 1]), Live(bs[hi..]);
    forall x | x in out ensures x !in before && x !in after {
      LiveElsewhere(bs, lo, hi, x.0, x.1);
    }
    SpliceLive(bs, lo, hi, mid);
  }

  // ---------------------------------------------------------------- releasing

  lemma FreeSegment(bs: seq<Block>, lo: nat, k: nat, hi: nat)
    requires lo <= k < hi <= |bs| && bs[k].used && k <= lo + 1 && hi <= k + 2
    requires lo < k ==> !bs[lo].used
    requires k + 1 < hi ==> !bs[k + 1].used
    ensures FreeAddrs(bs[lo..hi]) ==
            (if lo < k then {bs[lo].addr} else {}) + (if k + 1 < hi then {bs[k + 1].addr} else {})
  {
    FreeAddrs1(bs[k]);
    if lo < k {
      FreeAddrs1(bs[lo]);
      if k + 1 < hi {
        assert bs[lo..hi] == [bs[lo], bs[k], bs[k + 1]];
        FreeAddrs1(bs[k + 1]);
        FreeAddrs3(bs[lo], bs[k], bs[k + 1]);
      } else {
        assert bs[lo..hi] == [bs[lo], bs[k]];
        FreeAddrs2(bs[lo], bs[k]);
      }
    } else if k + 1 < hi {
      assert bs[lo..hi] == [bs[k], bs[k + 1]];
      FreeAddrs1(bs[k + 1]);
      FreeAddrs2(bs[k], bs[k + 1]);
    } else {
      assert bs[lo..hi] == [bs[k]];
    }
  }

  lemma FreeRelisted(p: Pool, lo: nat, k: nat, hi: nat)
    requires Inv(p) && Owned(p, k) && lo <= k < hi < |p.blocks| && k <= lo + 1 && hi <= k + 2
    requires lo < k ==> !p.blocks[lo].used
    requires k + 1 < hi ==> !p.blocks[k + 1].used
    ensures var free' := if k + 1 < hi then Drop(p.free, p.blocks[k + 1].addr) else p.free;
            Relisted(p, lo, hi, [Block(p.blocks[lo].addr, false)],
                     if lo < k then free' else [p.blocks[k].addr] + free')
  {
    var bs := p.blocks;
    FreeSegment(bs, lo, k, hi);
    FreeAddrs1(Block(bs[lo].addr, false));
    FreeByPosition(p, k);
    FreeByPosition(p, lo);
    DropKeeps(p.free, bs[k + 1].addr);
    assert lo < k ==> bs[lo].addr + HEADER <= bs[k + 1].addr;
  }

  /** Every release keeps the invariant. */
  lemma FreeInv(p: Pool, k: nat)
    requires Inv(p) && Owned(p, k)
    ensures Inv(Free(p, k)) && SameExtent(p, Free(p, k))
  {
    var bs := p.blocks;
    var left, right := k > 0 && !bs[k - 1].used, !bs[k + 1].used;
    var lo, hi := if left then k - 1 else k, if right then k + 2 else k + 1;
    assert right ==> k + 2 < |bs| && bs[k + 2].used;
    assert left && k > 1 ==> bs[k - 2].used;
    FreeRelisted(p, lo, k, hi);
    assert bs[lo].addr + HEADER <= bs[hi].addr;
    SpliceInv(p, lo, hi, [Block(bs[lo].addr, false)], Free(p, k).free);
  }

  lemma ResizeRelisted(p: Pool, k: nat, hi: nat, n: int)
    requires Inv(p) && Owned(p, k) && k < hi < |p.blocks| && hi <= k + 2
    requires k + 1 < hi <==> !p.blocks[k + 1].used
    requires 0 <= n && p.blocks[k].addr + HEADER + n + HEADER <= p.blocks[hi].addr
    ensures var a := p.blocks[k].addr;
            var free' := if k + 1 < hi then Drop(p.free, p.blocks[k + 1].addr) else p.free;
            Relisted(p, k, hi, [Block(a, true), Block(a + HEADER + n, false)], [a + HEADER + n] + free')
  {
    var bs, a := p.blocks, p.blocks[k].addr;
    var rest := Block(a + HEADER + n, false);
    FreeSegment(bs, k, k, hi);
    FreeAddrs2(Block(a, true), rest);
    FreeAddrs1(Block(a, true));
    FreeAddrs1(rest);
    if rest.addr < bs[k + 1].addr {
      InsideIsFresh(p, k, rest.addr);
    } else if rest.addr > bs[k + 1].addr {
      InsideIsFresh(p, k + 1, rest.addr);
    }
    RelistSwap(p, k, hi, [Block(a, true), rest], FreeAddrs(bs[k..hi]), bs[k + 1].addr, rest.addr);
  }

  lemma TwoFit(bs: seq<Block>, k: nat, hi: nat, n: int)
    requires k < hi < |bs| && bs[hi].used && 0 <= n && bs[k].addr + HEADER + n + HEADER <= bs[hi].addr
    ensures Fits(bs, k, hi, [Block(bs[k].addr, true), Block(bs[k].addr + HEADER + n, false)])
  {
  }

  /** Growing or shrinking in place keeps the invariant when the new free block fits. */
  lemma ResizeInv(p: Pool, k: nat, n: int)
    requires Inv(p) && Owned(p, k) && 0 <= n
    requires var hi := if p.blocks[k + 1].used then k + 1 else k + 2;
             hi < |p.blocks| && p.blocks[k].addr + HEADER + n + HEADER <= p.blocks[hi].addr
    ensures Inv(Resize(p, k, n)) && SameExtent(p, Resize(p, k, n))
  {
    hide Tiles, FreeListed, Relisted, Drop, Splice;
    var bs, a := p.blocks, p.blocks[k].addr;
    var hi := if bs[k + 1].used then k + 1 else k + 2;
    assert bs[hi].used;
    ResizeRelisted(p, k, hi, n);
    TwoFit(bs, k, hi, n);
    SpliceInv(p, k, hi, [Block(a, true), Block(a + HEADER + n, false)], Resize(p, k, n).free);
  }

  // ---------------------------------------------------------------- effects

  /** The payload a request for n bytes gets out of block k. */
  function Granted(bs: seq<Block>, k: nat, n: int): int
    requires k + 1 < |bs|
  {
    if Payload(bs, k) >= n + HEADER + MINIALLOC then n else Payload(bs, k)
  }

  lemma CarveBytes(p: Pool, k: nat, n: int)
    requires k + 1 < |p.blocks| && !p.blocks[k].used
    ensures FreeBytes(Carve(p, k, n).blocks) == FreeBytes(p.blocks) - Granted(p.blocks, k, n)
              - (if Payload(p.blocks, k) >= n + HEADER + MINIALLOC then HEADER else 0)
  {
    var bs, c := p.blocks, p.blocks[k + 1];
    var b, rest := Block(bs[k].addr, true), Block(bs[k].addr + HEADER + n, false);
    assert bs[k..k + 1] + [c] == [bs[k], c];
    FreeBytes2(bs[k], c);
    if Payload(bs, k) >= n + HEADER + MINIALLOC {
      SpliceFreeBytes(bs, k, k + 1, [b, rest]);
      assert [b, rest] + [c] == [b, rest, c];
      FreeBytes3(b, rest, c);
      FreeBytes2(b, rest);
      FreeBytes2(rest, c);
    } else {
      SpliceFreeBytes(bs, k, k + 1, [b]);
      assert [b] + [c] == [b, c];
      FreeBytes2(b, c);
    }
  }

  lemma CarveLive(p: Pool, k: nat, n: int)
    requires Tiles(p.blocks) && k + 1 < |p.blocks| && !p.blocks[k].used
    ensures Live(Carve(p, k, n).blocks) == Live(p.blocks) + {(p.blocks[k].addr, Granted(p.blocks, k, n))}
  {
    var bs, c := p.blocks, p.blocks[k + 1];
    var b, rest := Block(bs[k].addr, true), Block(bs[k].addr + HEADER + n, false);
    assert bs[k..k + 1] + [c] == [bs[k], c];
    Live1(bs[k], c);
    if Payload(bs, k) >= n + HEADER + MINIALLOC {
      LivePair(b, rest, c);
      LiveReplace(bs, k, k + 1, [b, rest], {});
    } else {
      assert [b] + [c] == [b, c];
      Live1(b, c);
      LiveReplace(bs, k, k + 1, [b], {});
    }
  }

  /** A used block, a free one and a third: only the first is live. */
  lemma LivePair(b: Block, rest: Block, c: Block)
    requires b.used && !rest.used
    ensures Live([b, rest] + [c]) == {(b.addr, rest.addr - b.addr - HEADER)}
  {
    assert [rest] + [c] == [rest, c];
    LiveCons(b, rest, [c]);
    Live1(b, rest);
    Live1(rest, c);
  }

  /** A used block between free neighbours: the bytes and the live block of the segment. */
  lemma SegmentSums(bs: seq<Block>, lo: nat, k: nat, hi: nat)
    requires lo <= k < hi < |bs| && bs[k].used && k <= lo + 1 && hi <= k + 2
    requires lo < k ==> !bs[lo].used
    requires k + 1 < hi ==> !bs[k + 1].used
    ensures FreeBytes(bs[lo..hi] + [bs[hi]]) ==
            (if lo < k then Payload(bs, lo) else 0) + (if k + 1 < hi then Payload(bs, k + 1) else 0)
    ensures Live(bs[lo..hi] + [bs[hi]]) == {(bs[k].addr, Payload(bs, k))}
  {
    var b, c, d := bs[lo], bs[k], bs[k + 1];
    FreeBytes2(c, d);
    Live1(c, d);
    if k + 1 < hi {
      FreeBytes2(d, bs[hi]);
      Live1(d, bs[hi]);
      FreeBytes3(c, d, bs[hi]);
      assert [c, d, bs[hi]] == [c, d] + [bs[hi]] && [d] + [bs[hi]] == [d, bs[hi]];
      LiveCons(c, d, [bs[hi]]);
    }
    if lo < k {
      FreeBytes2(b, c);
      Live1(b, c);
      if k + 1 < hi {
        assert bs[lo..hi] + [bs[hi]] == [b, c, d, bs[hi]];
        FreeBytes4(b, c, d, bs[hi]);
        assert [b, c, d, bs[hi]] == [b, c] + [d, bs[hi]] && [c] + [d, bs[hi]] == [c, d, bs[hi]];
        LiveCons(b, c, [d, bs[hi]]);
      } else {
        assert bs[lo..hi] + [bs[hi]] == [b, c, d];
        FreeBytes3(b, c, d);
        assert [b, c, d] == [b, c] + [d] && [c] + [d] == [c, d];
        LiveCons(b, c, [d]);
      }
    } else if k + 1 < hi {
      assert bs[lo..hi] + [bs[hi]] == [c, d, bs[hi]];
    } else {
      assert bs[lo..hi] + [bs[hi]] == [c, d];
    }
  }

  /** A release gives back the payload, plus one header for every neighbour it is merged with. */
  lemma FreeBytesBack(p: Pool, k: nat)
    requires Owned(p, k) && (!p.blocks[k + 1].used ==> k + 2 < |p.blocks|)
    ensures FreeBytes(Free(p, k).blocks) == FreeBytes(p.blocks) + Payload(p.blocks, k)
              + (if k > 0 && !p.blocks[k - 1].used then HEADER else 0)
              + (if !p.blocks[k + 1].used then HEADER else 0)
  {
    var bs := p.blocks;
    var left, right := k > 0 && !bs[k - 1].used, !bs[k + 1].used;
    var lo, hi := if left then k - 1 else k, if right then k + 2 else k + 1;
    var b := Block(bs[lo].addr, false);
    SegmentSums(bs, lo, k, hi);
    SpliceFreeBytes(bs, lo, hi, [b]);
    assert [b] + [bs[hi]] == [b, bs[hi]];
    FreeBytes2(b, bs[hi]);
  }

  /** A release ends exactly one allocation. */
  lemma FreeLive(p: Pool, k: nat)
    requires Tiles(p.blocks) && Owned(p, k) && (!p.blocks[k + 1].used ==> k + 2 < |p.blocks|)
    ensures Live(Free(p, k).blocks) == Live(p.blocks) - {(p.blocks[k].addr, Payload(p.blocks, k))}
  {
    var bs := p.blocks;
    var left, right := k > 0 && !bs[k - 1].used, !bs[k + 1].used;
    var lo, hi := if left then k - 1 else k, if right then k + 2 else k + 1;
    var b := Block(bs[lo].addr, false);
    SegmentSums(bs, lo, k, hi);
    assert [b] + [bs[hi]] == [b, bs[hi]];
    Live1(b, bs[hi]);
    LiveReplace(bs, lo, hi, [b], {(bs[k].addr, Payload(bs, k))});
  }

  /** A resize in place moves the difference in length to the free bytes. */
  lemma ResizeBytes(p: Pool, k: nat, n: int)
    requires Owned(p, k) && (!p.blocks[k + 1].used ==> k + 2 < |p.blocks|)
    ensures FreeBytes(Resize(p, k, n).blocks) == FreeBytes(p.blocks) + Payload(p.blocks, k) - n
              - (if p.blocks[k + 1].used then HEADER else 0)
  {
    var bs, a := p.blocks, p.blocks[k].addr;
    var hi := if bs[k + 1].used then k + 1 else k + 2;
    var b, c := Block(a, true), Block(a + HEADER + n, false);
    SegmentSums(bs, k, k, hi);
    SpliceFreeBytes(bs, k, hi, [b, c]);
    assert [b, c] + [bs[hi]] == [b, c, bs[hi]];
    FreeBytes3(b, c, bs[hi]);
    FreeBytes2(b, c);
    FreeBytes2(c, bs[hi]);
  }

  /** A resize in place changes the length of exactly one allocation. */
  lemma ResizeLive(p: Pool, k: nat, n: int)
    requires Tiles(p.blocks) && Owned(p, k) && (!p.blocks[k + 1].used ==> k + 2 < |p.blocks|)
    ensures Live(Resize(p, k, n).blocks) ==
            Live(p.blocks) - {(p.blocks[k].addr, Payload(p.blocks, k))} + {(p.blocks[k].addr, n)}
  {
    var bs, a := p.blocks, p.blocks[k].addr;
    var hi := if bs[k + 1].used then k + 1 else k + 2;
    var b, c := Block(a, true), Block(a + HEADER + n, false);
    SegmentSums(bs, k, k, hi);
    LivePair(b, c, bs[hi]);
    LiveReplace(bs, k, hi, [b, c], {(a, Payload(bs, k))});
  }

  lemma LiveOwned(p: Pool, a: int, n: int)
    requires Inv(p) && (a, n) in Live(p.blocks)
    ensures Owned(p, IndexOf(p.blocks, a)) && Payload(p.blocks, IndexOf(p.blocks, a)) == n
  {
    var i := LivePosition(p.blocks, (a, n));
    IndexOfAt(p.blocks, i);
  }

  lemma NotNull(p: Pool, k: nat)
    requires Inv(p) && k < |p.blocks|
    ensures p.blocks[k].addr > NULL
  {
  }

  /** An allocation leaves every block a client holds where it was. */
  lemma AllocKeepsOwned(p: Pool, size: int, k: nat)
    requires Inv(p) && Owned(p, k)
    ensures var q := Alloc(p, size).pool;
            var k' := IndexOf(q.blocks, p.blocks[k].addr);
            Inv(q) && Owned(q, k') && Payload(q.blocks, k') == Payload(p.blocks, k)
  {
    AllocInv(p, size);
    LiveAt(p.blocks, k);
    AllocSucceeds(p, size);
    if Alloc(p, size).ptr != NULL {
      AllocLive(p, size);
    }
    LiveOwned(Alloc(p, size).pool, p.blocks[k].addr, Payload(p.blocks, k));
  }

  // ---------------------------------------------------------------- the results for each operation

  /** Some free block can hold n bytes. */
  ghost predicate HasFit(p: Pool, n: int) {
    exists i :: 0 <= i < |p.blocks| - 1 && !p.blocks[i].used && Payload(p.blocks, i) >= n
  }

  lemma FitIsFound(p: Pool, n: int)
    requires Inv(p)
    ensures HasFit(p, n) <==> FirstFit(p.blocks, p.free, n) < |p.free|
  {
    var i := FirstFit(p.blocks, p.free, n);
    if i < |p.free| {
      FreeIndex(p, p.free[i]);
      assert Payload(p.blocks, IndexOf(p.blocks, p.free[i])) >= n;
    } else {
      forall k | 0 <= k < |p.blocks| - 1 && !p.blocks[k].used ensures Payload(p.blocks, k) < n {
        FreeByPosition(p, k);
        IndexOfAt(p.blocks, k);
        assert PayloadAt(p.blocks, p.blocks[k].addr) < n;
      }
    }
  }

  /**
   rt_memheap_alloc succeeds exactly when the request is below the free byte count and some free
   block can hold it; a failure changes nothing.
   */
  lemma AllocSucceeds(p: Pool, size: int)
    requires Inv(p)
    ensures Alloc(p, size).ptr != NULL <==> Request(size) < FreeBytes(p.blocks) && HasFit(p, Request(size))
    ensures Alloc(p, size).ptr == NULL ==> Alloc(p, size).pool == p
  {
    var n := Request(size);
    var i := FirstFit(p.blocks, p.free, n);
    FitIsFound(p, n);
    if n < FreeBytes(p.blocks) && i < |p.free| {
      FreeIndex(p, p.free[i]);
      NotNull(p, IndexOf(p.blocks, p.free[i]));
    }
  }

  /** The payload length that a successful allocation hands out. */
  ghost function Grant(p: Pool, size: int): int
    requires Inv(p) && Alloc(p, size).ptr != NULL
  {
    var k := IndexOf(p.blocks, Alloc(p, size).ptr - HEADER);
    Granted(p.blocks, k, Request(size))
  }

  /**
   A successful rt_memheap_alloc starts one allocation in a block that was free, at least as long
   as requested and wasting less than a minimal block; every other allocation stays as it was.
   */
  lemma AllocLive(p: Pool, size: int)
    requires Inv(p) && Alloc(p, size).ptr != NULL
    ensures Alloc(p, size).ptr - HEADER in p.free
    ensures Request(size) <= Grant(p, size) < Request(size) + HEADER + MINIALLOC
    ensures Live(Alloc(p, size).pool.blocks) == Live(p.blocks) + {(Alloc(p, size).ptr - HEADER, Grant(p, size))}
  {
    var n := Request(size);
    var a := p.free[FirstFit(p.blocks, p.free, n)];
    CarveGrants(p, a, n);
    assert Alloc(p, size) == Outcome(Carve(p, IndexOf(p.blocks, a), n), a + HEADER);
    assert Grant(p, size) == Granted(p.blocks, IndexOf(p.blocks, a), n);
  }

  /**
   Which block an allocation takes, and where the rest goes: the first of the free ring that is long enough; what is
   split off becomes the first of the ring, and the others keep their order.
   */
  lemma AllocOrder(p: Pool, size: int)
    requires Inv(p) && Alloc(p, size).ptr != NULL
    ensures var r, a := Alloc(p, size), Alloc(p, size).ptr - HEADER;
            && (exists i :: && 0 <= i < |p.free| && p.free[i] == a
                            && forall j :: 0 <= j < i ==> PayloadAt(p.blocks, p.free[j]) < Request(size))
            && a !in r.pool.free && (forall x :: x in p.free && x != a ==> x in r.pool.free)
            && (r.pool.free == Drop(p.free, a) || (r.pool.free != [] && r.pool.free[1..] == Drop(p.free, a)))
  {
    var n, i := Request(size), FirstFit(p.blocks, p.free, Request(size));
    FreeIndex(p, p.free[i]);
    hide Carve, Splice, FreeBytes, Payload, PayloadAt;
    CarveOrder(p, IndexOf(p.blocks, p.free[i]), n);
  }

  lemma CarveOrder(p: Pool, k: nat, n: int)
    requires k + 1 < |p.blocks| && Distinct(p.free) && n > 0
    ensures var a, free := p.blocks[k].addr, Carve(p, k, n).free;
            && a !in free && (forall x :: x in p.free && x != a ==> x in free)
            && (free == Drop(p.free, a) || (free != [] && free[1..] == Drop(p.free, a)))
  {
    var a := p.blocks[k].addr;
    DropKeeps(p.free, a);
    hide Splice, Distinct;
    assert ([a + HEADER + n] + Drop(p.free, a))[1..] == Drop(p.free, a);
  }

  /** A released block becomes the first of the free ring, unless it joins the free block before it. */
  lemma FreeOrder(p: Pool, k: nat)
    requires Inv(p) && Owned(p, k)
    ensures var q, a, right := Free(p, k).free, p.blocks[k].addr, p.blocks[k + 1];
            var rest := if right.used then p.free else Drop(p.free, right.addr);
            if k > 0 && !p.blocks[k - 1].used then q == rest else q != [] && q[0] == a && q[1..] == rest
  {
    hide Inv, Splice;
  }

  lemma CarveGrants(p: Pool, a: int, n: int)
    requires Inv(p) && a in p.free && PayloadAt(p.blocks, a) >= n
    ensures var k := IndexOf(p.blocks, a);
            && k + 1 < |p.blocks| && !p.blocks[k].used
            && n <= Granted(p.blocks, k, n) < n + HEADER + MINIALLOC
            && Live(Carve(p, k, n).blocks) == Live(p.blocks) + {(a, Granted(p.blocks, k, n))}
  {
    FreeIndex(p, a);
    CarveLive(p, IndexOf(p.blocks, a), n);
  }

  /** Releasing a block right after allocating it brings back the very same blocks. */
  lemma FreeUndoesAlloc(p: Pool, size: int)
    requires Inv(p) && Alloc(p, size).ptr != NULL
    ensures var r := Alloc(p, size);
            var k := IndexOf(r.pool.blocks, r.ptr - HEADER);
            Owned(r.pool, k) && Free(r.pool, k).blocks == p.blocks
  {
    var n := Request(size);
    var a := p.free[FirstFit(p.blocks, p.free, n)];
    FreeIndex(p, a);
    var k := IndexOf(p.blocks, a);
    assert Alloc(p, size) == Outcome(Carve(p, k, n), a + HEADER);
    CarveInv(p, k, n);
    FreeUndoesCarve(p, k, n);
    IndexOfAt(Carve(p, k, n).blocks, k);
  }

  lemma FreeUndoesCarve(p: Pool, k: nat, n: int)
    requires Merged(p.blocks) && k + 1 < |p.blocks| && !p.blocks[k].used
    ensures Owned(Carve(p, k, n), k) && Carve(p, k, n).blocks[k].addr == p.blocks[k].addr
    ensures Free(Carve(p, k, n), k).blocks == p.blocks
  {
  }

  /** The guard of growing in place is exact for every request the machine can add 12 to. */
  lemma GrowsExactly(have: int, next: int, n: int)
    requires 0 <= n < WORD
    ensures n + MINIALLOC < WORD ==> (Grows(have, next, n) <==> have + next > n + MINIALLOC)
    ensures n + MINIALLOC >= WORD ==> (Grows(have, next, n) <==> have + next > n + MINIALLOC - WORD)
  {
    if n + MINIALLOC >= WORD {
      assert (n + MINIALLOC) % WORD == n + MINIALLOC - WORD;
    }
  }

  /** The pool lies in the memory of a 32-bit machine. */
  ghost predicate InMemory(p: Pool) {
    |p.blocks| > 0 && p.blocks[|p.blocks| - 1].addr + HEADER <= WORD
  }

  /** The guard of growing in place says yes only because its sum wraps. */
  predicate GuardWraps(p: Pool, k: nat, n: int) {
    && k + 2 < |p.blocks| && n > Payload(p.blocks, k) && !p.blocks[k + 1].used
    && n + MINIALLOC >= WORD && Payload(p.blocks, k) + Payload(p.blocks, k + 1) > n + MINIALLOC - WORD
  }

  /** Every other realloc of a block in use keeps the invariant. */
  lemma ReallocInv(p: Pool, k: nat, size: int)
    requires Inv(p) && Owned(p, k) && 0 <= size < WORD && !GuardWraps(p, k, Request(size))
    ensures Inv(Realloc(p, k, size).pool) && SameExtent(p, Realloc(p, k, size).pool)
  {
    RequestRange(size);
    var bs, n := p.blocks, Request(size);
    var have := Payload(bs, k);
    if n > have {
      if !bs[k + 1].used && Grows(have, Payload(bs, k + 1), n) {
        GrowsExactly(have, Payload(bs, k + 1), n);
        ResizeInv(p, k, n);
      } else {
        MoveInv(p, k, n);
      }
    } else if n + HEADER + MINIALLOC < have {
      ShrinkFits(p, k, n);
      ResizeInv(p, k, n);
    }
  }

  /**
   Realloc keeps the pool in order if and only if its guard does not wrap.  If it does, the header of the supposed
   free remainder is written into the header of the block itself.
   */
  lemma ReallocExactly(p: Pool, k: nat, size: int)
    requires Inv(p) && InMemory(p) && Owned(p, k) && 0 <= size < WORD
    ensures Inv(Realloc(p, k, size).pool) <==> !GuardWraps(p, k, Request(size))
    ensures GuardWraps(p, k, Request(size)) ==>
              var a := p.blocks[k].addr; a < (a + HEADER + Request(size)) % WORD < a + HEADER
  {
    var n := Request(size);
    RequestRange(size);
    hide Realloc, Resize, Inv, Request, Align, GuardWraps;
    if GuardWraps(p, k, n) {
      WrapBreaks(p, k, n);
      WrapResizes(p, k, size);
    } else {
      ReallocInv(p, k, size);
    }
  }

  lemma WrapResizes(p: Pool, k: nat, size: int)
    requires Inv(p) && Owned(p, k) && 0 <= size < WORD && GuardWraps(p, k, Request(size))
    ensures Realloc(p, k, size).pool == Resize(p, k, Request(size))
  {
    RequestRange(size);
    GrowsExactly(Payload(p.blocks, k), Payload(p.blocks, k + 1), Request(size));
    hide Resize, Move, Grows, Request, Align, Inv;
  }

  lemma WrapBreaks(p: Pool, k: nat, n: int)
    requires Inv(p) && InMemory(p) && Owned(p, k) && 0 <= n < WORD && GuardWraps(p, k, n)
    ensures !Inv(Resize(p, k, n))
    ensures var a := p.blocks[k].addr; a < (a + HEADER + n) % WORD < a + HEADER
  {
    var bs := p.blocks;
    GrowsExactly(Payload(bs, k), Payload(bs, k + 1), n);
    var q, a := Resize(p, k, n), bs[k].addr;
    assert q.blocks[k + 1] == Block(a + HEADER + n, false) && q.blocks[k + 2] == bs[k + 2];
    assert bs[k + 2].addr < WORD <= a + HEADER + n;
    assert !Tiles(q.blocks);
    assert (a + HEADER + n) % WORD == a + HEADER + n - WORD;
  }

  /** A pool and a request that break it. */
  lemma ReallocBreaks()
    ensures exists p, k, size ::
              Inv(p) && InMemory(p) && Owned(p, k) && 0 <= size < WORD && !Inv(Realloc(p, k, size).pool)
  {
    hide Realloc, Request, Tiles, Merged;
    var p := Pool([Block(1000, true), Block(1100, false), Block(2000, true)], [1100]);
    assert Tiles(p.blocks) && Merged(p.blocks) by { SmallTiles(p.blocks); }
    var size := WORD - MINIALLOC;
    FreeAddrs3(p.blocks[0], p.blocks[1], p.blocks[2]);
    FreeAddrs1(p.blocks[0]);
    FreeAddrs1(p.blocks[1]);
    FreeAddrs1(p.blocks[2]);
    assert Inv(p) && InMemory(p) && Owned(p, 0);
    assert Request(size) == size by { LargeRequest(); }
    assert GuardWraps(p, 0, Request(size));
    ReallocExactly(p, 0, size);
  }

  lemma SmallTiles(bs: seq<Block>)
    requires |bs| == 3 && bs[0].addr + HEADER <= bs[1].addr && bs[1].addr + HEADER <= bs[2].addr
    requires bs[0].used && bs[2].used
    ensures Tiles(bs) && Merged(bs)
  {
  }

  lemma LargeRequest()
    ensures Request(WORD - MINIALLOC) == WORD - MINIALLOC
  {
  }

  lemma MoveInv(p: Pool, k: nat, n: int)
    requires Inv(p) && Owned(p, k)
    ensures Inv(Move(p, k, n).pool) && SameExtent(p, Move(p, k, n).pool)
  {
    var r := Alloc(p, n);
    AllocInv(p, n);
    if r.ptr != NULL {
      AllocKeepsOwned(p, n, k);
      FreeInv(r.pool, IndexOf(r.pool.blocks, p.blocks[k].addr));
    }
  }

  lemma ShrinkFits(p: Pool, k: nat, n: int)
    requires Inv(p) && Owned(p, k) && n + HEADER <= Payload(p.blocks, k)
    ensures var hi := if p.blocks[k + 1].used then k + 1 else k + 2;
            hi < |p.blocks| && p.blocks[k].addr + HEADER + n + HEADER <= p.blocks[hi].addr
  {
  }

  /** The allocation of block k in p has become one of got bytes at ptr in q; no other one changed. */
  ghost predicate Replaced(p: Pool, k: nat, q: Pool, ptr: int, got: int)
    requires k + 1 < |p.blocks|
  {
    Live(q.blocks) == Live(p.blocks) - {(p.blocks[k].addr, Payload(p.blocks, k))} + {(ptr - HEADER, got)}
  }

  /**
   What realloc does for the client: it fails and changes nothing, or one allocation is replaced by
   one that is long enough, in place or elsewhere, and all the others stay as they were.
   */
  lemma ReallocLive(p: Pool, k: nat, size: int)
    requires Inv(p) && Owned(p, k) && 0 <= size < WORD && !GuardWraps(p, k, Request(size))
    ensures Realloc(p, k, size).ptr == NULL ==> Realloc(p, k, size).pool == p
    ensures Realloc(p, k, size).ptr != NULL ==>
              exists got :: got >= Request(size) &&
                            Replaced(p, k, Realloc(p, k, size).pool, Realloc(p, k, size).ptr, got)
  {
    hide Alloc, Move, Live, Request, Tiles, Merged, FreeListed, Resize;
    var bs, n := p.blocks, Request(size);
    var a, have := bs[k].addr, Payload(bs, k);
    NotNull(p, k);
    RequestTwice(size);
    if n > have {
      if !bs[k + 1].used && Grows(have, Payload(bs, k + 1), n) {
        ResizeLive(p, k, n);
        assert Replaced(p, k, Resize(p, k, n), a + HEADER, n);
      } else {
        MoveLive(p, k, n);
      }
    } else if n + HEADER + MINIALLOC < have {
      ResizeLive(p, k, n);
      assert Replaced(p, k, Resize(p, k, n), a + HEADER, n);
    } else {
      LiveAt(bs, k);
      assert Replaced(p, k, p, a + HEADER, have);
    }
  }

  /**
   What realloc gives back and takes, exactly.  A block that need not grow stays where it is: if more than a header and
   the least block would be left over, it gets the length asked for and the rest is free, otherwise it keeps its own.
   A block that grows in place takes just the difference.
   */
  lemma ReallocInPlace(p: Pool, k: nat, size: int)
    requires Inv(p) && Owned(p, k) && 0 <= size < WORD && !GuardWraps(p, k, Request(size))
    ensures var r, n, have := Realloc(p, k, size), Request(size), Payload(p.blocks, k);
            && (n <= have <= n + HEADER + MINIALLOC ==> r == Outcome(p, p.blocks[k].addr + HEADER))
            && (n + HEADER + MINIALLOC < have ==>
                  && r.ptr == p.blocks[k].addr + HEADER && Replaced(p, k, r.pool, r.ptr, n)
                  && FreeBytes(r.pool.blocks) ==
                     FreeBytes(p.blocks) + have - n - if p.blocks[k + 1].used then HEADER else 0)
            && (n > have && !p.blocks[k + 1].used && have + Payload(p.blocks, k + 1) > n + MINIALLOC ==>
                  && r.ptr == p.blocks[k].addr + HEADER && Replaced(p, k, r.pool, r.ptr, n)
                  && FreeBytes(r.pool.blocks) == FreeBytes(p.blocks) - (n - have))
  {
    hide Alloc, Move, Live, Request, Tiles, Merged, FreeListed, Resize, FreeBytes;
    var bs, n := p.blocks, Request(size);
    RequestRange(size);
    if !bs[k + 1].used {
      GrowsExactly(Payload(bs, k), Payload(bs, k + 1), n);
    }
    ResizeBytes(p, k, n);
    ResizeLive(p, k, n);
  }

  /**
   Realloc succeeds if and only if the block need not grow, the next one is free and has room to spare, or an
   allocation elsewhere would succeed.
   */
  lemma ReallocSucceeds(p: Pool, k: nat, size: int)
    requires Inv(p) && Owned(p, k) && 0 <= size < WORD && !GuardWraps(p, k, Request(size))
    ensures var bs, n := p.blocks, Request(size);
            Realloc(p, k, size).ptr != NULL <==>
            || n <= Payload(bs, k)
            || (!bs[k + 1].used && k + 2 < |bs| && Payload(bs, k) + Payload(bs, k + 1) > n + MINIALLOC)
            || (n < FreeBytes(bs) && HasFit(p, n))
  {
    hide Alloc, Request, Tiles, Merged, FreeListed, Resize, HasFit;
    var bs, n := p.blocks, Request(size);
    NotNull(p, k);
    RequestTwice(size);
    RequestRange(size);
    AllocSucceeds(p, n);
    if Alloc(p, n).ptr != NULL {
      MoveIs(p, k, n);
    }
    if !bs[k + 1].used {
      GrowsExactly(Payload(bs, k), Payload(bs, k + 1), n);
    }
  }

  lemma MoveLive(p: Pool, k: nat, n: int)
    requires Inv(p) && Owned(p, k) && Request(n) == n
    ensures Move(p, k, n).ptr == NULL ==> Move(p, k, n).pool == p
    ensures Move(p, k, n).ptr != NULL ==>
              exists got :: got >= n && Replaced(p, k, Move(p, k, n).pool, Move(p, k, n).ptr, got)
  {
    AllocSucceeds(p, n);
    if Alloc(p, n).ptr != NULL {
      MoveGrants(p, k, n);
    }
  }

  lemma MoveGrants(p: Pool, k: nat, n: int)
    requires Inv(p) && Owned(p, k) && Request(n) == n && Alloc(p, n).ptr != NULL
    ensures exists got :: got >= n && Replaced(p, k, Move(p, k, n).pool, Move(p, k, n).ptr, got)
  {
    hide Alloc, Free, Move, Live, Inv, Grant, Request, IndexOf;
    AllocLive(p, n);
    AllocInv(p, n);
    MoveIs(p, k, n);
    MoveReplaces(p, k, Alloc(p, n).pool, Alloc(p, n).ptr, Grant(p, n));
    assert Replaced(p, k, Move(p, k, n).pool, Move(p, k, n).ptr, Grant(p, n));
  }

  lemma MoveReplaces(p: Pool, k: nat, q: Pool, ptr: int, got: int)
    requires Inv(p) && Owned(p, k) && Inv(q) && ptr - HEADER in p.free
    requires Live(q.blocks) == Live(p.blocks) + {(ptr - HEADER, got)}
    ensures Owned(q, IndexOf(q.blocks, p.blocks[k].addr))
    ensures Replaced(p, k, Free(q, IndexOf(q.blocks, p.blocks[k].addr)), ptr, got)
  {
    LiveAt(p.blocks, k);
    LiveOwned(q, p.blocks[k].addr, Payload(p.blocks, k));
    FreeByPosition(p, k);
    FreeLive(q, IndexOf(q.blocks, p.blocks[k].addr));
  }

  /** The payloads of two allocations do not overlap and lie inside the pool. */
  lemma LiveDisjoint(p: Pool, x: (int, int), y: (int, int))
    requires Inv(p) && x in Live(p.blocks) && y in Live(p.blocks) && x != y
    ensures x.0 + HEADER + x.1 <= y.0 || y.0 + HEADER + y.1 <= x.0
    ensures p.blocks[0].addr <= x.0 && x.0 + HEADER + x.1 <= p.blocks[|p.blocks| - 1].addr
  {
    var bs := p.blocks;
    var i := LivePosition(bs, x);
    var j := LivePosition(bs, y);
    assert i + 1 < j ==> bs[i + 1].addr + HEADER <= bs[j].addr;
    assert j + 1 < i ==> bs[j + 1].addr + HEADER <= bs[i].addr;
    assert i > 0 ==> bs[0].addr + HEADER <= bs[i].addr;
    assert i + 1 < |bs| - 1 ==> bs[i + 1].addr + HEADER <= bs[|bs| - 1].addr;
  }

  // ---------------------------------------------------------------- the bytes of a client

  /** No payload differs: this is all that the writes to headers may do. */
  ghost predicate SamePayloads(live: set<(int, int)>, m: Bytes, m': Bytes) {
    forall x :: x in live ==> SameBytes(m, m', x.0 + HEADER, x.1)
  }

  /** How many bytes the copying path copies. */
  function CopyCount(p: Pool, k: nat, n: int): int
    requires k + 1 < |p.blocks|
  {
    if Payload(p.blocks, k) < n then Payload(p.blocks, k) else n
  }

  /**
   The copying path of realloc, with the memory m before it, m1 after the allocation and m2 at the end: the client
   finds the first bytes of the old block, as many as both blocks hold, and nobody else's bytes have changed.
   */
  lemma MoveCopies(p: Pool, k: nat, n: int, m: Bytes, m1: Bytes, m2: Bytes)
    requires Inv(p) && Owned(p, k) && Request(n) == n && Alloc(p, n).ptr != NULL
    requires SamePayloads(Live(p.blocks), m, m1)
    requires var c := Copied(m1, p.blocks[k].addr + HEADER, Alloc(p, n).ptr, CopyCount(p, k, n));
             SamePayloads(Live(Move(p, k, n).pool.blocks), c, m2)
    ensures CopyOf(m, p.blocks[k].addr + HEADER, m2, Move(p, k, n).ptr, CopyCount(p, k, n))
    ensures SamePayloads(Live(p.blocks) - {(p.blocks[k].addr, Payload(p.blocks, k))}, m, m2)
  {
    hide Alloc, Move, Live, Inv, Grant, Request, Free, Copied, SameBytes, CopyOf, IndexOf;
    var a, have, r, count := p.blocks[k].addr, Payload(p.blocks, k), Alloc(p, n), CopyCount(p, k, n);
    AllocLive(p, n);
    AllocInv(p, n);
    LiveAt(p.blocks, k);
    var got := Grant(p, n);
    MoveReplaces(p, k, r.pool, r.ptr, got);
    MoveIs(p, k, n);
    var c, after := Copied(m1, a + HEADER, r.ptr, count), Live(Move(p, k, n).pool.blocks);
    assert (r.ptr - HEADER, got) in after;
    FewerBytes(m, m1, a + HEADER, have, count);
    FewerBytes(c, m2, r.ptr, got, count);
    CopyArrives(m, m1, m2, a + HEADER, r.ptr, count);
    forall x | x in Live(p.blocks) - {(a, have)} ensures SameBytes(m, m2, x.0 + HEADER, x.1) {
      assert x in after;
      NewIsApart(p, n, x);
      CopySpares(m, m1, m2, a + HEADER, r.ptr, count, x.0 + HEADER, x.1);
    }
  }

  lemma MoveIs(p: Pool, k: nat, n: int)
    requires Inv(p) && Owned(p, k) && Alloc(p, n).ptr != NULL
    ensures var r := Alloc(p, n);
            var k' := IndexOf(r.pool.blocks, p.blocks[k].addr);
            Owned(r.pool, k') && Move(p, k, n) == Outcome(Free(r.pool, k'), r.ptr)
  {
    AllocKeepsOwned(p, n, k);
  }

  /** A new allocation does not overlap one that was there. */
  lemma NewIsApart(p: Pool, n: int, x: (int, int))
    requires Inv(p) && Alloc(p, n).ptr != NULL && x in Live(p.blocks)
    ensures var r, got := Alloc(p, n), Grant(p, n); x.0 + HEADER + x.1 <= r.ptr || r.ptr + got <= x.0
  {
    hide Alloc, Live, Grant, Request, Tiles, Merged;
    var r, got := Alloc(p, n), Grant(p, n);
    AllocLive(p, n);
    AllocInv(p, n);
    var j := LivePosition(p.blocks, x);
    FreeByPosition(p, j);
    LiveDisjoint(r.pool, x, (r.ptr - HEADER, got));
  }

  // ---------------------------------------------------------------- whole runs

  /** Calls a client can make: addresses are those of block headers. */
  datatype Call = CallAlloc(size: int) | CallFree(addr: int) | CallRealloc(addr: int, size: int)

  /** The conditions that the source asserts about its arguments, and the guard of realloc does not wrap. */
  predicate Legal(p: Pool, c: Call) {
    match c
    case CallAlloc(size) => 0 <= size < WORD
    case CallFree(a) => Owned(p, IndexOf(p.blocks, a))
    case CallRealloc(a, size) =>
      && Owned(p, IndexOf(p.blocks, a)) && 0 < size < WORD
      && !GuardWraps(p, IndexOf(p.blocks, a), Request(size))
  }

  ghost function Step(p: Pool, c: Call): Pool
    requires Inv(p) && Legal(p, c)
  {
    match c
    case CallAlloc(size) => Alloc(p, size).pool
    case CallFree(a) => Free(p, IndexOf(p.blocks, a))
    case CallRealloc(a, size) => Realloc(p, IndexOf(p.blocks, a), size).pool
  }

  /** q is reached from p by legal calls. */
  ghost predicate Reaches(p: Pool, calls: seq<Call>, q: Pool)
    decreases |calls|
  {
    if calls == [] then p == q
    else Inv(p) && Legal(p, calls[0]) && Reaches(Step(p, calls[0]), calls[1..], q)
  }

  lemma StepInv(p: Pool, c: Call)
    requires Inv(p) && Legal(p, c)
    ensures Inv(Step(p, c)) && SameExtent(p, Step(p, c))
  {
    match c
    case CallAlloc(size) => AllocInv(p, size);
    case CallFree(a) => FreeInv(p, IndexOf(p.blocks, a));
    case CallRealloc(a, size) => ReallocInv(p, IndexOf(p.blocks, a), size);
  }

  /**
   After any run of legal calls on a fresh pool: the blocks tile the pool, no two free blocks are
   neighbours, the ring lists the free blocks once each, and no byte is lost or gained.
   */
  lemma {:induction false} RunsKeepInv(p: Pool, calls: seq<Call>, q: Pool)
    requires Inv(p) && Reaches(p, calls, q)
    ensures Inv(q) && SameExtent(p, q)
    ensures FreeBytes(q.blocks) + LiveBytes(q.blocks) + HEADER * |q.blocks| ==
            p.blocks[|p.blocks| - 1].addr + HEADER - p.blocks[0].addr
    decreases |calls|
  {
    if calls == [] {
      Conservation(p.blocks);
    } else {
      StepInv(p, calls[0]);
      RunsKeepInv(Step(p, calls[0]), calls[1..], q);
    }
  }

  lemma InitInv(lo: int, hi: int)
    requires NULL < lo && lo + HEADER <= hi
    ensures Inv(InitPool(lo, hi)) && FreeBytes(InitPool(lo, hi).blocks) == hi - lo - HEADER
  {
    var bs := InitPool(lo, hi).blocks;
    FreeAddrs2(bs[0], bs[1]);
    FreeAddrs1(bs[0]);
    FreeAddrs1(bs[1]);
    FreeBytes2(bs[0], bs[1]);
  }
}
