/**
 One zone of the slab allocator (src/slab.c): an array of equal chunks behind a
 header.  Chunks up to `uindex` have been handed out at least once; those that
 came back are chained in `free`.
 */
module Zones {

  import opened Division
  import opened IpcList
  import opened ZoneIndex

  const PAGE: int := 4096   // RT_MM_PAGE_SIZE
  const ZHEADER: int := 36  // sizeof(slab_zone)

  datatype Zone = Zone(index: int, chunk: nat, off: nat, nmax: nat, uindex: nat, nfree: int, free: seq<nat>)

  // ---------------------------------------------------------------- geometry

  /** (size | (size - 1)) + 1 == size << 1 */
  predicate PowerOfTwo(n: nat) {
    n == 1 || (n > 1 && n % 2 == 0 && PowerOfTwo(n / 2))
  }

  /** The least multiple of k that is at least n. */
  function Multiple(n: nat, k: nat): (m: nat)
    requires k > 0 && n > 0
    ensures n <= m < n + k
    decreases n
  {
    if n <= k then k else k + Multiple(n - k, k)
  }

  /** Where the chunks begin: at a multiple of a size that is a power of two, else of eight. */
  function Offset(chunk: nat): nat
    requires chunk > 0
  {
    if PowerOfTwo(chunk) then Multiple(ZHEADER, chunk) else Multiple(ZHEADER, 8)
  }

  /** A new zone of this many bytes, whose chunk 0 is handed out at once. */
  function NewZone(c: Class, size: nat): Zone
    requires c.chunk > 0 && Offset(c.chunk) <= size
  {
    var nmax := Quotient(size - Offset(c.chunk), c.chunk);
    Zone(c.index, c.chunk, Offset(c.chunk), nmax, 0, nmax - 1, [])
  }

  // ---------------------------------------------------------------- chunks

  /** Chunk i is in the hands of a client. */
  predicate Live(z: Zone, i: nat) {
    i <= z.uindex && i !in z.free
  }

  /** The free chunks are counted right: those never used, and those in the list. */
  ghost predicate Counted(z: Zone) {
    && z.uindex < z.nmax && Unique(z.free) && (forall i :: i in z.free ==> i <= z.uindex)
    && z.nfree == z.nmax - 1 - z.uindex + |z.free|
  }

  /** The chunks lie behind the header and inside the zone. */
  ghost predicate Inside(z: Zone, size: nat) {
    && 0 <= z.index < NZONES && z.chunk == ChunkOf(z.index) && z.chunk > 0
    && z.off == Offset(z.chunk) && ZHEADER <= z.off && z.off + z.nmax * z.chunk <= size && z.nmax >= 2
  }

  /** The chunk that rt_malloc takes next. */
  function NextChunk(z: Zone): nat
    requires z.uindex + 1 == z.nmax ==> z.free != []
  {
    if z.uindex + 1 != z.nmax then z.uindex + 1 else z.free[0]
  }

  function TakeChunk(z: Zone): Zone
    requires z.uindex + 1 == z.nmax ==> z.free != []
  {
    if z.uindex + 1 != z.nmax then z.(nfree := z.nfree - 1, uindex := z.uindex + 1)
    else z.(nfree := z.nfree - 1, free := z.free[1..])
  }

  function PutChunk(z: Zone, i: nat): Zone {
    z.(nfree := z.nfree + 1, free := [i] + z.free)
  }

  /** Taking a chunk gives one that nobody has. */
  lemma TakeOk(z: Zone)
    requires Counted(z) && z.nfree > 0
    ensures z.uindex + 1 == z.nmax ==> z.free != []
    ensures Counted(TakeChunk(z)) && NextChunk(z) < z.nmax && !Live(z, NextChunk(z))
    ensures forall j: nat :: Live(TakeChunk(z), j) <==> Live(z, j) || j == NextChunk(z)
  {
    if z.uindex + 1 == z.nmax {
      TailUnique(z.free);
    }
  }

  /** Releasing a chunk takes it, and no other, from its client. */
  lemma PutOk(z: Zone, i: nat)
    requires Counted(z) && Live(z, i)
    ensures Counted(PutChunk(z, i)) && 0 < PutChunk(z, i).nfree <= z.nmax
    ensures forall j: nat :: Live(PutChunk(z, i), j) <==> Live(z, j) && j != i
  {
    var z' := PutChunk(z, i);
    assert z'.free == [i] + z.free;
    NotMore(z'.free, z.uindex + 1);
  }

  lemma {:induction false} NotMore(list: seq<nat>, n: nat)
    requires Unique(list) && forall x :: x in list ==> x < n
    ensures |list| <= n
    decreases n
  {
    if n == 0 {
      NoMembers(list);
    } else {
      RemovedMembers(list, n - 1);
      NotMore(Removed(list, n - 1), n - 1);
    }
  }

  lemma {:induction false} AllThere(list: seq<nat>, n: nat)
    requires Unique(list) && (forall x :: x in list ==> x < n) && |list| == n
    ensures forall x: nat :: x < n ==> x in list
    decreases n
  {
    if n > 0 {
      RemovedMembers(list, n - 1);
      if n - 1 !in list {
        NotMore(list, n - 1);
      } else {
        AllThere(Removed(list, n - 1), n - 1);
      }
    }
  }

  /** A zone counts all its chunks as free exactly if no client has one. */
  lemma AllFree(z: Zone)
    requires Counted(z)
    ensures z.nfree == z.nmax <==> forall i: nat :: !Live(z, i)
  {
    if z.nfree == z.nmax {
      AllThere(z.free, z.uindex + 1);
    } else {
      NotMore(z.free, z.uindex + 1);
      if forall i: nat :: i <= z.uindex ==> i in z.free {
        AllIn(z.free, z.uindex + 1);
      } else {
        var i: nat :| i <= z.uindex && i !in z.free;
        assert Live(z, i);
      }
    }
  }

  lemma {:induction false} AllIn(list: seq<nat>, n: nat)
    requires Unique(list) && forall x: nat :: x < n ==> x in list
    ensures |list| >= n
    decreases n
  {
    if n > 0 {
      RemovedMembers(list, n - 1);
      AllIn(Removed(list, n - 1), n - 1);
    }
  }

  lemma NewOk(c: Class, size: nat)
    requires 0 <= c.index < NZONES && c.chunk == ChunkOf(c.index) && 4 * c.chunk <= size && 1024 <= size
    ensures c.chunk > 0 && Offset(c.chunk) <= size
    ensures Inside(NewZone(c, size), size) && Counted(NewZone(c, size)) && NewZone(c, size).nfree > 0
    ensures forall j: nat :: Live(NewZone(c, size), j) <==> j == 0
    ensures var z := NewZone(c, size);
            && z.index == c.index && z.off + z.nmax * z.chunk + z.chunk > size
            && ZHEADER <= z.off < ZHEADER + if PowerOfTwo(c.chunk) then c.chunk else 8
  {
    hide Quotient;
    ChunkRange(c.index);
    OffsetRange(c.chunk);
    QuotientIs(size - Offset(c.chunk), c.chunk);
    var q := Quotient(size - Offset(c.chunk), c.chunk);
    assert q * c.chunk > 2 * c.chunk;
    SmallProduct(q, c.chunk);
  }

  lemma SmallProduct(q: nat, c: nat)
    requires q * c > 2 * c
    ensures q >= 3
  {
  }

  lemma ChunkRange(i: int)
    requires 0 <= i < NZONES
    ensures 8 <= ChunkOf(i) <= LIMIT && ChunkOf(i) % 8 == 0
  {
  }

  lemma OffsetRange(chunk: nat)
    requires chunk >= 8
    ensures ZHEADER <= Offset(chunk) && (Offset(chunk) <= chunk || Offset(chunk) < 72)
  {
    if chunk < ZHEADER {
      assert Multiple(ZHEADER, chunk) < ZHEADER + chunk;
    }
  }

  // ---------------------------------------------------------------- addresses

  /** The address of chunk i of the zone that begins at page p. */
  function Addr(p: nat, z: Zone, i: nat): nat {
    p * PAGE + z.off + i * z.chunk
  }

  /** Two chunks of a zone do not overlap, and both end inside it. */
  lemma ChunksApart(p: nat, z: Zone, size: nat, i: nat, j: nat)
    requires Inside(z, size) && i < j < z.nmax
    ensures p * PAGE + ZHEADER <= Addr(p, z, i) && Addr(p, z, i) + z.chunk <= Addr(p, z, j)
    ensures Addr(p, z, j) + z.chunk <= p * PAGE + size
  {
    hide ChunkOf;
    ProductGap(i, j, z.chunk);
    ProductGap(j, z.nmax, z.chunk);
    ProductNonNegative(i, z.chunk);
  }

  /** The page of a chunk's address lies in the zone. */
  lemma ChunkPage(p: nat, z: Zone, cnt: nat, i: nat)
    requires Inside(z, cnt * PAGE) && i < z.nmax
    ensures p <= Addr(p, z, i) / PAGE < p + cnt
  {
    ProductGap(i, z.nmax, z.chunk);
    ProductNonNegative(i, z.chunk);
    PageOf(p, z.off + i * z.chunk, cnt);
  }

  lemma PageOf(p: nat, x: nat, cnt: nat)
    requires x < cnt * PAGE
    ensures p <= (p * PAGE + x) / PAGE < p + cnt
  {
  }

  /** From the address and the zone, the number of the chunk comes back. */
  lemma ChunkBack(p: nat, z: Zone, i: nat)
    requires z.chunk > 0
    ensures Addr(p, z, i) - p * PAGE - z.off >= 0
    ensures Quotient(Addr(p, z, i) - p * PAGE - z.off, z.chunk) == i
  {
    ProductNonNegative(i, z.chunk);
    QuotientUnique(i * z.chunk, z.chunk, i, 0);
  }

  /** n divides m. */
  predicate Divides(n: nat, m: nat)
    requires n > 0
  {
    Remainder(m, n) == 0
  }

  /**
   A chunk whose size is a power of two is aligned to its size exactly if the
   zone is: the offset and the chunks before it are multiples of the size.
   */
  lemma ChunkAligned(p: nat, z: Zone, i: nat)
    requires z.chunk > 0 && PowerOfTwo(z.chunk) && z.off == Offset(z.chunk)
    ensures Divides(z.chunk, Addr(p, z, i)) <==> Divides(z.chunk, p * PAGE)
  {
    hide Remainder, PowerOfTwo, Multiple;
    MultipleIs(ZHEADER, z.chunk);
    var k: nat :| z.off == k * z.chunk;
    SameRemainder(p * PAGE, k, z.chunk);
    SameRemainder(p * PAGE + k * z.chunk, i, z.chunk);
  }

  lemma {:induction false} MultipleIs(n: nat, k: nat)
    requires k > 0 && n > 0
    ensures exists q: nat :: Multiple(n, k) == q * k
    decreases n
  {
    if n <= k {
      assert Multiple(n, k) == 1 * k;
    } else {
      MultipleIs(n - k, k);
      var q: nat :| Multiple(n - k, k) == q * k;
      assert (q + 1) * k == q * k + k;
    }
  }

  lemma SameRemainder(x: nat, k: nat, y: nat)
    requires y > 0
    ensures Remainder(x + k * y, y) == Remainder(x, y)
  {
    hide Quotient, Remainder;
    QuotientIs(x, y);
    var q, r := Quotient(x, y), Remainder(x, y);
    assert (q + k) * y == q * y + k * y;
    QuotientUnique(x + k * y, y, q + k, r);
  }

  /** Of two powers of two the smaller divides the larger. */
  lemma {:induction false} PowerDivides(x: nat, y: nat)
    requires PowerOfTwo(x) && PowerOfTwo(y) && x <= y
    ensures exists k: nat :: y == k * x
    decreases x
  {
    if x == 1 {
      assert y == y * x;
    } else {
      PowerDivides(x / 2, y / 2);
      var k: nat :| y / 2 == k * (x / 2);
      assert x == 2 * (x / 2) && y == 2 * (y / 2);
      assert k * x == k * (2 * (x / 2)) == 2 * (k * (x / 2));
    }
  }

  /** There is only one power of two between another one and its double. */
  lemma {:induction false} PowerBetween(n: nat, k: nat)
    requires PowerOfTwo(n) && PowerOfTwo(k) && k <= n < 2 * k
    ensures n == k
    decreases k
  {
    if k > 1 {
      PowerBetween(n / 2, k / 2);
    }
  }

  lemma SmallPowers()
    ensures PowerOfTwo(8) && PowerOfTwo(128) && PowerOfTwo(256) && PowerOfTwo(512) && PowerOfTwo(1024)
    ensures PowerOfTwo(2048) && PowerOfTwo(4096) && PowerOfTwo(8192)
  {
    assert PowerOfTwo(1) && PowerOfTwo(2) && PowerOfTwo(4) && PowerOfTwo(8) && PowerOfTwo(16) && PowerOfTwo(32);
    assert PowerOfTwo(64) && PowerOfTwo(128) && PowerOfTwo(256) && PowerOfTwo(512) && PowerOfTwo(1024);
  }

  /** A power of two from 8 on is its own chunk size; smaller ones get 8. */
  lemma PowerChunk(n: nat)
    requires PowerOfTwo(n) && n < LIMIT
    ensures ClassOf(n).chunk == if n < 8 then 8 else n
  {
    hide PowerOfTwo;
    SmallPowers();
    PowerPositive(n);
    if n >= 8 {
      PowerDivides(8, n);
      var k: nat :| n == k * 8;
      if 8192 <= n {
        PowerBetween(n, 8192);
      } else if 4096 <= n {
        PowerBetween(n, 4096);
      } else if 2048 <= n {
        PowerBetween(n, 2048);
      } else if 1024 <= n {
        PowerBetween(n, 1024);
      } else if 512 <= n {
        PowerBetween(n, 512);
      } else if 256 <= n {
        PowerBetween(n, 256);
      } else if 128 <= n {
        PowerBetween(n, 128);
      }
    }
  }

  lemma PowerPositive(n: nat)
    requires PowerOfTwo(n)
    ensures n > 0
  {
  }

  /** A power of two that is no longer than a page divides the address of every page. */
  lemma PageAligned(p: nat, size: nat)
    requires 0 < size <= PAGE && PowerOfTwo(size)
    ensures Divides(size, p * PAGE)
  {
    hide Quotient, Remainder, PowerOfTwo;
    SmallPowers();
    PowerDivides(size, PAGE);
    var k: nat :| PAGE == k * size;
    assert p * PAGE == p * (k * size) == (p * k) * size;
    QuotientUnique(p * PAGE, size, p * k, 0);
  }

  /** A longer one divides the address of page p exactly if its number of pages divides p. */
  lemma LongAligned(p: nat, size: nat)
    requires PowerOfTwo(size) && size > PAGE
    ensures size / PAGE > 0 && (Divides(size, p * PAGE) <==> Divides(size / PAGE, p))
  {
    hide Quotient, Remainder, PowerOfTwo;
    SmallPowers();
    PowerDivides(PAGE, size);
    var n: nat :| size == n * PAGE;
    QuotientIs(p, n);
    var q, r := Quotient(p, n), Remainder(p, n);
    assert p * PAGE == q * size + r * PAGE by { assert q * n * PAGE == q * size; }
    assert r * PAGE < size;
    QuotientUnique(p * PAGE, size, q, r * PAGE);
  }

  lemma DividesTrans(x: nat, y: nat, m: nat)
    requires x > 0 && y > 0 && (exists k: nat :: y == k * x) && Divides(y, m)
    ensures Divides(x, m)
  {
    hide Quotient, Remainder;
    var k: nat :| y == k * x;
    QuotientIs(m, y);
    var q := Quotient(m, y);
    assert m == q * (k * x) == (q * k) * x;
    QuotientUnique(m, x, q * k, 0);
  }

  /** Where a chunk for a power of two lies: always aligned up to a page, and beyond exactly if the zone is. */
  lemma PowerAddr(p: nat, z: Zone, size: nat, i: nat, zone: nat)
    requires Inside(z, zone) && PowerOfTwo(size) && size < LIMIT && z.chunk == ClassOf(size).chunk
    ensures size > 0 && (Divides(size, Addr(p, z, i)) <==> size <= PAGE || Divides(size / PAGE, p))
  {
    hide Remainder, PowerOfTwo, Addr, ClassOf, ChunkOf, Offset;
    SmallPowers();
    PowerPositive(size);
    PowerChunk(size);
    ChunkAligned(p, z, i);
    if size <= PAGE {
      PageAligned(p, z.chunk);
      if size < 8 {
        PowerDivides(size, 8);
      } else {
        assert size == 1 * size;
      }
      DividesTrans(size, z.chunk, Addr(p, z, i));
    } else {
      LongAligned(p, size);
    }
  }
}
