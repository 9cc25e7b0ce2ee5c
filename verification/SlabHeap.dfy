/**
 The slab allocator as src/slab.c runs it: zones, lists and page descriptors
 are updated in place, on top of the page allocator.

 Every method is proved against SlabSpec.
 */
module SlabHeap {

  import opened Division
  import opened IpcList
  import opened ZoneIndex
  import opened SlabSpec
  import PageList
  import P = PagesSpec
  import Zones

  class Heap {
    const cnt: nat                 // zone_page_cnt
    const pages: PageList.Pages
    var zones: map<nat, Zones.Zone>
    var parked: seq<nat>           // zone_free
    var lists: seq<seq<nat>>       // zone_array
    var usage: map<int, Usage>     // memusage
    ghost var large: map<nat, int>
    ghost var own: map<int, nat>

    ghost function S(): Slab
      reads this, pages
    {
      Slab(cnt, pages.runs, zones, parked, lists, usage, large, own)
    }

    ghost predicate Valid(base: int, top: int)
      reads this, pages
    {
      pages.Valid(base) && Inv(S(), base, top)
    }

    /** rt_system_heap_init of n pages from page `first` on. */
    constructor (first: int, n: int)
      requires 0 < first && n > 0
      ensures Valid(first + Descriptors(n), first + n) && fresh(pages) && S() == InitSlab(first, n)
    {
      var zoneSize := 32 * 1024;
      while zoneSize < 128 * 1024 && 2 * zoneSize < n * PAGE / 1024
        invariant zoneSize == 32 * 1024 || zoneSize == 64 * 1024 || zoneSize == 128 * 1024
        invariant zoneSize > 32 * 1024 ==> zoneSize < n * PAGE / 1024
        decreases 128 * 1024 - zoneSize
      {
        zoneSize := 2 * zoneSize;
      }
      cnt := zoneSize / PAGE;
      var list := new PageList.Pages(first, n);
      InitRuns(first, n);
      InitInv(first, n);
      var memusage := list.Alloc((4 * n + PAGE - 1) / PAGE, first);
      pages := list;
      zones, parked, lists, usage := map[], [], seq(NZONES, i => []), map[];
      large, own := map[], map[];
    }

    /** The loop that describes the pages of a zone, or clears their descriptions. */
    method Describe(z: nat, small: bool)
      modifies this`usage
      ensures usage == if small then ZoneUsage(old(usage), z, cnt) else FreeUsage(old(usage), z, cnt)
    {
      ghost var before := usage;
      for off := 0 to cnt
        invariant forall p :: p in usage <==> p in before || P.Within(p, z, off)
        invariant forall p :: p in usage ==>
                    usage[p] == if P.Within(p, z, off) then (if small then Small(p - z) else FreePage) else before[p]
      {
        usage := usage[z + off := if small then Small(off) else FreePage];
      }
    }

    /** An allocation of whole pages. */
    method MallocLarge(size: nat, ghost base: int, ghost top: int) returns (ptr: int)
      requires Valid(base, top) && size < 0x1_0000_0000
      modifies this, pages
      ensures Valid(base, top) && Outcome(S(), ptr) == SlabSpec.MallocLarge(old(S()), size)
    {
      hide Inv, P.Alloc, P.AllocAt, Taken, P.Ok, PageList.Linked;
      SlabSpec.MallocLargeInv(S(), size, base, top);
      PagesNonNegative(size);
      var n: nat := PagesFor(size);
      AllocRange(pages.runs, n, base);
      var chunk := pages.Alloc(n, base);
      if chunk == P.NULL {
        return NULL;
      }
      usage := usage[chunk := Large(n)];
      large, own := large[chunk := n], Taken(own, chunk, n);
      ptr := chunk * PAGE;
    }

    /** A chunk of the first zone in a list. */
    method TakeListed(zi: nat, ghost base: int, ghost top: int) returns (ptr: int)
      requires Valid(base, top) && zi < NZONES && |lists| == NZONES && lists[zi] != []
      requires lists[zi][0] in zones
      requires zones[lists[zi][0]].uindex + 1 == zones[lists[zi][0]].nmax ==> zones[lists[zi][0]].free != []
      modifies this
      ensures Valid(base, top) && Outcome(S(), ptr) == MallocListed(old(S()), zi)
    {
      hide Inv, P.Ok, PageList.Linked;
      MallocListedInv(S(), zi, base, top);
      var p := lists[zi][0];
      var z := zones[p];
      z := z.(nfree := z.nfree - 1);
      if z.nfree == 0 {
        lists := lists[zi := lists[zi][1..]];
      }
      var i;
      if z.uindex + 1 != z.nmax {
        z := z.(uindex := z.uindex + 1);
        i := z.uindex;
      } else {
        i := z.free[0];
        z := z.(free := z.free[1..]);
      }
      zones := zones[p := z];
      ptr := p * PAGE + z.off + i * z.chunk;
    }

    /** A chunk of a new zone, parked or from the page allocator. */
    method TakeNew(c: Class, ghost base: int, ghost top: int) returns (ptr: int)
      requires Valid(base, top) && 0 <= c.index < NZONES == |lists| && c.chunk == ChunkOf(c.index)
      requires 4 * c.chunk <= ZoneSize(S())
      requires c.chunk > 0 && Zones.Offset(c.chunk) <= ZoneSize(S()) && 8 <= cnt
      modifies this, pages
      ensures Valid(base, top) && Outcome(S(), ptr) == MallocNew(old(S()), c)
    {
      hide Inv, P.Alloc, P.AllocAt, Taken, P.Ok, PageList.Linked, ZoneUsage, Zones.Offset, ChunkOf, Zones.NewZone;
      var p: int;
      if parked != [] {
        MallocParkedInv(S(), c, base, top);
        p := parked[0];
        parked := parked[1..];
      } else {
        if P.AllocAt(pages.runs, cnt) >= 0 {
          MallocFreshInv(S(), c, base, top);
        }
        AllocRange(pages.runs, cnt, base);
        p := pages.Alloc(cnt, base);
        if p == P.NULL {
          return NULL;
        }
        Describe(p, true);
        own := Taken(own, p, cnt);
      }
      var z := Zones.NewZone(c, cnt * PAGE);
      zones := zones[p := z];
      lists := lists[c.index := [p] + lists[c.index]];
      ptr := Zones.Addr(p, z, 0);
    }

    /** rt_malloc */
    method Malloc(size: nat, ghost base: int, ghost top: int) returns (ptr: int)
      requires Valid(base, top) && size < 0x1_0000_0000
      modifies this, pages
      ensures Valid(base, top) && Outcome(S(), ptr) == SlabSpec.Malloc(old(S()), size, base, top)
    {
      hide Inv, P.Ok, PageList.Linked, SlabSpec.MallocLarge, MallocListed, MallocNew, ClassOf, Zones.Offset, ChunkOf;
      if size == 0 {
        return NULL;
      }
      var limit := if cnt * PAGE / 4 > LIMIT then LIMIT else cnt * PAGE / 4;
      if size >= limit {
        ptr := MallocLarge(size, base, top);
        return;
      }
      SmallFacts(S(), size, base, top);
      var c := ClassOf(size);
      Zones.NewOk(c, ZoneSize(S()));
      if lists[c.index] != [] {
        MallocListedInv(S(), c.index, base, top);
        ptr := TakeListed(c.index, base, top);
      } else {
        ptr := TakeNew(c, base, top);
      }
    }

    /** rt_free of a pointer that a client holds. */
    method Free(ptr: nat, ghost b: Block, ghost base: int, ghost top: int)
      requires Valid(base, top) && Holds(S(), b) && ptr == Start(S(), b)
      modifies this, pages
      ensures Valid(base, top) && S() == SlabSpec.Free(old(S()), ptr)
    {
      hide Inv, P.Ok, PageList.Linked, SlabSpec.FreeChunk, SlabSpec.FreeLarge, LiveChunk, Start, Located;
      Locates(S(), b, base, top);
      SlabSpec.FreeInv(S(), b, base, top);
      LocatedIs(S(), ptr);
      var page := ptr / PAGE;
      if b.Pages? {
        LargeUsage(S(), b.a, base, top);
      } else {
        HeldZone(S(), b.p, b.i, base, top);
      }
      if usage[page].Large? {
        FreeLarge(page, base, top);
      } else {
        var p := page - usage[page].off;
        var i := Quotient(ptr - p * PAGE - zones[p].off, zones[p].chunk);
        FreeChunk(p, i, base, top);
      }
    }

    /** The release of whole pages. */
    method FreeLarge(a: nat, ghost base: int, ghost top: int)
      requires Valid(base, top) && a in large && a in usage && usage[a] == Large(large[a])
      modifies this, pages
      ensures Valid(base, top) && S() == SlabSpec.FreeLarge(old(S()), a, old(large)[a])
    {
      hide Inv, P.Ok, PageList.Linked, P.Free, Returned;
      FreeLargeInv(S(), a, base, top);
      LargeNotFree(S(), a, base, top);
      var n := usage[a].count;
      usage := usage[a := Large(0)];
      large, own := large - {a}, Returned(own, a, n);
      pages.Free(a, n, base);
    }

    /** The release of a chunk. */
    method FreeChunk(p: nat, i: nat, ghost base: int, ghost top: int)
      requires Valid(base, top) && LiveChunk(S(), p, i) && 0 <= zones[p].index < |lists|
      modifies this, pages
      ensures Valid(base, top) && S() == SlabSpec.FreeChunk(old(S()), p, i)
    {
      hide Inv, P.Ok, PageList.Linked, LiveChunk, Unpark, Park;
      InUse(S(), p, i);
      PutBackInv(S(), p, i, base, top);
      var z := zones[p];
      z := z.(free := [i] + z.free);
      if z.nfree == 0 {
        lists := lists[z.index := [p] + lists[z.index]];
      }
      z := z.(nfree := z.nfree + 1);
      zones := zones[p := z];
      assert S() == PutBack(old(S()), p, i);
      if z.nfree == z.nmax && lists[z.index] != [p] {
        ParkZone(p, base, top);
        if |parked| > THRESH {
          ReleaseZone(base, top);
        }
      }
    }

    /** Zone p leaves its list for the parked ones. */
    method ParkZone(p: nat, ghost base: int, ghost top: int)
      requires Valid(base, top) && p in zones && 0 <= zones[p].index < |lists| && zones[p].nfree == zones[p].nmax
      modifies this
      ensures Valid(base, top) && S() == Park(old(S()), p) && parked != []
    {
      hide Inv, P.Ok, PageList.Linked;
      ParkInv(S(), p, base, top);
      InItsList(S(), p, base, top);
      var zi := zones[p].index;
      var list := WithoutZone(lists[zi], p);
      lists := lists[zi := list];
      zones := zones - {p};
      parked := [p] + parked;
    }

    /** The last parked zone goes back to the page allocator. */
    method ReleaseZone(ghost base: int, ghost top: int)
      requires Valid(base, top) && parked != []
      modifies this, pages
      ensures Valid(base, top) && S() == Unpark(old(S()))
    {
      hide Inv, P.Ok, PageList.Linked, P.Free, Returned, FreeUsage;
      UnparkInv(S(), base, top);
      ParkedNotFree(S(), parked[0], base, top);
      var z := parked[0];
      parked := parked[1..];
      Describe(z, false);
      own := Returned(own, z, cnt);
      pages.Free(z, cnt, base);
    }

    /** rt_realloc of a block in use. */
    method Realloc(ptr: nat, request: nat, ghost b: Block, ghost base: int, ghost top: int) returns (nptr: int)
      requires Valid(base, top) && Holds(S(), b) && ptr == Start(S(), b) && request < 0x1_0000_0000
      modifies this, pages
      ensures Valid(base, top) && Outcome(S(), nptr) == SlabSpec.Realloc(old(S()), b, request, base, top)
    {
      hide Inv, P.Ok, PageList.Linked, LiveChunk, Start, Length, Located, ClassOf, SlabSpec.Malloc, SlabSpec.Free;
      if request == 0 {
        Free(ptr, b, base, top);
        return NULL;
      }
      ghost var s := S();
      Locates(s, b, base, top);
      LocatedIs(s, ptr);
      var page, size := ptr / PAGE, request;
      if b.Pages? {
        LargeUsage(s, b.a, base, top);
      }
      WantedRange(b, request);
      if !usage[page].Large? {
        ChunkLength(s, b);
        var p := page - usage[page].off;
        if request < LIMIT {
          ClassFits(request);
          size := ClassOf(request).chunk;
        }
        if zones[p].chunk == size {
          return ptr;
        }
      }
      ghost var nb := MallocInv(s, size, base, top);
      nptr := Malloc(size, base, top);
      if nptr != NULL {
        MallocPlaces(s, size, base, top, b);
        Free(ptr, b, base, top);
      }
    }
  }

  lemma ChunkLength(s: Slab, b: Block)
    requires b.Chunk? && b.p in s.zones
    ensures Length(s, b) == s.zones[b.p].chunk
  {
  }

  /** The loop that looks for the pointer to zone p and makes it point behind p. */
  method WithoutZone(list: seq<nat>, p: nat) returns (r: seq<nat>)
    requires p in list
    ensures r == Removed(list, p)
  {
    var k := 0;
    while list[k] != p
      invariant k < |list| && forall j :: 0 <= j < k ==> list[j] != p
      invariant p in list[k..]
      decreases |list| - k
    {
      assert list[k..] == [list[k]] + list[k + 1..];
      k := k + 1;
    }
    RemovedAt(list, p, k);
    r := list[..k] + list[k + 1..];
  }

  /** What the descriptor of a page says of a pointer into it. */
  lemma LocatedIs(s: Slab, ptr: nat)
    ensures Located(s, ptr).Chunk? ==>
              var page := ptr / PAGE;
              && page in s.usage && s.usage[page].Small?
              && var p := page - s.usage[page].off;
                 && p in s.zones && s.zones[p].chunk > 0 && ptr - p * PAGE - s.zones[p].off >= 0
                 && Located(s, ptr) == Chunk(p, Quotient(ptr - p * PAGE - s.zones[p].off, s.zones[p].chunk))
    ensures Located(s, ptr).Pages? ==> Located(s, ptr).a == ptr / PAGE
  {
  }

  lemma HeldZone(s: Slab, p: nat, i: nat, base: int, top: int)
    requires Inv(s, base, top) && LiveChunk(s, p, i)
    ensures p in s.zones && 0 <= s.zones[p].index < |s.lists|
  {
  }

  lemma InUse(s: Slab, p: nat, i: nat)
    requires LiveChunk(s, p, i)
    ensures p in s.zones
  {
  }

  lemma InItsList(s: Slab, p: nat, base: int, top: int)
    requires Inv(s, base, top) && p in s.zones && s.zones[p].nfree == s.zones[p].nmax
    ensures 0 <= s.zones[p].index < |s.lists| && p in s.lists[s.zones[p].index]
  {
  }

  lemma LargeNotFree(s: Slab, a: nat, base: int, top: int)
    requires Inv(s, base, top) && a in s.large
    ensures s.large[a] > 0 && P.NoneFree(s.runs, a, s.large[a]) && a >= base
  {
    hide P.Has, P.Ok;
    assert LargePages(s.usage, s.own, a, s.large[a]) && P.Within(a, a, s.large[a]);
  }

  lemma ParkedNotFree(s: Slab, p: nat, base: int, top: int)
    requires Inv(s, base, top) && p in s.parked
    ensures P.NoneFree(s.runs, p, s.cnt) && p >= base && s.cnt > 0
  {
    hide P.Has, P.Ok;
    assert IsZone(s, p) && ZonePages(s.usage, s.own, p, s.cnt) && P.Within(p, p, s.cnt);
  }

  lemma PagesNonNegative(size: nat)
    ensures PagesFor(size) >= 0
  {
  }

  /** A page that the page allocator returns is not negative. */
  lemma AllocRange(runs: seq<P.Run>, n: nat, base: int)
    requires P.Ok(runs, base) && 0 <= base
    ensures n > 0 ==> P.AllocAt(runs, n) == P.NULL || P.AllocAt(runs, n) >= base
    ensures n > 0 && P.AllocAt(runs, n) == P.NULL ==> P.Alloc(runs, n) == runs
  {
  }
}
