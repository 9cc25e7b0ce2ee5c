/**
 The slab allocator of src/slab.c on values: zones of equal chunks, the lists
 that find them, the descriptors of the pages, and the page allocator below.
 */
module SlabSpec {

  import opened Division
  import opened IpcList
  import opened MemoryBytes
  import opened ZoneIndex
  import Zones
  import P = PagesSpec

  const PAGE: int := Zones.PAGE
  const NULL: int := -1
  const THRESH: int := 2  // ZONE_RELEASE_THRESH

  /** struct memusage */
  datatype Usage = FreePage | Small(off: int) | Large(count: int)

  /**
   `cnt` is zone_page_cnt; a zone is known by its first page.  `zones` are the
   zones in use, `parked` is the list zone_free, `lists` is zone_array.
   For the proofs, `own` tells for each page that is not free the first page of its block.
   */
  datatype Slab = Slab(cnt: nat, runs: seq<P.Run>, zones: map<nat, Zones.Zone>, parked: seq<nat>,
                       lists: seq<seq<nat>>, usage: map<int, Usage>, large: map<nat, int>, own: map<int, nat>)

  datatype Outcome = Outcome(slab: Slab, ptr: int)

  function ZoneSize(s: Slab): nat {
    s.cnt * PAGE
  }

  /** zone_limit */
  function Limit(s: Slab): int {
    if ZoneSize(s) / 4 > LIMIT then LIMIT else ZoneSize(s) / 4
  }

  // ---------------------------------------------------------------- pages

  function Range(a: int, n: int): set<int> {
    set p: int | a <= p < a + n && P.Within(p, a, n)
  }

  /** The descriptors of a new zone. */
  function ZoneUsage(usage: map<int, Usage>, z: int, cnt: int): map<int, Usage> {
    map p | p in usage.Keys + Range(z, cnt) :: if P.Within(p, z, cnt) then Small(p - z) else usage[p]
  }

  function FreeUsage(usage: map<int, Usage>, z: int, cnt: int): map<int, Usage> {
    map p | p in usage.Keys + Range(z, cnt) :: if P.Within(p, z, cnt) then FreePage else usage[p]
  }

  function Taken(own: map<int, nat>, a: nat, n: int): map<int, nat> {
    map p | p in own.Keys + Range(a, n) :: if P.Within(p, a, n) then a else own[p]
  }

  function Returned(own: map<int, nat>, a: int, n: int): map<int, nat> {
    map p | p in own && !P.Within(p, a, n) :: own[p]
  }

  // ---------------------------------------------------------------- rt_malloc

  /** RT_ALIGN to a page, in machine words, and then the number of pages. */
  function PagesFor(size: int): int {
    (size + PAGE - 1) % 0x1_0000_0000 / PAGE
  }

  /** An allocation that goes straight to the page allocator. */
  function MallocLarge(s: Slab, size: int): Outcome {
    var n := PagesFor(size);
    var a := P.AllocAt(s.runs, n);
    if n <= 0 || a < 0 then Outcome(s, NULL)
    else
      Outcome(s.(runs := P.Alloc(s.runs, n), usage := s.usage[a := Large(n)], large := s.large[a := n],
                 own := Taken(s.own, a, n)),
              a * PAGE)
  }

  /** A chunk of the first zone of a list. */
  function MallocListed(s: Slab, i: nat): Outcome
    requires i < |s.lists| && s.lists[i] != [] && s.lists[i][0] in s.zones
    requires var z := s.zones[s.lists[i][0]]; z.uindex + 1 == z.nmax ==> z.free != []
  {
    var p := s.lists[i][0];
    var z := Zones.TakeChunk(s.zones[p]);
    Outcome(s.(zones := s.zones[p := z], lists := if z.nfree == 0 then s.lists[i := s.lists[i][1..]] else s.lists),
            Zones.Addr(p, z, Zones.NextChunk(s.zones[p])))
  }

  /** A new zone at page p for a class. */
  function AddZone(s: Slab, p: nat, c: Class): Outcome
    requires 0 <= c.index < |s.lists| && c.chunk > 0 && Zones.Offset(c.chunk) <= ZoneSize(s)
  {
    var z := Zones.NewZone(c, ZoneSize(s));
    Outcome(s.(zones := s.zones[p := z], lists := s.lists[c.index := [p] + s.lists[c.index]]), Zones.Addr(p, z, 0))
  }

  /** A zone that is not in use: a parked one, or one from the page allocator. */
  function MallocNew(s: Slab, c: Class): Outcome
    requires 0 <= c.index < |s.lists| && c.chunk > 0 && Zones.Offset(c.chunk) <= ZoneSize(s)
  {
    if s.parked != [] then AddZone(s.(parked := s.parked[1..]), s.parked[0], c)
    else
      var a := P.AllocAt(s.runs, s.cnt);
      if s.cnt == 0 || a < 0 then Outcome(s, NULL)
      else
        AddZone(s.(runs := P.Alloc(s.runs, s.cnt), usage := ZoneUsage(s.usage, a, s.cnt),
                   own := Taken(s.own, a, s.cnt)), a, c)
  }

  // ---------------------------------------------------------------- rt_free

  /** The release of a large block at page a. */
  function FreeLarge(s: Slab, a: nat, n: int): Slab {
    s.(runs := P.Free(s.runs, a, n), usage := s.usage[a := Large(0)], large := s.large - {a},
       own := Returned(s.own, a, n))
  }

  /** A chunk goes back into the list of its zone; a zone without any free one gets back into its list. */
  function PutBack(s: Slab, p: nat, i: nat): Slab
    requires p in s.zones && 0 <= s.zones[p].index < |s.lists|
  {
    var z := s.zones[p];
    s.(zones := s.zones[p := Zones.PutChunk(z, i)],
       lists := if z.nfree == 0 then s.lists[z.index := [p] + s.lists[z.index]] else s.lists)
  }

  /** A zone without clients that is not the only one of its list is parked. */
  function Park(s: Slab, p: nat): Slab
    requires p in s.zones && 0 <= s.zones[p].index < |s.lists|
  {
    var i := s.zones[p].index;
    s.(zones := s.zones - {p}, lists := s.lists[i := Removed(s.lists[i], p)], parked := [p] + s.parked)
  }

  /** With more than two parked zones the last one goes back to the page allocator. */
  function Unpark(s: Slab): Slab
    requires s.parked != []
  {
    var p := s.parked[0];
    s.(parked := s.parked[1..], usage := FreeUsage(s.usage, p, s.cnt), runs := P.Free(s.runs, p, s.cnt),
       own := Returned(s.own, p, s.cnt))
  }

  function FreeChunk(s: Slab, p: nat, i: nat): Slab
    requires p in s.zones && 0 <= s.zones[p].index < |s.lists|
  {
    var s1 := PutBack(s, p, i);
    if s1.zones[p].nfree == s1.zones[p].nmax && s1.lists[s1.zones[p].index] != [p] then
      var s2 := Park(s1, p);
      if |s2.parked| > THRESH then Unpark(s2) else s2
    else s1
  }

  // ---------------------------------------------------------------- the invariant

  /** Zone p of the list i can be allocated from. */
  ghost predicate ListOk(zones: map<nat, Zones.Zone>, list: seq<nat>, i: int) {
    Unique(list) && forall p :: p in list ==> p in zones && zones[p].index == i && zones[p].nfree > 0
  }

  ghost predicate ZoneOk(s: Slab, p: nat)
    requires p in s.zones
  {
    && Zones.Inside(s.zones[p], ZoneSize(s)) && Zones.Counted(s.zones[p])
    && (s.zones[p].nfree > 0 ==> s.zones[p].index < |s.lists| && p in s.lists[s.zones[p].index])
    && p !in s.parked
  }

  /** A zone is in the list of its index exactly if it has a free chunk. */
  ghost predicate ZonesOk(s: Slab) {
    && |s.lists| == NZONES && Unique(s.parked)
    && (forall i :: 0 <= i < NZONES ==> ListOk(s.zones, s.lists[i], i))
    && (forall p :: p in s.zones ==> ZoneOk(s, p))
  }

  predicate IsZone(s: Slab, p: nat) {
    p in s.zones || p in s.parked
  }

  /** Every page of the zone at page z leads back to it. */
  ghost predicate ZonePages(usage: map<int, Usage>, own: map<int, nat>, z: nat, cnt: int) {
    forall p :: P.Within(p, z, cnt) ==> p in usage && usage[p] == Small(p - z) && p in own && own[p] == z
  }

  ghost predicate LargePages(usage: map<int, Usage>, own: map<int, nat>, a: nat, n: int) {
    && n > 0 && a in usage && usage[a] == Large(n)
    && forall p :: P.Within(p, a, n) ==> p in own && own[p] == a
  }

  /** The pages from base to top are free or belong to one block. */
  ghost predicate PagesOk(s: Slab, base: int, top: int) {
    && 0 <= base && P.Ok(s.runs, base)
    && (forall p :: (base <= p < top <==> P.Has(s.runs, p) || p in s.own) && !(P.Has(s.runs, p) && p in s.own))
    && (forall z: nat :: IsZone(s, z) ==> ZonePages(s.usage, s.own, z, s.cnt))
    && (forall a :: a in s.large ==> !IsZone(s, a) && LargePages(s.usage, s.own, a, s.large[a]))
    && (forall p :: p in s.own ==>
          if s.own[p] in s.large then P.Within(p, s.own[p], s.large[s.own[p]])
          else IsZone(s, s.own[p]) && P.Within(p, s.own[p], s.cnt))
  }

  /** rt_system_heap_init makes zones of 32, 64 or 128 kilobytes. */
  ghost predicate Inv(s: Slab, base: int, top: int) {
    (s.cnt == 8 || s.cnt == 16 || s.cnt == 32) && ZonesOk(s) && PagesOk(s, base, top)
  }

  /** The chunk is in the hands of a client. */
  ghost predicate LiveChunk(s: Slab, p: nat, i: nat) {
    p in s.zones && Zones.Live(s.zones[p], i)
  }

  // ---------------------------------------------------------------- zones and lists

  /** One zone is new or changes, and with it the list of its index. */
  lemma ZoneChange(s: Slab, s': Slab, p: nat, z: Zones.Zone, list: seq<nat>)
    requires ZonesOk(s) && s'.cnt == s.cnt && Zones.Inside(z, ZoneSize(s)) && Zones.Counted(z)
    requires s'.zones == s.zones[p := z] && (p in s.zones ==> s.zones[p].index == z.index)
    requires |s.lists| == NZONES && 0 <= z.index < NZONES && s'.lists == s.lists[z.index := list]
    requires ListOk(s'.zones, list, z.index)
    requires (z.nfree > 0 ==> p in list) && forall q :: q in s.lists[z.index] && q != p ==> q in list
    requires Unique(s'.parked) && p !in s'.parked && forall q :: q in s'.parked ==> q in s.parked
    ensures ZonesOk(s')
  {
    hide Unique, Zones.Counted, ChunkOf;
    forall i | 0 <= i < NZONES ensures ListOk(s'.zones, s'.lists[i], i) {
      assert ListOk(s.zones, s.lists[i], i);
    }
    forall q | q in s'.zones ensures ZoneOk(s', q) {
      assert q != p ==> ZoneOk(s, q);
    }
  }

  /** The pages do not depend on what the zones do with them. */
  lemma PagesSame(s: Slab, s': Slab, base: int, top: int)
    requires PagesOk(s, base, top) && s'.cnt == s.cnt && s'.runs == s.runs && s'.usage == s.usage && s'.own == s.own
    requires s'.large == s.large
    requires forall z: nat :: IsZone(s', z) <==> IsZone(s, z)
    ensures PagesOk(s', base, top)
  {
    hide IsZone, ZonePages, LargePages, P.Ok, P.Has;
  }

  lemma ListHead(s: Slab, i: nat)
    requires ZonesOk(s) && i < NZONES && s.lists[i] != []
    ensures var p := s.lists[i][0]; p in s.zones && s.zones[p].index == i && s.zones[p].nfree > 0 && ZoneOk(s, p)
  {
  }

  lemma InsideSame(z: Zones.Zone, z': Zones.Zone, size: nat)
    requires Zones.Inside(z, size) && z'.index == z.index && z'.chunk == z.chunk && z'.off == z.off && z'.nmax == z.nmax
    ensures Zones.Inside(z', size)
  {
  }

  /** rt_malloc from a listed zone hands out a chunk that nobody has. */
  lemma MallocListedInv(s: Slab, i: nat, base: int, top: int)
    requires Inv(s, base, top) && i < NZONES && s.lists[i] != []
    ensures var p := s.lists[i][0];
            && p in s.zones && (s.zones[p].uindex + 1 == s.zones[p].nmax ==> s.zones[p].free != [])
            && Inv(MallocListed(s, i).slab, base, top)
            && !LiveChunk(s, p, Zones.NextChunk(s.zones[p])) && Zones.NextChunk(s.zones[p]) < s.zones[p].nmax
            && s.zones[p].index == i
            && forall q: nat, j: nat :: LiveChunk(MallocListed(s, i).slab, q, j) <==>
                 LiveChunk(s, q, j) || (q == p && j == Zones.NextChunk(s.zones[p]))
  {
    hide Zones.Inside, Zones.Counted, Zones.TakeChunk, Zones.NextChunk, Zones.Live, PagesOk;
    ListHead(s, i);
    var p := s.lists[i][0];
    var z := s.zones[p];
    Zones.TakeOk(z);
    var s', z', list := MallocListed(s, i).slab, Zones.TakeChunk(z), s.lists[i];
    TakeKeeps(z);
    InsideSame(z, z', ZoneSize(s));
    assert ListOk(s.zones, list, i);
    TailUnique(list);
    var list' := if z'.nfree == 0 then list[1..] else list;
    assert s'.lists == s.lists[i := list'];
    assert ListOk(s'.zones, list', i) by { hide Unique; }
    ZoneChange(s, s', p, z', list');
    PagesSame(s, s', base, top);
  }

  lemma TakeKeeps(z: Zones.Zone)
    requires z.uindex + 1 == z.nmax ==> z.free != []
    ensures var z' := Zones.TakeChunk(z);
            z'.index == z.index && z'.chunk == z.chunk && z'.off == z.off && z'.nmax == z.nmax &&
            z'.nfree == z.nfree - 1
  {
  }

  /** A zone that is in no list and not parked comes into use. */
  lemma AddZoneInv(s: Slab, p: nat, c: Class)
    requires ZonesOk(s) && p !in s.zones && p !in s.parked && 8 <= s.cnt
    requires 0 <= c.index < NZONES && c.chunk == ChunkOf(c.index) && 4 * c.chunk <= ZoneSize(s)
    ensures c.chunk > 0 && Zones.Offset(c.chunk) <= ZoneSize(s) && ZonesOk(AddZone(s, p, c).slab)
    ensures forall q: nat, j: nat :: LiveChunk(AddZone(s, p, c).slab, q, j) <==>
              LiveChunk(s, q, j) || (q == p && j == 0)
  {
    hide Zones.Inside, Zones.Counted, Zones.NewZone, Zones.Live, ChunkOf, Zones.Offset;
    Zones.NewOk(c, ZoneSize(s));
    var z := Zones.NewZone(c, ZoneSize(s));
    NewIndex(c, ZoneSize(s));
    var s', list := AddZone(s, p, c).slab, [p] + s.lists[c.index];
    assert ListOk(s.zones, s.lists[c.index], c.index);
    FrontUnique(s.lists[c.index], p);
    assert ListOk(s'.zones, list, c.index) by { hide Unique; }
    ZoneChange(s, s', p, z, list);
  }

  lemma NewIndex(c: Class, size: nat)
    requires c.chunk > 0 && Zones.Offset(c.chunk) <= size
    ensures Zones.NewZone(c, size).index == c.index && Zones.NewZone(c, size).chunk == c.chunk
  {
  }

  /** A parked zone comes into use again. */
  lemma MallocParkedInv(s: Slab, c: Class, base: int, top: int)
    requires Inv(s, base, top) && s.parked != []
    requires 0 <= c.index < NZONES && c.chunk == ChunkOf(c.index) && 4 * c.chunk <= ZoneSize(s)
    ensures c.chunk > 0 && Zones.Offset(c.chunk) <= ZoneSize(s) && Inv(MallocNew(s, c).slab, base, top)
    ensures forall q: nat, j: nat :: LiveChunk(MallocNew(s, c).slab, q, j) <==>
              LiveChunk(s, q, j) || (q == s.parked[0] && j == 0)
  {
    hide PagesOk, Zones.Inside, Zones.Counted, Zones.Live, ChunkOf, Zones.Offset, Zones.NewZone;
    var p, r := s.parked[0], s.(parked := s.parked[1..]);
    TailUnique(s.parked);
    forall q | q in r.zones ensures ZoneOk(r, q) {
      assert ZoneOk(s, q);
    }
    assert p in s.parked;
    assert p in s.zones ==> ZoneOk(s, p);
    AddZoneInv(r, p, c);
    PagesSame(s, MallocNew(s, c).slab, base, top);
  }

  // ---------------------------------------------------------------- pages for a new block

  /** The pages that the page allocator hands out belong to nobody. */
  lemma AllocFacts(s: Slab, n: int, base: int, top: int)
    requires PagesOk(s, base, top) && n > 0 && P.AllocAt(s.runs, n) != P.NULL
    ensures var a := P.AllocAt(s.runs, n);
            && a >= base && P.Ok(P.Alloc(s.runs, n), base)
            && (forall p :: P.Within(p, a, n) ==> P.Has(s.runs, p) && p !in s.own)
            && (forall p :: P.Has(P.Alloc(s.runs, n), p) <==> P.Has(s.runs, p) && !P.Within(p, a, n))
  {
    var a := P.AllocAt(s.runs, n);
    P.AllocOk(s.runs, n, base);
    forall p
      ensures a >= base && (P.Within(p, a, n) ==> P.Has(s.runs, p))
      ensures P.Has(P.Alloc(s.runs, n), p) <==> P.Has(s.runs, p) && !P.Within(p, a, n)
    {
      P.AllocPages(s.runs, n, base, p);
    }
  }

  lemma TakenIs(own: map<int, nat>, a: nat, n: int)
    ensures forall p :: p in Taken(own, a, n) <==> p in own || P.Within(p, a, n)
    ensures forall p :: p in Taken(own, a, n) ==> Taken(own, a, n)[p] == if P.Within(p, a, n) then a else own[p]
  {
  }

  /** The state with a new block of n pages at page a, which is a zone or a large block. */
  ghost predicate Grown(s: Slab, s': Slab, a: nat, n: int) {
    && s'.cnt == s.cnt && n > 0 && P.AllocAt(s.runs, n) == a
    && s'.runs == P.Alloc(s.runs, n) && s'.own == Taken(s.own, a, n)
    && (forall p :: p in s.usage && !P.Within(p, a, n) ==> p in s'.usage && s'.usage[p] == s.usage[p])
  }

  /** Blocks that were there keep their pages. */
  lemma OthersKeep(s: Slab, s': Slab, a: nat, n: int, base: int, top: int)
    requires PagesOk(s, base, top) && Grown(s, s', a, n)
    ensures forall z: nat :: IsZone(s, z) ==> ZonePages(s'.usage, s'.own, z, s.cnt)
    ensures forall b :: b in s.large ==> LargePages(s'.usage, s'.own, b, s.large[b])
    ensures !(8 <= s.cnt && IsZone(s, a)) && a !in s.large
  {
    hide IsZone, P.Has, P.Ok;
    AllocFacts(s, n, base, top);
    TakenIs(s.own, a, n);
    assert P.Within(a, a, n) && (8 <= s.cnt ==> P.Within(a, a, s.cnt));
    assert 8 <= s.cnt && IsZone(s, a) ==> ZonePages(s.usage, s.own, a, s.cnt);
    hide Taken;
    forall z: nat | IsZone(s, z) ensures ZonePages(s'.usage, s'.own, z, s.cnt) {
      assert ZonePages(s.usage, s.own, z, s.cnt);
    }
    forall b | b in s.large ensures LargePages(s'.usage, s'.own, b, s.large[b]) {
      assert LargePages(s.usage, s.own, b, s.large[b]);
      assert P.Within(b, b, s.large[b]);
    }
  }

  lemma GrownPages(s: Slab, s': Slab, a: nat, n: int, base: int, top: int)
    requires PagesOk(s, base, top) && Grown(s, s', a, n)
    ensures P.Ok(s'.runs, base)
    ensures forall p :: (base <= p < top <==> P.Has(s'.runs, p) || p in s'.own) && !(P.Has(s'.runs, p) && p in s'.own)
  {
    hide P.Ok;
    AllocFacts(s, n, base, top);
    TakenIs(s.own, a, n);
    hide Taken, P.Has;
  }

  lemma NewZonePages(s: Slab, s': Slab, a: nat, base: int, top: int)
    requires PagesOk(s, base, top) && 8 <= s.cnt && Grown(s, s', a, s.cnt) && s'.large == s.large
    requires s'.usage == ZoneUsage(s.usage, a, s.cnt) && forall z: nat :: IsZone(s', z) <==> IsZone(s, z) || z == a
    ensures PagesOk(s', base, top)
  {
    hide IsZone, P.Has, P.Ok, ZonePages, LargePages, ZoneUsage, Taken;
    OthersKeep(s, s', a, s.cnt, base, top);
    GrownPages(s, s', a, s.cnt, base, top);
    TakenIs(s.own, a, s.cnt);
    ZoneUsageIs(s.usage, s.own, a, s.cnt);
  }

  lemma ZoneUsageIs(usage: map<int, Usage>, own: map<int, nat>, a: nat, cnt: int)
    ensures ZonePages(ZoneUsage(usage, a, cnt), Taken(own, a, cnt), a, cnt)
  {
  }

  lemma NewLargePages(s: Slab, s': Slab, a: nat, n: int, base: int, top: int)
    requires PagesOk(s, base, top) && 8 <= s.cnt && Grown(s, s', a, n) && s'.large == s.large[a := n]
    requires s'.usage == s.usage[a := Large(n)] && forall z: nat :: IsZone(s', z) <==> IsZone(s, z)
    ensures PagesOk(s', base, top)
  {
    hide IsZone, P.Has, P.Ok, ZonePages, Taken;
    OthersKeep(s, s', a, n, base, top);
    GrownPages(s, s', a, n, base, top);
    TakenIs(s.own, a, n);
    assert LargePages(s'.usage, s'.own, a, n);
  }

  /** rt_malloc with a zone from the page allocator. */
  lemma MallocFreshInv(s: Slab, c: Class, base: int, top: int)
    requires Inv(s, base, top) && s.parked == [] && P.AllocAt(s.runs, s.cnt) >= 0
    requires 0 <= c.index < NZONES && c.chunk == ChunkOf(c.index) && 4 * c.chunk <= ZoneSize(s)
    ensures c.chunk > 0 && Zones.Offset(c.chunk) <= ZoneSize(s) && Inv(MallocNew(s, c).slab, base, top)
    ensures forall q: nat, j: nat :: LiveChunk(MallocNew(s, c).slab, q, j) <==>
              LiveChunk(s, q, j) || (q == P.AllocAt(s.runs, s.cnt) && j == 0)
  {
    hide P.Has, P.Ok, P.Alloc, P.AllocAt, Zones.Inside, Zones.Counted, Zones.Live, ChunkOf, Zones.Offset,
         Zones.NewZone, Taken, ZonePages, LargePages;
    var a: nat := P.AllocAt(s.runs, s.cnt);
    var r := s.(runs := P.Alloc(s.runs, s.cnt), usage := ZoneUsage(s.usage, a, s.cnt), own := Taken(s.own, a, s.cnt));
    assert Grown(s, r, a, s.cnt);
    OthersKeep(s, r, a, s.cnt, base, top);
    forall q | q in r.zones ensures ZoneOk(r, q) {
      assert ZoneOk(s, q);
    }
    hide PagesOk;
    AddZoneInv(r, a, c);
    var s' := MallocNew(s, c).slab;
    assert Grown(s, s', a, s.cnt);
    NewZonePages(s, s', a, base, top);
  }

  /** rt_malloc of a large block. */
  lemma MallocLargeInv(s: Slab, size: int, base: int, top: int)
    requires Inv(s, base, top)
    ensures Inv(MallocLarge(s, size).slab, base, top)
    ensures var r := MallocLarge(s, size);
            if r.ptr == NULL then r.slab == s
            else
              r.ptr >= 0 && var a: nat := r.ptr / PAGE;
              a * PAGE == r.ptr && a !in s.large && r.slab.large == s.large[a := PagesFor(size)]
    ensures forall q: nat, j: nat :: LiveChunk(MallocLarge(s, size).slab, q, j) <==> LiveChunk(s, q, j)
  {
    hide P.Has, P.Ok, P.Alloc, P.AllocAt, Zones.Inside, Zones.Counted, Taken, ZonePages, LargePages, PagesFor;
    var n, s' := PagesFor(size), MallocLarge(s, size).slab;
    var a := P.AllocAt(s.runs, n);
    if n > 0 && a >= 0 {
      assert Grown(s, s', a, n);
      OthersKeep(s, s', a, n, base, top);
      forall q | q in s'.zones ensures ZoneOk(s', q) {
        assert ZoneOk(s, q);
      }
      NewLargePages(s, s', a, n, base, top);
    }
  }

  // ---------------------------------------------------------------- releasing

  lemma PutKeeps(z: Zones.Zone, i: nat)
    ensures var z' := Zones.PutChunk(z, i);
            z'.index == z.index && z'.chunk == z.chunk && z'.off == z.off && z'.nmax == z.nmax &&
            z'.nfree == z.nfree + 1
  {
  }

  lemma PutBackInv(s: Slab, p: nat, i: nat, base: int, top: int)
    requires Inv(s, base, top) && LiveChunk(s, p, i)
    ensures 0 <= s.zones[p].index < |s.lists| && Inv(PutBack(s, p, i), base, top)
    ensures forall q: nat, j: nat :: LiveChunk(PutBack(s, p, i), q, j) <==> LiveChunk(s, q, j) && !(q == p && j == i)
  {
    hide Zones.Counted, Zones.PutChunk, Zones.Live, PagesOk, ChunkOf;
    var z := s.zones[p];
    assert ZoneOk(s, p);
    Zones.PutOk(z, i);
    PutKeeps(z, i);
    var s', z', list := PutBack(s, p, i), Zones.PutChunk(z, i), s.lists[z.index];
    InsideSame(z, z', ZoneSize(s));
    assert ListOk(s.zones, list, z.index);
    var list' := if z.nfree == 0 then [p] + list else list;
    if z.nfree == 0 {
      FrontUnique(list, p);
    } else {
      CountedFree(z);
    }
    assert s'.lists == s.lists[z.index := list'];
    assert ListOk(s'.zones, list', z.index) by { hide Unique; }
    ZoneChange(s, s', p, z', list');
    PagesSame(s, s', base, top);
  }

  lemma CountedFree(z: Zones.Zone)
    requires Zones.Counted(z)
    ensures z.nfree >= 0
  {
  }

  /** A zone without clients leaves its list. */
  lemma ParkInv(s: Slab, p: nat, base: int, top: int)
    requires Inv(s, base, top) && p in s.zones && s.zones[p].nfree == s.zones[p].nmax
    ensures 0 <= s.zones[p].index < |s.lists| && Inv(Park(s, p), base, top)
    ensures forall q: nat, j: nat :: LiveChunk(Park(s, p), q, j) <==> LiveChunk(s, q, j)
  {
    hide Zones.Counted, Zones.Live, PagesOk, ChunkOf, Unique;
    assert ZoneOk(s, p);
    Zones.AllFree(s.zones[p]);
    var s', i := Park(s, p), s.zones[p].index;
    RemovedMembers(s.lists[i], p);
    FrontUnique(s.parked, p);
    forall k | 0 <= k < NZONES ensures ListOk(s'.zones, s'.lists[k], k) {
      assert ListOk(s.zones, s.lists[k], k);
    }
    forall q | q in s'.zones ensures ZoneOk(s', q) {
      assert ZoneOk(s, q);
    }
    PagesSame(s, s', base, top);
  }

  /** The state without the block of n pages at page a. */
  ghost predicate Shrunk(s: Slab, s': Slab, a: nat, n: int) {
    && s'.cnt == s.cnt && n > 0 && (forall p :: P.Within(p, a, n) ==> p in s.own && s.own[p] == a)
    && s'.runs == P.Free(s.runs, a, n) && s'.own == Returned(s.own, a, n)
    && (forall p :: p in s.usage && !P.Within(p, a, n) ==> p in s'.usage && s'.usage[p] == s.usage[p])
  }

  lemma ReturnedIs(own: map<int, nat>, a: int, n: int)
    ensures forall p :: p in Returned(own, a, n) <==> p in own && !P.Within(p, a, n)
    ensures forall p :: p in Returned(own, a, n) ==> Returned(own, a, n)[p] == own[p]
  {
  }

  lemma ShrunkPages(s: Slab, s': Slab, a: nat, n: int, base: int, top: int)
    requires PagesOk(s, base, top) && Shrunk(s, s', a, n)
    ensures P.Ok(s'.runs, base)
    ensures forall p :: (base <= p < top <==> P.Has(s'.runs, p) || p in s'.own) && !(P.Has(s'.runs, p) && p in s'.own)
  {
    hide P.Ok, P.Has, P.Free, Returned;
    ReturnedIs(s.own, a, n);
    assert P.Within(a, a, n);
    assert P.NoneFree(s.runs, a, n);
    P.FreeOk(s.runs, a, n, base);
    forall p ensures P.Has(s'.runs, p) <==> P.Has(s.runs, p) || P.Within(p, a, n) {
      P.FreePages(s.runs, a, n, base, p);
    }
  }

  /** The other blocks keep their pages. */
  lemma RestKeeps(s: Slab, s': Slab, a: nat, n: int, base: int, top: int)
    requires PagesOk(s, base, top) && Shrunk(s, s', a, n)
    ensures forall z: nat :: IsZone(s, z) && z != a ==> ZonePages(s'.usage, s'.own, z, s.cnt)
    ensures forall b :: b in s.large && b != a ==> LargePages(s'.usage, s'.own, b, s.large[b])
  {
    hide IsZone, P.Has, P.Ok, P.Free, Returned;
    ReturnedIs(s.own, a, n);
    forall z: nat | IsZone(s, z) && z != a ensures ZonePages(s'.usage, s'.own, z, s.cnt) {
      assert ZonePages(s.usage, s.own, z, s.cnt);
    }
    forall b | b in s.large && b != a ensures LargePages(s'.usage, s'.own, b, s.large[b]) {
      assert LargePages(s.usage, s.own, b, s.large[b]);
      assert P.Within(b, b, s.large[b]);
    }
  }

  /** A parked zone goes back to the page allocator. */
  lemma UnparkInv(s: Slab, base: int, top: int)
    requires Inv(s, base, top) && s.parked != []
    ensures Inv(Unpark(s), base, top)
    ensures forall q: nat, j: nat :: LiveChunk(Unpark(s), q, j) <==> LiveChunk(s, q, j)
  {
    hide P.Has, P.Ok, P.Free, Zones.Inside, Zones.Counted, Returned, LargePages, Unique;
    var p, s' := s.parked[0], Unpark(s);
    TailUnique(s.parked);
    forall q | q in s'.zones ensures ZoneOk(s', q) {
      assert ZoneOk(s, q);
    }
    assert p in s.zones ==> ZoneOk(s, p);
    assert IsZone(s, p) && ZonePages(s.usage, s.own, p, s.cnt);
    assert Shrunk(s, s', p, s.cnt);
    assert forall z: nat :: IsZone(s', z) <==> IsZone(s, z) && z != p;
    UnparkPages(s, s', p, base, top);
  }

  lemma UnparkPages(s: Slab, s': Slab, p: nat, base: int, top: int)
    requires PagesOk(s, base, top) && Shrunk(s, s', p, s.cnt) && s'.large == s.large && IsZone(s, p)
    requires forall z: nat :: IsZone(s', z) <==> IsZone(s, z) && z != p
    ensures PagesOk(s', base, top)
  {
    hide IsZone, P.Has, P.Ok, P.Free, ZonePages, LargePages, Returned;
    ShrunkPages(s, s', p, s.cnt, base, top);
    RestKeeps(s, s', p, s.cnt, base, top);
    ReturnedIs(s.own, p, s.cnt);
  }

  /** rt_free of a chunk takes exactly that chunk from its client. */
  lemma FreeChunkInv(s: Slab, p: nat, i: nat, base: int, top: int)
    requires Inv(s, base, top) && LiveChunk(s, p, i)
    ensures 0 <= s.zones[p].index < |s.lists| && Inv(FreeChunk(s, p, i), base, top)
    ensures forall q: nat, j: nat :: LiveChunk(FreeChunk(s, p, i), q, j) <==> LiveChunk(s, q, j) && !(q == p && j == i)
    ensures FreeChunk(s, p, i).large == s.large
  {
    PutBackInv(s, p, i, base, top);
    hide Inv, LiveChunk, Zones.PutChunk;
    PutKeeps(s.zones[p], i);
    var s1 := PutBack(s, p, i);
    if s1.zones[p].nfree == s1.zones[p].nmax && s1.lists[s1.zones[p].index] != [p] {
      ParkInv(s1, p, base, top);
      var s2 := Park(s1, p);
      if |s2.parked| > THRESH {
        UnparkInv(s2, base, top);
      }
    }
  }

  /** Some other zone of the same class can be allocated from. */
  ghost predicate HasOther(s: Slab, p: nat)
    requires p in s.zones && 0 <= s.zones[p].index < |s.lists|
  {
    exists q :: q in s.lists[s.zones[p].index] && q != p
  }

  /**
   When a zone goes: exactly if the released chunk was the last one in use and another zone of its class can be
   allocated from.  Up to two zones are parked with their pages; the next one gives its pages back.
   */
  lemma FreeGivesBack(s: Slab, p: nat, i: nat, base: int, top: int)
    requires Inv(s, base, top) && LiveChunk(s, p, i)
    ensures 0 <= s.zones[p].index < |s.lists|
    ensures var s' := FreeChunk(s, p, i);
            && (p !in s'.zones <==> (forall j: nat :: LiveChunk(s, p, j) ==> j == i) && HasOther(s, p))
            && (p in s'.zones ==> s'.parked == s.parked && s'.runs == s.runs)
            && (p !in s'.zones && |s.parked| < THRESH ==> s'.parked == [p] + s.parked && s'.runs == s.runs)
            && (p !in s'.zones && |s.parked| >= THRESH ==>
                  s'.parked == s.parked && s'.runs == P.Free(s.runs, p, s.cnt))
  {
    PutBackInv(s, p, i, base, top);
    hide PagesOk, Zones.PutChunk, Zones.Live, Zones.Inside, P.Free, FreeUsage, Returned;
    var s1, z := PutBack(s, p, i), s.zones[p];
    PutKeeps(z, i);
    assert ZoneOk(s1, p);
    Zones.AllFree(s1.zones[p]);
    CountedFree(z);
    assert forall j: nat :: LiveChunk(s1, p, j) <==> Zones.Live(s1.zones[p], j);
    OnlyOne(s1.lists[z.index], p);
    assert forall q :: q != p ==> (q in s1.lists[z.index] <==> q in s.lists[z.index]);
  }

  lemma OnlyOne(list: seq<nat>, p: nat)
    requires Unique(list) && p in list
    ensures list == [p] <==> forall q :: q in list ==> q == p
  {
    if (forall q :: q in list ==> q == p) && |list| > 1 {
      assert list[0] in list && list[1] in list;
    }
  }

  /** rt_free of a large block. */
  lemma FreeLargeInv(s: Slab, a: nat, base: int, top: int)
    requires Inv(s, base, top) && a in s.large
    ensures Inv(FreeLarge(s, a, s.large[a]), base, top)
    ensures forall q: nat, j: nat :: LiveChunk(FreeLarge(s, a, s.large[a]), q, j) <==> LiveChunk(s, q, j)
  {
    hide P.Has, P.Ok, P.Free, Zones.Inside, Zones.Counted, Returned, ZonePages, Unique;
    var n, s' := s.large[a], FreeLarge(s, a, s.large[a]);
    forall q | q in s'.zones ensures ZoneOk(s', q) {
      assert ZoneOk(s, q);
    }
    assert LargePages(s.usage, s.own, a, n) && P.Within(a, a, n);
    assert Shrunk(s, s', a, n);
    FreeLargePages(s, s', a, base, top);
  }

  lemma FreeLargePages(s: Slab, s': Slab, a: nat, base: int, top: int)
    requires PagesOk(s, base, top) && a in s.large && Shrunk(s, s', a, s.large[a]) && s'.large == s.large - {a}
    requires forall z: nat :: IsZone(s', z) <==> IsZone(s, z)
    ensures PagesOk(s', base, top)
  {
    hide IsZone, P.Has, P.Ok, P.Free, ZonePages, LargePages, Returned;
    ShrunkPages(s, s', a, s.large[a], base, top);
    RestKeeps(s, s', a, s.large[a], base, top);
    ReturnedIs(s.own, a, s.large[a]);
  }

  // ---------------------------------------------------------------- the whole allocator

  lemma ClassSmall(s: Slab, size: int)
    requires (s.cnt == 8 || s.cnt == 16 || s.cnt == 32) && 0 < size < Limit(s)
    ensures size < LIMIT && 4 * ClassOf(size).chunk <= ZoneSize(s)
  {
    CellsFit(size);
  }

  /** rt_malloc */
  ghost function Malloc(s: Slab, size: nat, base: int, top: int): Outcome
    requires Inv(s, base, top)
  {
    if size == 0 then Outcome(s, NULL)
    else if size >= Limit(s) then MallocLarge(s, size)
    else
      ClassSmall(s, size);
      ClassFits(size);
      var c := ClassOf(size);
      if s.lists[c.index] != [] then
        MallocListedInv(s, c.index, base, top);
        MallocListed(s, c.index)
      else
        Zones.NewOk(c, ZoneSize(s));
        MallocNew(s, c)
  }

  /** What rt_malloc hands out. */
  datatype Block = Chunk(p: nat, i: nat) | Pages(a: nat)

  ghost predicate Holds(s: Slab, b: Block) {
    match b
    case Chunk(p, i) => LiveChunk(s, p, i)
    case Pages(a) => a in s.large
  }

  function Start(s: Slab, b: Block): int {
    match b
    case Chunk(p, i) => if p in s.zones then Zones.Addr(p, s.zones[p], i) else NULL
    case Pages(a) => a * PAGE
  }

  function Length(s: Slab, b: Block): int {
    match b
    case Chunk(p, i) => if p in s.zones then s.zones[p].chunk else 0
    case Pages(a) => if a in s.large then s.large[a] * PAGE else 0
  }

  /** The first page of the zone or block that serves a request. */
  ghost function FirstPage(s: Slab, size: nat, base: int, top: int): int
    requires Inv(s, base, top) && size > 0
  {
    if size >= Limit(s) then P.AllocAt(s.runs, PagesFor(size))
    else
      SmallFacts(s, size, base, top);
      var list := s.lists[ClassOf(size).index];
      if list != [] then list[0] else if s.parked != [] then s.parked[0] else P.AllocAt(s.runs, s.cnt)
  }

  /** A small request is served from a zone of its class. */
  lemma MallocSmallInv(s: Slab, size: nat, base: int, top: int) returns (b: Block)
    requires Inv(s, base, top) && 0 < size < Limit(s)
    ensures Inv(Malloc(s, size, base, top).slab, base, top)
    ensures var r := Malloc(s, size, base, top);
            if r.ptr == NULL then r.slab == s
            else
              && b.Chunk? && !Holds(s, b) && Start(r.slab, b) == r.ptr && Length(r.slab, b) == ClassOf(size).chunk
              && r.slab.large == s.large && b.p in r.slab.zones && b.p == FirstPage(s, size, base, top)
              && forall q: nat, j: nat :: LiveChunk(r.slab, q, j) <==> LiveChunk(s, q, j) || (q == b.p && j == b.i)
  {
    hide Inv, ClassOf, Zones.Offset, Zones.Live, Zones.TakeChunk, Zones.NextChunk, Zones.NewZone, PagesFor, Limit;
    SmallFacts(s, size, base, top);
    var c := ClassOf(size);
    if s.lists[c.index] != [] {
      var p := s.lists[c.index][0];
      MallocListedInv(s, c.index, base, top);
      TakeKeeps(s.zones[p]);
      ListedChunk(s, c.index, base, top);
      b := Chunk(p, Zones.NextChunk(s.zones[p]));
    } else if s.parked != [] {
      MallocParkedInv(s, c, base, top);
      NewIndex(c, ZoneSize(s));
      NotInUse(s, s.parked[0], base, top);
      b := Chunk(s.parked[0], 0);
    } else if P.AllocAt(s.runs, s.cnt) >= 0 {
      MallocFreshInv(s, c, base, top);
      NewIndex(c, ZoneSize(s));
      FreshNotInUse(s, base, top);
      b := Chunk(P.AllocAt(s.runs, s.cnt), 0);
    } else {
      b := Pages(0);
    }
  }

  lemma SmallFacts(s: Slab, size: nat, base: int, top: int)
    requires Inv(s, base, top) && 0 < size < Limit(s)
    ensures var c := ClassOf(size);
            && 0 <= c.index < NZONES == |s.lists| && c.chunk == ChunkOf(c.index)
            && 4 * c.chunk <= ZoneSize(s) && 8 <= s.cnt
  {
    hide PagesOk;
    ClassSmall(s, size);
    ClassFits(size);
  }

  lemma ListedChunk(s: Slab, i: nat, base: int, top: int)
    requires Inv(s, base, top) && i < NZONES && s.lists[i] != []
    ensures s.lists[i][0] in s.zones && s.zones[s.lists[i][0]].chunk == ChunkOf(i)
  {
  }

  lemma NotInUse(s: Slab, p: nat, base: int, top: int)
    requires Inv(s, base, top) && p in s.parked
    ensures p !in s.zones
  {
  }

  lemma FreshNotInUse(s: Slab, base: int, top: int)
    requires Inv(s, base, top) && P.AllocAt(s.runs, s.cnt) >= 0
    ensures P.AllocAt(s.runs, s.cnt) !in s.zones
  {
    hide P.Has, P.Ok, P.Alloc, P.AllocAt, LargePages;
    var a: nat := P.AllocAt(s.runs, s.cnt);
    AllocFacts(s, s.cnt, base, top);
    assert P.Within(a, a, s.cnt);
    assert IsZone(s, a) ==> ZonePages(s.usage, s.own, a, s.cnt);
  }

  // ---------------------------------------------------------------- finding a block again

  /** How rt_free finds the block of a pointer: through the descriptor of its page. */
  function Located(s: Slab, ptr: nat): Block {
    var page := ptr / PAGE;
    if page in s.usage && s.usage[page].Small? then
      var p := page - s.usage[page].off;
      if p in s.zones && s.zones[p].chunk > 0 && ptr - p * PAGE - s.zones[p].off >= 0
      then Chunk(p, Quotient(ptr - p * PAGE - s.zones[p].off, s.zones[p].chunk)) else Pages(page)
    else Pages(page)
  }

  /** The descriptors lead every pointer back to the block it was handed out for. */
  lemma Locates(s: Slab, b: Block, base: int, top: int)
    requires Inv(s, base, top) && Holds(s, b)
    ensures Start(s, b) >= 0 && Located(s, Start(s, b)) == b
  {
    hide P.Has, P.Ok, Quotient, ChunkOf;
    match b {
      case Chunk(p, i) =>
        var z := s.zones[p];
        assert ZoneOk(s, p) && IsZone(s, p) && ZonePages(s.usage, s.own, p, s.cnt);
        assert i < z.nmax;
        Zones.ChunkPage(p, z, s.cnt, i);
        Zones.ChunkBack(p, z, i);
        var page := Zones.Addr(p, z, i) / PAGE;
        assert P.Within(page, p, s.cnt);
      case Pages(a) =>
        assert LargePages(s.usage, s.own, a, s.large[a]);
        assert a * PAGE / PAGE == a;
    }
  }

  /** rt_free of a pointer that a client holds. */
  function Free(s: Slab, ptr: nat): Slab {
    match Located(s, ptr)
    case Chunk(p, i) => if p in s.zones && 0 <= s.zones[p].index < |s.lists| then FreeChunk(s, p, i) else s
    case Pages(a) => if a in s.usage && s.usage[a].Large? then FreeLarge(s, a, s.usage[a].count) else s
  }

  /** rt_free takes exactly this block from its client. */
  lemma FreeInv(s: Slab, b: Block, base: int, top: int)
    requires Inv(s, base, top) && Holds(s, b)
    ensures Start(s, b) >= 0 && Inv(Free(s, Start(s, b)), base, top)
    ensures forall c :: Holds(Free(s, Start(s, b)), c) <==> Holds(s, c) && c != b
  {
    hide Inv, LiveChunk, FreeChunk, Start, Located;
    Locates(s, b, base, top);
    match b
    case Chunk(p, i) =>
      LiveZone(s, p, i);
      FreeChunkInv(s, p, i, base, top);
    case Pages(a) =>
      LargeUsage(s, a, base, top);
      FreeLargeInv(s, a, base, top);
  }

  lemma LiveZone(s: Slab, p: nat, i: nat)
    requires LiveChunk(s, p, i)
    ensures p in s.zones
  {
  }

  lemma LargeUsage(s: Slab, a: nat, base: int, top: int)
    requires Inv(s, base, top) && a in s.large
    ensures a in s.usage && s.usage[a] == Large(s.large[a])
  {
  }

  /** rt_malloc hands out one new block, long enough, and changes no other; or it changes nothing. */
  lemma MallocInv(s: Slab, size: nat, base: int, top: int) returns (b: Block)
    requires Inv(s, base, top) && size < 0x1_0000_0000
    ensures Inv(Malloc(s, size, base, top).slab, base, top)
    ensures var r := Malloc(s, size, base, top);
            if r.ptr == NULL then r.slab == s
            else
              && !Holds(s, b) && Start(r.slab, b) == r.ptr && Length(r.slab, b) >= size
              && forall c :: Holds(r.slab, c) <==> Holds(s, c) || c == b
  {
    if 0 < size < Limit(s) {
      b := MallocSmallInv(s, size, base, top);
      ClassSmall(s, size);
      ClassFits(size);
      hide Inv, LiveChunk, Malloc, ClassOf;
    } else {
      MallocLargeInv(s, size, base, top);
      b := Pages(if MallocLarge(s, size).ptr >= 0 then MallocLarge(s, size).ptr / PAGE else 0);
      LargeEnough(size);
      hide Inv, LiveChunk, MallocLarge, PagesFor;
    }
  }

  /** A size above 2^32 - 4096 wraps to no pages at all, and is refused. */
  lemma LargeEnough(size: nat)
    requires size < 0x1_0000_0000
    ensures PagesFor(size) > 0 ==> PagesFor(size) * PAGE >= size
    ensures size > 0 ==> (PagesFor(size) == 0 <==> size > 0x1_0000_0000 - PAGE)
  {
  }

  // ---------------------------------------------------------------- blocks stay where they are

  /** Zones in use before and after keep their layout. */
  ghost predicate SameShapes(s: Slab, s': Slab) {
    forall p :: p in s.zones && p in s'.zones ==>
      s'.zones[p].off == s.zones[p].off && s'.zones[p].chunk == s.zones[p].chunk
  }

  lemma ShapesPlace(s: Slab, s': Slab, b: Block)
    requires SameShapes(s, s') && Holds(s, b) && Holds(s', b) && (b.Pages? ==> s'.large[b.a] == s.large[b.a])
    ensures Start(s', b) == Start(s, b) && Length(s', b) == Length(s, b)
  {
  }

  lemma MallocShapes(s: Slab, size: nat, base: int, top: int)
    requires Inv(s, base, top)
    ensures SameShapes(s, Malloc(s, size, base, top).slab)
    ensures forall a :: a in s.large ==>
              a in Malloc(s, size, base, top).slab.large && Malloc(s, size, base, top).slab.large[a] == s.large[a]
  {
    hide Inv, ClassOf, Zones.Offset, Zones.NewZone, Zones.TakeChunk, Zones.NextChunk, PagesFor, Limit;
    if 0 < size < Limit(s) {
      SmallFacts(s, size, base, top);
      var c := ClassOf(size);
      if s.lists[c.index] != [] {
        MallocListedInv(s, c.index, base, top);
        TakeKeeps(s.zones[s.lists[c.index][0]]);
      } else if s.parked != [] {
        NotInUse(s, s.parked[0], base, top);
      } else if P.AllocAt(s.runs, s.cnt) >= 0 {
        FreshNotInUse(s, base, top);
      }
    } else {
      MallocLargeInv(s, size, base, top);
    }
  }

  lemma FreeShapes(s: Slab, ptr: nat)
    ensures SameShapes(s, Free(s, ptr))
    ensures forall a :: a in Free(s, ptr).large ==> a in s.large && Free(s, ptr).large[a] == s.large[a]
  {
  }

  /** rt_malloc and rt_free leave all blocks of other clients at their addresses. */
  lemma MallocPlaces(s: Slab, size: nat, base: int, top: int, b: Block)
    requires Inv(s, base, top) && size < 0x1_0000_0000 && Holds(s, b)
    ensures var r := Malloc(s, size, base, top).slab;
            Holds(r, b) && Start(r, b) == Start(s, b) && Length(r, b) == Length(s, b)
  {
    hide Inv, LiveChunk, Malloc, Start, Length;
    var n := MallocInv(s, size, base, top);
    MallocShapes(s, size, base, top);
    ShapesPlace(s, Malloc(s, size, base, top).slab, b);
  }

  lemma FreePlaces(s: Slab, b: Block, base: int, top: int, c: Block)
    requires Inv(s, base, top) && Holds(s, b) && Holds(s, c) && b != c
    ensures Start(s, b) >= 0
    ensures var r := Free(s, Start(s, b)); Holds(r, c) && Start(r, c) == Start(s, c) && Length(r, c) == Length(s, c)
  {
    hide Inv, LiveChunk, Free, Start, Length;
    FreeInv(s, b, base, top);
    FreeShapes(s, Start(s, b));
    ShapesPlace(s, Free(s, Start(s, b)), c);
  }

  // ---------------------------------------------------------------- no two blocks overlap

  /** The pages of a block. */
  lemma BlockPages(s: Slab, b: Block, base: int, top: int) returns (a: nat, n: nat)
    requires Inv(s, base, top) && Holds(s, b)
    ensures a * PAGE <= Start(s, b) && Start(s, b) + Length(s, b) <= (a + n) * PAGE
    ensures n > 0 && forall p :: P.Within(p, a, n) ==> p in s.own && s.own[p] == a
    ensures b.Chunk? ==> a == b.p
    ensures b.Pages? ==> a == b.a && a in s.large && !IsZone(s, a)
    ensures b.Chunk? ==> IsZone(s, a)
  {
    hide P.Has, P.Ok, ChunkOf;
    match b {
      case Chunk(p, i) =>
        var z := s.zones[p];
        assert ZoneOk(s, p) && IsZone(s, p) && ZonePages(s.usage, s.own, p, s.cnt);
        ProductGap(i, z.nmax, z.chunk);
        ProductNonNegative(i, z.chunk);
        a, n := p, s.cnt;
      case Pages(p) =>
        assert LargePages(s.usage, s.own, p, s.large[p]);
        a, n := p, s.large[p];
    }
  }

  /** Two blocks that clients hold never overlap. */
  lemma BlocksApart(s: Slab, b: Block, c: Block, base: int, top: int)
    requires Inv(s, base, top) && Holds(s, b) && Holds(s, c) && b != c
    ensures Start(s, b) + Length(s, b) <= Start(s, c) || Start(s, c) + Length(s, c) <= Start(s, b)
  {
    var x, n := BlockPages(s, b, base, top);
    var y, m := BlockPages(s, c, base, top);
    if x == y {
      assert b.Chunk? && c.Chunk? && b.p == c.p;
      SameZone(s, b.p, b.i, c.i, base, top);
    } else {
      assert P.Within(x, x, n) && P.Within(y, y, m);
      assert !P.Within(x, y, m) && !P.Within(y, x, n);
    }
  }

  lemma SameZone(s: Slab, p: nat, i: nat, j: nat, base: int, top: int)
    requires Inv(s, base, top) && LiveChunk(s, p, i) && LiveChunk(s, p, j) && i != j
    ensures var z := s.zones[p];
            Zones.Addr(p, z, i) + z.chunk <= Zones.Addr(p, z, j) || Zones.Addr(p, z, j) + z.chunk <= Zones.Addr(p, z, i)
  {
    hide PagesOk, ChunkOf, Zones.Addr;
    var z := s.zones[p];
    assert ZoneOk(s, p);
    if i < j {
      Zones.ChunksApart(p, z, ZoneSize(s), i, j);
    } else {
      Zones.ChunksApart(p, z, ZoneSize(s), j, i);
    }
  }

  // ---------------------------------------------------------------- reallocation

  /** What rt_realloc asks for: zoneindex rounds the size for a chunk, if it knows the size. */
  function Wanted(b: Block, size: nat): nat {
    if b.Chunk? && 0 < size < LIMIT then
      ClassFits(size);
      ClassOf(size).chunk
    else size
  }

  /** rt_realloc of a block in use. */
  ghost function Realloc(s: Slab, b: Block, size: nat, base: int, top: int): Outcome
    requires Inv(s, base, top) && Holds(s, b)
  {
    Locates(s, b, base, top);
    var ptr := Start(s, b);
    if size == 0 then Outcome(Free(s, ptr), NULL)
    else if b.Chunk? && Length(s, b) == Wanted(b, size) then Outcome(s, ptr)
    else
      var r := Malloc(s, Wanted(b, size), base, top);
      if r.ptr == NULL then r else Outcome(Free(r.slab, ptr), r.ptr)
  }

  /**
   rt_realloc replaces the block by one that is long enough, which may be the same, or fails and changes nothing.
   All other blocks stay, with their addresses and lengths.
   */
  lemma ReallocInv(s: Slab, b: Block, size: nat, base: int, top: int) returns (nb: Block)
    requires Inv(s, base, top) && Holds(s, b) && size < 0x1_0000_0000
    ensures var r := Realloc(s, b, size, base, top);
            && Inv(r.slab, base, top)
            && (size > 0 && r.ptr == NULL ==> r.slab == s)
            && (size == 0 ==> r.ptr == NULL && forall c :: Holds(r.slab, c) <==> Holds(s, c) && c != b)
            && (size > 0 && r.ptr != NULL ==>
                  && Holds(r.slab, nb) && Start(r.slab, nb) == r.ptr && Length(r.slab, nb) >= size
                  && forall c :: c != nb ==> (Holds(r.slab, c) <==> Holds(s, c) && c != b))
    ensures var r := Realloc(s, b, size, base, top).slab;
            forall c :: c != b && Holds(s, c) ==> Start(r, c) == Start(s, c) && Length(r, c) == Length(s, c)
  {
    hide Inv, LiveChunk, Holds, Malloc, Free, Start, Length, ClassOf;
    Locates(s, b, base, top);
    nb := b;
    if size == 0 {
      FreeInv(s, b, base, top);
      AllPlacesFree(s, b, base, top);
    } else if !(b.Chunk? && Length(s, b) == Wanted(b, size)) {
      var r := Malloc(s, Wanted(b, size), base, top);
      WantedRange(b, size);
      nb := MallocInv(s, Wanted(b, size), base, top);
      if r.ptr != NULL {
        MoveBlock(s, b, Wanted(b, size), base, top, nb);
      }
    } else {
      WantedRange(b, size);
    }
  }

  /**
   A chunk stays where it is exactly if the new size belongs to its class, or is its length beyond all classes; a block
   of pages is always moved.
   */
  lemma ReallocStays(s: Slab, b: Block, size: nat, base: int, top: int)
    requires Inv(s, base, top) && Holds(s, b) && 0 < size < 0x1_0000_0000
    ensures var r := Realloc(s, b, size, base, top);
            r == Outcome(s, Start(s, b)) <==>
            && b.Chunk? && b.p in s.zones
            && if size < LIMIT then ClassOf(size).index == s.zones[b.p].index else size == s.zones[b.p].chunk
  {
    hide PagesOk, Malloc, Free, Zones.Counted;
    Locates(s, b, base, top);
    var r := Realloc(s, b, size, base, top);
    if b.Chunk? {
      assert ZoneOk(s, b.p);
      if size < LIMIT {
        ClassFits(size);
        SameChunk(ClassOf(size).index, s.zones[b.p].index);
      }
    }
    if !(b.Chunk? && Length(s, b) == Wanted(b, size)) {
      NotTheSame(s, b, size, base, top);
    }
  }

  lemma SameChunk(i: int, j: int)
    requires 0 <= i < NZONES && 0 <= j < NZONES
    ensures ChunkOf(i) == ChunkOf(j) <==> i == j
  {
    hide ChunkOf;
    if i < j {
      ChunksGrow(i, j);
    } else if j < i {
      ChunksGrow(j, i);
    }
  }

  /** The path that allocates does not give the old block back. */
  lemma NotTheSame(s: Slab, b: Block, size: nat, base: int, top: int)
    requires Inv(s, base, top) && Holds(s, b) && 0 < size < 0x1_0000_0000
    requires !(b.Chunk? && Length(s, b) == Wanted(b, size))
    ensures Realloc(s, b, size, base, top) != Outcome(s, Start(s, b))
  {
    hide Inv, Holds, Malloc, Free, Start, Length, Wanted;
    Locates(s, b, base, top);
    WantedRange(b, size);
    var w := Wanted(b, size);
    var nb := MallocInv(s, w, base, top);
    if Malloc(s, w, base, top).ptr != NULL {
      MoveBlock(s, b, w, base, top, nb);
    }
  }

  lemma WantedRange(b: Block, size: nat)
    requires size < 0x1_0000_0000
    ensures size <= Wanted(b, size) < 0x1_0000_0000
  {
    hide ClassOf;
    if 0 < size < LIMIT {
      ClassFits(size);
    }
  }

  /** Allocate, then release: the new block and all others are where they were. */
  lemma MoveBlock(s: Slab, b: Block, size: nat, base: int, top: int, nb: Block)
    requires Inv(s, base, top) && Holds(s, b) && size < 0x1_0000_0000 && !Holds(s, nb)
    requires var r := Malloc(s, size, base, top);
             && r.ptr != NULL && Start(r.slab, nb) == r.ptr && Length(r.slab, nb) >= size
             && forall c :: Holds(r.slab, c) <==> Holds(s, c) || c == nb
    ensures var r := Malloc(s, size, base, top);
            var f := Free(r.slab, Start(s, b));
            && Start(s, b) >= 0 && Inv(f, base, top) && Start(f, nb) == r.ptr && Length(f, nb) >= size
            && (forall c :: Holds(f, c) <==> (Holds(s, c) || c == nb) && c != b)
            && forall c :: c != b && Holds(s, c) ==> Start(f, c) == Start(s, c) && Length(f, c) == Length(s, c)
  {
    hide Inv, LiveChunk, Holds, Malloc, Free, Start, Length;
    var r := Malloc(s, size, base, top).slab;
    var n := MallocInv(s, size, base, top);
    MallocPlaces(s, size, base, top, b);
    FreeInv(r, b, base, top);
    AllPlacesFree(r, b, base, top);
    forall c | c != b && Holds(s, c)
      ensures Start(r, c) == Start(s, c) && Length(r, c) == Length(s, c)
    {
      MallocPlaces(s, size, base, top, c);
    }
  }

  // ---------------------------------------------------------------- the bytes of a client

  /** No payload differs: this is all that the writes of the allocator to its own structures may do. */
  ghost predicate SamePayloads(s: Slab, m: Bytes, m': Bytes) {
    forall b :: Holds(s, b) ==> SameBytes(m, m', Start(s, b), Length(s, b))
  }

  /** How many bytes rt_realloc copies. */
  function CopyCount(s: Slab, b: Block, size: nat): int {
    if Wanted(b, size) > Length(s, b) then Length(s, b) else Wanted(b, size)
  }

  /** rt_realloc takes the path that copies. */
  ghost predicate Moves(s: Slab, b: Block, size: nat, base: int, top: int)
    requires Inv(s, base, top)
  {
    && size > 0 && !(b.Chunk? && Length(s, b) == Wanted(b, size))
    && Malloc(s, Wanted(b, size), base, top).ptr != NULL
  }

  /**
   With the memory m before, m1 after the allocation and m2 at the end: the client finds the first bytes of the old
   block, as many as both blocks hold, and nobody else's bytes have changed.
   */
  lemma MoveCopies(s: Slab, b: Block, size: nat, base: int, top: int, m: Bytes, m1: Bytes, m2: Bytes)
    requires Inv(s, base, top) && Holds(s, b) && size < 0x1_0000_0000 && Moves(s, b, size, base, top)
    requires SamePayloads(s, m, m1)
    requires var r := Realloc(s, b, size, base, top);
             SamePayloads(r.slab, Copied(m1, Start(s, b), r.ptr, CopyCount(s, b, size)), m2)
    ensures var ptr, count := Realloc(s, b, size, base, top).ptr, CopyCount(s, b, size);
            && CopyOf(m, Start(s, b), m2, ptr, count)
            && (size <= Length(s, b) ==> count >= size)
    ensures forall c :: Holds(s, c) && c != b ==> SameBytes(m, m2, Start(s, c), Length(s, c))
  {
    hide Inv, Holds, Malloc, Free, Start, Length, Wanted, Copied, SameBytes, CopyOf;
    var w, from, count := Wanted(b, size), Start(s, b), CopyCount(s, b, size);
    WantedRange(b, size);
    Locates(s, b, base, top);
    var nb := MallocInv(s, w, base, top);
    MoveBlock(s, b, w, base, top, nb);
    var r := Malloc(s, w, base, top);
    var f, c0 := Free(r.slab, from), Copied(m1, from, r.ptr, count);
    assert Realloc(s, b, size, base, top) == Outcome(f, r.ptr);
    FewerBytes(m, m1, from, Length(s, b), count);
    FewerBytes(c0, m2, r.ptr, Length(f, nb), count);
    CopyArrives(m, m1, m2, from, r.ptr, count);
    forall c | Holds(s, c) && c != b ensures SameBytes(m, m2, Start(s, c), Length(s, c)) {
      MallocPlaces(s, w, base, top, c);
      BlocksApart(r.slab, c, nb, base, top);
      CopySpares(m, m1, m2, from, r.ptr, count, Start(s, c), Length(s, c));
    }
  }

  lemma AllPlacesFree(s: Slab, b: Block, base: int, top: int)
    requires Inv(s, base, top) && Holds(s, b)
    ensures Start(s, b) >= 0
    ensures var f := Free(s, Start(s, b));
            forall c :: c != b && Holds(s, c) ==> Start(f, c) == Start(s, c) && Length(f, c) == Length(s, c)
  {
    hide Inv, Holds, Free, Start, Length;
    Locates(s, b, base, top);
    forall c | c != b && Holds(s, c)
      ensures var f := Free(s, Start(s, b)); Start(f, c) == Start(s, c) && Length(f, c) == Length(s, c)
    {
      FreePlaces(s, b, base, top, c);
    }
  }

  // ---------------------------------------------------------------- when rt_malloc succeeds

  /** A zone of the class has a free chunk. */
  predicate HasListed(s: Slab, size: int) {
    0 <= ClassOf(size).index < |s.lists| && s.lists[ClassOf(size).index] != []
  }

  /**
   rt_malloc succeeds if and only if a zone of its class is listed, a zone is parked, or enough pages are free in a
   row.
   */
  lemma MallocSucceeds(s: Slab, size: nat, base: int, top: int)
    requires Inv(s, base, top) && size < 0x1_0000_0000
    ensures Malloc(s, size, base, top).ptr != NULL <==>
            if size == 0 then false
            else if size >= Limit(s) then PagesFor(size) > 0 && exists q :: P.AllFree(s.runs, q, PagesFor(size))
            else HasListed(s, size) || s.parked != [] || exists q :: P.AllFree(s.runs, q, s.cnt)
  {
    hide P.AllFree, P.AllocAt, P.Alloc, ClassOf, PagesFor, Limit, Zones.NewZone, Zones.Offset, ZonesOk, P.Has;
    if size >= Limit(s) {
      if PagesFor(size) > 0 {
        P.AllocSucceeds(s.runs, PagesFor(size), base);
        AllocAtLeast(s, PagesFor(size), base, top);
      }
    } else if size > 0 {
      SmallFacts(s, size, base, top);
      P.AllocSucceeds(s.runs, s.cnt, base);
      AllocAtLeast(s, s.cnt, base, top);
    }
  }

  lemma AllocAtLeast(s: Slab, n: int, base: int, top: int)
    requires Inv(s, base, top) && n > 0
    ensures P.AllocAt(s.runs, n) == P.NULL || P.AllocAt(s.runs, n) >= 0
  {
    hide P.AllocAt, P.Alloc, P.Has, ZonesOk;
    if P.AllocAt(s.runs, n) != P.NULL {
      AllocFacts(s, n, base, top);
    }
  }

  // ---------------------------------------------------------------- alignment

  /**
   A request for a power of two gets an address that it divides: always if it is no longer than a page, and
   otherwise exactly if the number of its pages divides the first page of its zone or block.
   */
  lemma PowersAligned(s: Slab, size: nat, base: int, top: int)
    requires Inv(s, base, top) && size < 0x1_0000_0000 && Zones.PowerOfTwo(size)
    requires Malloc(s, size, base, top).ptr != NULL
    ensures size > 0 && Malloc(s, size, base, top).ptr >= 0
    ensures FirstPage(s, size, base, top) >= 0
    ensures Zones.Divides(size, Malloc(s, size, base, top).ptr) <==>
            size <= PAGE || Zones.Divides(size / PAGE, FirstPage(s, size, base, top))
  {
    hide Inv, Zones.PowerOfTwo, Zones.Divides, ClassOf, P.AllocAt, P.Alloc, PagesFor;
    Zones.PowerPositive(size);
    if size >= Limit(s) {
      LimitRange(s, base, top);
      Zones.LongAligned(P.AllocAt(s.runs, PagesFor(size)), size);
    } else {
      SmallAligned(s, size, base, top);
    }
  }

  lemma LimitRange(s: Slab, base: int, top: int)
    requires Inv(s, base, top)
    ensures PAGE < Limit(s) <= LIMIT
  {
  }

  lemma SmallAligned(s: Slab, size: nat, base: int, top: int)
    requires Inv(s, base, top) && Zones.PowerOfTwo(size) && 0 < size < Limit(s)
    requires Malloc(s, size, base, top).ptr != NULL
    ensures Malloc(s, size, base, top).ptr >= 0 && FirstPage(s, size, base, top) >= 0
    ensures Zones.Divides(size, Malloc(s, size, base, top).ptr) <==>
            size <= PAGE || Zones.Divides(size / PAGE, FirstPage(s, size, base, top))
  {
    hide Zones.PowerOfTwo, Zones.Divides, ClassOf, P.AllocAt, P.Alloc, PagesFor, Zones.Offset, Zones.Live;
    hide Zones.TakeChunk, Zones.NextChunk, Zones.NewZone, ZonesOk, PagesOk, Zones.Addr, ChunkOf;
    LimitRange(s, base, top);
    SmallFacts(s, size, base, top);
    var c, r := ClassOf(size), Malloc(s, size, base, top).slab;
    var b := MallocSmallInv(s, size, base, top);
    ZoneInside(r, b.p, base, top);
    Zones.PowerAddr(b.p, r.zones[b.p], size, b.i, ZoneSize(r));
  }

  lemma ZoneInside(s: Slab, p: nat, base: int, top: int)
    requires Inv(s, base, top) && p in s.zones
    ensures Zones.Inside(s.zones[p], ZoneSize(s))
  {
    assert ZoneOk(s, p);
  }

  // ---------------------------------------------------------------- whole runs

  datatype Call = DoMalloc(size: nat) | DoFree(b: Block) | DoRealloc(b: Block, size: nat)

  ghost predicate Legal(s: Slab, c: Call) {
    match c
    case DoMalloc(size) => size < 0x1_0000_0000
    case DoFree(b) => Holds(s, b)
    case DoRealloc(b, size) => Holds(s, b) && size < 0x1_0000_0000
  }

  ghost predicate Steps(s: Slab, c: Call, s': Slab, base: int, top: int) {
    && Inv(s, base, top) && Legal(s, c)
    && match c {
       case DoMalloc(size) => s' == Malloc(s, size, base, top).slab
       case DoFree(b) => Start(s, b) >= 0 && s' == Free(s, Start(s, b))
       case DoRealloc(b, size) => s' == Realloc(s, b, size, base, top).slab
       }
  }

  lemma StepInv(s: Slab, c: Call, s': Slab, base: int, top: int)
    requires Steps(s, c, s', base, top)
    ensures Inv(s', base, top)
  {
    hide Inv, Holds, Malloc, Free, Realloc, Start;
    match c
    case DoMalloc(size) => var b := MallocInv(s, size, base, top);
    case DoFree(b) => FreeInv(s, b, base, top);
    case DoRealloc(b, size) => var nb := ReallocInv(s, b, size, base, top);
  }

  ghost predicate Reaches(s: Slab, trace: seq<(Call, Slab)>, base: int, top: int)
    decreases |trace|
  {
    trace == [] || (Steps(s, trace[0].0, trace[0].1, base, top) && Reaches(trace[0].1, trace[1..], base, top))
  }

  /** The invariant holds in every reachable state. */
  lemma {:induction false} RunInv(s: Slab, trace: seq<(Call, Slab)>, base: int, top: int, k: nat)
    requires Reaches(s, trace, base, top) && k < |trace|
    ensures Inv(trace[k].1, base, top)
    decreases |trace|
  {
    hide Inv, Steps;
    StepInv(s, trace[0].0, trace[0].1, base, top);
    if k > 0 {
      RunInv(trace[0].1, trace[1..], base, top, k - 1);
    }
  }

  lemma MallocParks(s: Slab, size: nat, base: int, top: int)
    requires Inv(s, base, top)
    ensures |Malloc(s, size, base, top).slab.parked| <= |s.parked|
  {
    hide Inv, ClassOf, Zones.NewZone, Zones.TakeChunk, Zones.Offset;
  }

  lemma FreeParks(s: Slab, ptr: nat)
    requires |s.parked| <= THRESH
    ensures |Free(s, ptr).parked| <= THRESH
  {
    hide Located, Zones.PutChunk, P.Free, Removed;
  }

  /** At most two zones without clients are ever kept. */
  lemma {:induction false} FewParked(s: Slab, trace: seq<(Call, Slab)>, base: int, top: int, k: nat)
    requires Reaches(s, trace, base, top) && k < |trace| && |s.parked| <= THRESH
    ensures |trace[k].1.parked| <= THRESH
    decreases |trace|
  {
    hide Inv, Malloc, Free, Holds, Start, Length, Wanted;
    var c, s' := trace[0].0, trace[0].1;
    StepParks(s, c, s', base, top);
    if k > 0 {
      FewParked(s', trace[1..], base, top, k - 1);
    }
  }

  lemma StepParks(s: Slab, c: Call, s': Slab, base: int, top: int)
    requires Steps(s, c, s', base, top) && |s.parked| <= THRESH
    ensures |s'.parked| <= THRESH
  {
    hide Inv, Malloc, Free, Holds, Start, Length, Wanted;
    match c
    case DoMalloc(size) => MallocParks(s, size, base, top);
    case DoFree(b) => FreeParks(s, Start(s, b));
    case DoRealloc(b, size) =>
      Locates(s, b, base, top);
      MallocParks(s, Wanted(b, size), base, top);
      FreeParks(s, Start(s, b));
      FreeParks(Malloc(s, Wanted(b, size), base, top).slab, Start(s, b));
  }

  /** zone_page_cnt of a heap of n pages: 32, 64 or 128 kilobytes. */
  function ZoneCount(n: int): (cnt: nat)
    ensures cnt == 8 || cnt == 16 || cnt == 32
  {
    if n <= 16384 then 8 else if n <= 32768 then 16 else 32
  }

  /** How many pages the descriptors of n pages take. */
  function Descriptors(n: int): int {
    (4 * n + PAGE - 1) / PAGE
  }

  /** rt_system_heap_init of n pages from page `first` on: the descriptors take the first pages. */
  function InitSlab(first: int, n: int): Slab {
    Slab(ZoneCount(n), P.Alloc([P.Run(first, n)], Descriptors(n)), map[], [], seq(NZONES, i => []),
         map[], map[], map[])
  }

  lemma InitRuns(first: int, n: int)
    requires n > 0
    ensures var d, r := Descriptors(n), P.Alloc([P.Run(first, n)], Descriptors(n));
            && 0 < d <= n && P.AllocAt([P.Run(first, n)], d) == first
            && r == (if d < n then [P.Run(first + d, n - d)] else [])
            && P.Ok(r, first + d) && forall p :: P.Has(r, p) <==> first + d <= p < first + n
  {
    var d, r := Descriptors(n), P.Alloc([P.Run(first, n)], Descriptors(n));
    assert [P.Run(first, n)][1..] == [];
    if d < n {
      assert r == [P.Run(first + d, n - d)] && r[1..] == [];
      assert P.Ok(r[1..], first + n + 1);
      forall p ensures P.Has(r, p) <==> first + d <= p < first + n {
        assert !P.Has(r[1..], p);
      }
    }
  }

  lemma InitInv(first: int, n: int)
    requires 0 <= first && n > 0
    ensures Inv(InitSlab(first, n), first + Descriptors(n), first + n)
  {
    var s := InitSlab(first, n);
    InitRuns(first, n);
    hide P.Has, P.Ok, P.Alloc, Descriptors;
    forall i | 0 <= i < NZONES ensures ListOk(s.zones, s.lists[i], i) {
      assert s.lists[i] == [];
    }
  }

  /**
   The comment on the allocator promises that every power of two is aligned to itself.  In every heap of at least
   three pages the first request for 8192 bytes is, as a block of pages or, with zones of more than 32 kilobytes, as
   a chunk, exactly if the first page behind the descriptors is even.
   */
  lemma FirstAligned(first: int, n: int)
    requires 0 < first && n >= 3
    ensures var base := first + Descriptors(n);
            && Inv(InitSlab(first, n), base, first + n) && Zones.PowerOfTwo(8192)
            && var ptr := Malloc(InitSlab(first, n), 8192, base, first + n).ptr;
               ptr >= 0 && (Zones.Divides(8192, ptr) <==> base % 2 == 0)
  {
    hide Zones.PowerOfTwo, Zones.Divides, Zones.NewZone, Zones.Offset, ClassOf, Inv, P.Has, P.AllFree;
    var s, base := InitSlab(first, n), first + Descriptors(n);
    InitInv(first, n);
    Zones.SmallPowers();
    FirstRun(first, n);
    if s.cnt > 8 {
      SmallFacts(s, 8192, base, first + n);
    }
    assert FirstPage(s, 8192, base, first + n) == base;
    MallocSucceeds(s, 8192, base, first + n);
    PowersAligned(s, 8192, base, first + n);
    Even(base);
  }

  /** So the promise fails: page 2 holds the descriptors of a heap of 100 pages, and page 3 begins the block. */
  lemma Misaligned()
    ensures Inv(InitSlab(2, 100), 3, 102) && Zones.PowerOfTwo(8192)
    ensures var ptr := Malloc(InitSlab(2, 100), 8192, 3, 102).ptr; ptr >= 0 && !Zones.Divides(8192, ptr)
  {
    hide Zones.PowerOfTwo, Zones.Divides, Inv, Malloc, InitSlab;
    FirstAligned(2, 100);
  }

  lemma Even(p: nat)
    ensures Zones.Divides(2, p) <==> p % 2 == 0
  {
    if p % 2 == 0 {
      assert p == 2 * (p / 2);
    }
  }

  lemma FirstRun(first: int, n: int)
    requires 0 < first && n >= 3
    ensures var s, base := InitSlab(first, n), first + Descriptors(n);
            && PagesFor(8192) == 2 && P.AllocAt(s.runs, 2) == base && P.AllFree(s.runs, base, 2)
            && (s.cnt > 8 ==> P.AllocAt(s.runs, s.cnt) == base && P.AllFree(s.runs, base, s.cnt))
  {
    hide P.Has;
    InitRuns(first, n);
    var d := Descriptors(n);
    assert 4096 * d <= 4 * n + 4095;
  }
}
