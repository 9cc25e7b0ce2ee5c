/**
 The page allocator of src/slab.c as it works on memory: the first page of
 every free run holds the run's length and a pointer to the next run.
 */
module PageList {

  import opened PagesSpec

  /** The heads in the free pages, by page number. */
  datatype Heads = Heads(next: map<int, int>, page: map<int, int>)

  /** The pointers from `start` run through the heads of these runs. */
  ghost predicate Linked(m: Heads, start: int, runs: seq<Run>)
    decreases |runs|
  {
    if runs == [] then start == NULL
    else
      && start == runs[0].at && start != NULL && start in m.next && start in m.page && m.page[start] == runs[0].len
      && Linked(m, m.next[start], runs[1..])
  }

  predicate Node(m: Heads, r: Run, next: int) {
    r.at != NULL && r.at in m.next && r.at in m.page && m.page[r.at] == r.len && m.next[r.at] == next
  }

  function First(runs: seq<Run>): int {
    if runs == [] then NULL else runs[0].at
  }

  lemma {:induction false} LinkedAt(m: Heads, start: int, runs: seq<Run>, i: nat)
    requires Linked(m, start, runs) && i < |runs|
    ensures Node(m, runs[i], First(runs[i + 1..])) && Linked(m, runs[i].at, runs[i..])
    ensures Linked(m, First(runs[i + 1..]), runs[i + 1..])
    decreases |runs|
  {
    if i == 0 {
      assert runs[0..] == runs;
    } else {
      LinkedAt(m, m.next[start], runs[1..], i - 1);
      assert runs[1..][i - 1] == runs[i] && runs[1..][i - 1..] == runs[i..] && runs[1..][i..] == runs[i + 1..];
    }
  }

  lemma {:induction false} LinkedFrame(m: Heads, m': Heads, start: int, runs: seq<Run>)
    requires Linked(m, start, runs)
    requires forall j :: 0 <= j < |runs| && Node(m, runs[j], First(runs[j + 1..])) ==>
               Node(m', runs[j], First(runs[j + 1..]))
    ensures Linked(m', start, runs)
    decreases |runs|
  {
    if runs != [] {
      LinkedAt(m, start, runs, 0);
      forall j | 0 <= j < |runs| - 1 && Node(m, runs[1..][j], First(runs[1..][j + 1..]))
        ensures Node(m', runs[1..][j], First(runs[1..][j + 1..]))
      {
        assert runs[1..][j] == runs[j + 1] && runs[1..][j + 1..] == runs[j + 2..];
        assert Node(m, runs[j + 1], First(runs[j + 2..]));
      }
      LinkedFrame(m, m', m.next[start], runs[1..]);
    }
  }

  /** Where run j points to when the first i runs lead to `rest`. */
  function Succ(runs: seq<Run>, j: nat, i: nat, rest: seq<Run>): int
    requires i <= |runs|
  {
    if j + 1 < i then runs[j + 1].at else First(rest)
  }

  /** A list whose first i runs lead to another rest. */
  lemma {:induction false} Relink(m: Heads, runs: seq<Run>, i: nat, rest: seq<Run>)
    requires i <= |runs| && Linked(m, First(rest), rest)
    requires forall j :: 0 <= j < i ==> Node(m, runs[j], Succ(runs, j, i, rest))
    ensures Linked(m, First(runs[..i] + rest), runs[..i] + rest)
    decreases i
  {
    if i == 0 {
      assert runs[..0] + rest == rest;
    } else {
      assert Node(m, runs[i - 1], Succ(runs, i - 1, i, rest));
      var rest' := [runs[i - 1]] + rest;
      assert rest'[1..] == rest;
      forall j | 0 <= j < i - 1 ensures Node(m, runs[j], Succ(runs, j, i - 1, rest')) {
        assert Node(m, runs[j], Succ(runs, j, i, rest));
      }
      Relink(m, runs, i - 1, rest');
      assert runs[..i - 1] + rest' == runs[..i] + rest;
    }
  }

  /** The runs lie one behind the other. */
  lemma {:induction false} Before(runs: seq<Run>, lo: int, i: nat, j: nat)
    requires Ok(runs, lo) && i < j < |runs|
    ensures lo <= runs[i].at < End(runs[i]) < runs[j].at && runs[j].len > 0
  {
    if i > 0 {
      Before(runs[1..], End(runs[0]) + 1, i - 1, j - 1);
    } else {
      After(runs[1..], End(runs[0]) + 1, j - 1);
    }
  }

  lemma {:induction false} After(runs: seq<Run>, lo: int, j: nat)
    requires Ok(runs, lo) && j < |runs|
    ensures lo <= runs[j].at && runs[j].len > 0
  {
    if j > 0 {
      After(runs[1..], End(runs[0]) + 1, j - 1);
    }
  }

  /** What the writes of one operation leave alone: every head but those at x, y and z. */
  ghost predicate Changed(m: Heads, m': Heads, x: int, y: int, z: int) {
    forall p :: p != x && p != y && p != z && p in m.next && p in m.page ==>
      p in m'.next && p in m'.page && m'.next[p] == m.next[p] && m'.page[p] == m.page[p]
  }

  /** Writing *prev and heads at x and y, both behind the run before position i, puts another rest behind that run. */
  lemma Rewrite(m: Heads, m': Heads, runs: seq<Run>, lo: int, i: nat, rest: seq<Run>, x: int, y: int)
    requires Ok(runs, lo) && Linked(m, First(runs), runs) && i <= |runs| && Linked(m', First(rest), rest)
    requires i > 0 ==> x >= End(runs[i - 1]) && y >= End(runs[i - 1])
    requires Changed(m, m', x, y, if i == 0 then NULL else runs[i - 1].at)
    requires i > 0 ==> Node(m', runs[i - 1], First(rest))
    ensures Linked(m', First(runs[..i] + rest), runs[..i] + rest)
  {
    forall j | 0 <= j < i ensures Node(m', runs[j], Succ(runs, j, i, rest)) {
      if j + 1 < i {
        LinkedAt(m, First(runs), runs, j);
        Before(runs, lo, j, i - 1);
        assert runs[j + 1..][0] == runs[j + 1];
        After(runs, lo, i - 1);
      }
    }
    Relink(m', runs, i, rest);
  }

  // ---------------------------------------------------------------- the loops

  predicate TooShort(r: Run, n: int) {
    r.len < n
  }

  lemma {:induction false} AllocSkip(runs: seq<Run>, n: int, i: nat)
    requires i <= |runs| && forall j :: 0 <= j < i ==> TooShort(runs[j], n)
    ensures Alloc(runs, n) == runs[..i] + Alloc(runs[i..], n) && AllocAt(runs, n) == AllocAt(runs[i..], n)
    decreases i
  {
    if i == 0 {
      assert runs[0..] == runs;
    } else {
      assert TooShort(runs[0], n);
      AllocSkip(runs[1..], n, i - 1);
      assert runs[1..][i - 1..] == runs[i..] && [runs[0]] + runs[1..][..i - 1] == runs[..i];
    }
  }

  /** The loop of rt_page_free goes past a run that lies wholly before the pages and does not touch them. */
  predicate Passed(r: Run, a: int, n: int) {
    End(r) != a && r.at != a + n && r.at <= a + n
  }

  lemma FreePassed(runs: seq<Run>, a: int, n: int)
    requires runs != [] && Passed(runs[0], a, n)
    ensures Free(runs, a, n) == [runs[0]] + Free(runs[1..], a, n)
  {
  }

  lemma {:induction false} FreeSkip(runs: seq<Run>, a: int, n: int, i: nat)
    requires i <= |runs| && forall j :: 0 <= j < i ==> Passed(runs[j], a, n)
    ensures Free(runs, a, n) == runs[..i] + Free(runs[i..], a, n)
    decreases i
  {
    hide Free;
    if i == 0 {
      assert runs[0..] == runs;
    } else {
      assert Passed(runs[0], a, n);
      FreePassed(runs, a, n);
      FreeSkip(runs[1..], a, n, i - 1);
      assert runs[1..][i - 1..] == runs[i..] && [runs[0]] + runs[1..][..i - 1] == runs[..i];
    }
  }

  /** The head before position i of the list, or the list itself. */
  function Previous(runs: seq<Run>, i: nat): int
    requires i <= |runs|
  {
    if i == 0 then NULL else runs[i - 1].at
  }

  /** The position of the first run of at least n pages, or |runs|. */
  function LongAt(runs: seq<Run>, n: int): (i: nat)
    ensures i <= |runs| && (i < |runs| ==> !TooShort(runs[i], n))
    ensures forall j :: 0 <= j < i ==> TooShort(runs[j], n)
  {
    if runs == [] || !TooShort(runs[0], n) then 0 else 1 + LongAt(runs[1..], n)
  }

  lemma LongAtIs(runs: seq<Run>, n: int, i: nat)
    requires i <= |runs| && (i < |runs| ==> !TooShort(runs[i], n)) && forall j :: 0 <= j < i ==> TooShort(runs[j], n)
    ensures LongAt(runs, n) == i
  {
  }

  /** The position of the first run that the loop of rt_page_free does not pass, or |runs|. */
  function PlaceAt(runs: seq<Run>, a: int, n: int): (i: nat)
    ensures i <= |runs| && (i < |runs| ==> !Passed(runs[i], a, n))
    ensures forall j :: 0 <= j < i ==> Passed(runs[j], a, n)
  {
    if runs == [] || !Passed(runs[0], a, n) then 0 else 1 + PlaceAt(runs[1..], a, n)
  }

  lemma PlaceAtIs(runs: seq<Run>, a: int, n: int, i: nat)
    requires i <= |runs| && (i < |runs| ==> !Passed(runs[i], a, n)) && forall j :: 0 <= j < i ==> Passed(runs[j], a, n)
    ensures PlaceAt(runs, a, n) == i
  {
  }

  /** A null pointer is the end of the list. */
  lemma NullEnds(m: Heads, start: int, runs: seq<Run>, i: nat)
    requires Linked(m, start, runs) && i <= |runs| && First(runs[i..]) == NULL
    ensures i == |runs|
  {
    if i < |runs| {
      LinkedAt(m, start, runs, i);
    }
  }

  /** Released pages lie behind every run that the loop has passed. */
  lemma {:induction false} PassedEnds(runs: seq<Run>, a: int, n: int, lo: int, i: nat)
    requires Ok(runs, lo) && n > 0 && NoneFree(runs, a, n) && i < |runs| && Passed(runs[i], a, n)
    ensures End(runs[i]) < a
  {
    if i == 0 {
      Apart(runs, a, n);
    } else {
      RestApart(runs, a, n);
      PassedEnds(runs[1..], a, n, End(runs[0]) + 1, i - 1);
    }
  }

  lemma {:induction false} NotFreeAt(runs: seq<Run>, a: int, n: int, lo: int, i: nat)
    requires Ok(runs, lo) && n > 0 && NoneFree(runs, a, n) && i < |runs|
    ensures End(runs[i]) <= a || a + n <= runs[i].at
  {
    if i == 0 {
      Apart(runs, a, n);
    } else {
      RestApart(runs, a, n);
      NotFreeAt(runs[1..], a, n, End(runs[0]) + 1, i - 1);
    }
  }

  class Pages {
    var first: int  // rt_page_list
    var next: map<int, int>
    var page: map<int, int>
    ghost var runs: seq<Run>

    function M(): Heads
      reads this
    {
      Heads(next, page)
    }

    ghost predicate Valid(lo: int)
      reads this
    {
      0 <= lo && Ok(runs, lo) && first == First(runs) && Linked(M(), first, runs)
    }

    /** rt_page_init */
    constructor (addr: int, n: int)
      requires 0 <= addr && n > 0
      ensures Valid(addr) && runs == PagesSpec.Free([], addr, n)
    {
      first, next, page := addr, map[addr := NULL], map[addr := n];
      runs := [Run(addr, n)];
      new;
      assert [Run(addr, n)][1..] == [];
      assert Linked(M(), NULL, []);
    }

    /** *prev = x, where prev is the list itself or the run before position i. */
    method SetPrev(prev: int, x: int)
      requires prev != NULL ==> prev in next
      modifies this`first, this`next
      ensures first == if prev == NULL then x else old(first)
      ensures next == if prev == NULL then old(next) else old(next)[prev := x]
    {
      if prev == NULL {
        first := x;
      } else {
        next := next[prev := x];
      }
    }

    /** The run at position i, with head b, loses its first n pages. */
    method Cut(prev: int, b: int, n: int, ghost i: nat, ghost lo: int)
      requires Valid(lo) && i < |runs| && b == runs[i].at && 0 < n <= runs[i].len
      requires prev == Previous(runs, i)
      modifies this
      ensures Linked(M(), first, runs) && first == First(runs)
      ensures runs == old(runs)[..i] + PagesSpec.Alloc(old(runs)[i..], n)
    {
      hide Linked, Ok;
      ghost var m, rest := M(), PagesSpec.Alloc(runs[i..], n);
      LinkedAt(m, first, runs, i);
      After(runs, lo, i);
      assert runs[i..][1..] == runs[i + 1..];
      if i > 0 {
        LinkedAt(m, first, runs, i - 1);
        Before(runs, lo, i - 1, i);
      }
      if page[b] > n {
        var k := b + n;
        next := next[k := next[b]];
        page := page[k := page[b] - n];
        SetPrev(prev, k);
        CutLinked(m, M(), runs, lo, i, n, k);
      } else {
        SetPrev(prev, next[b]);
        TailKept(m, M(), runs, lo, i + 1, b, b, prev);
      }
      Rewrite(m, M(), runs, lo, i, rest, b, b + n);
      runs := runs[..i] + rest;
    }

    /** rt_page_alloc */
    method Alloc(n: nat, ghost lo: int) returns (b: int)
      requires Valid(lo)
      modifies this
      ensures Valid(lo)
      ensures n == 0 ==> b == NULL && runs == old(runs)
      ensures n > 0 ==> b == AllocAt(old(runs), n) && runs == PagesSpec.Alloc(old(runs), n)
    {
      if n == 0 {
        return NULL;
      }
      AllocOk(runs, n, lo);
      var prev;
      prev, b := FindLong(n, lo);
      ghost var i := LongAt(runs, n);
      AllocSkip(runs, n, i);
      if b != NULL {
        assert runs[i..][0] == runs[i];
        Cut(prev, b, n, i, lo);
      } else {
        assert runs[i..] == [] && runs[..i] + [] == runs;
      }
    }

    /** The loop of rt_page_alloc: the first run of at least n pages. */
    method FindLong(n: nat, ghost lo: int) returns (prev: int, b: int)
      requires Valid(lo)
      ensures b == First(runs[LongAt(runs, n)..]) && prev == Previous(runs, LongAt(runs, n))
      ensures b == NULL <==> LongAt(runs, n) == |runs|
    {
      hide Linked, Ok;
      prev, b := NULL, first;
      ghost var i := 0;
      assert runs[0..] == runs;
      while b != NULL
        invariant 0 <= i <= |runs| && b == First(runs[i..]) && prev == Previous(runs, i)
        invariant forall j :: 0 <= j < i ==> TooShort(runs[j], n)
        decreases |runs| - i
      {
        LinkedAt(M(), first, runs, i);
        if page[b] >= n {
          LongAtIs(runs, n, i);
          return;
        }
        prev, b, i := b, next[b], i + 1;
      }
      NullEnds(M(), first, runs, i);
      LongAtIs(runs, n, i);
    }

    /** rt_page_free */
    method Free(a: int, n: int, ghost lo: int)
      requires Valid(lo) && 0 <= a && n > 0 && NoneFree(runs, a, n)
      modifies this
      ensures Valid(Least(lo, a)) && runs == PagesSpec.Free(old(runs), a, n)
    {
      hide Linked, Ok;
      FreeOk(runs, a, n, lo);
      var prev, b := FindPlace(a, n, lo);
      ghost var i := PlaceAt(runs, a, n);
      FreeSkip(runs, a, n, i);
      if i < |runs| {
        LinkedAt(M(), first, runs, i);
      }
      if b != NULL && b + page[b] == a {
        Extend(b, a, n, i, lo);
      } else {
        Insert(prev, b, a, n, i, lo);
      }
    }

    /** The loop of rt_page_free: the first run that touches the pages or lies behind them. */
    method FindPlace(a: int, n: int, ghost lo: int) returns (prev: int, b: int)
      requires Valid(lo) && n > 0 && NoneFree(runs, a, n)
      ensures b == First(runs[PlaceAt(runs, a, n)..]) && prev == Previous(runs, PlaceAt(runs, a, n))
      ensures b == NULL <==> PlaceAt(runs, a, n) == |runs|
    {
      hide Linked, Ok;
      prev, b := NULL, first;
      ghost var i := 0;
      assert runs[0..] == runs;
      while b != NULL
        invariant 0 <= i <= |runs| && b == First(runs[i..]) && prev == Previous(runs, i)
        invariant forall j :: 0 <= j < i ==> Passed(runs[j], a, n)
        decreases |runs| - i
      {
        LinkedAt(M(), first, runs, i);
        if b + page[b] == a || b == a + n || b > a + n {
          PlaceAtIs(runs, a, n, i);
          return;
        }
        prev, b, i := b, next[b], i + 1;
      }
      NullEnds(M(), first, runs, i);
      PlaceAtIs(runs, a, n, i);
    }

    /** The pages follow the run at position i, and may close the gap to the next one. */
    method Extend(b: int, a: int, n: int, ghost i: nat, ghost lo: int)
      requires Valid(lo) && i < |runs| && b == runs[i].at && End(runs[i]) == a && n > 0
      modifies this
      ensures Linked(M(), first, runs) && first == First(runs)
      ensures runs == old(runs)[..i] + PagesSpec.Free(old(runs)[i..], a, n)
    {
      hide Linked, Ok;
      ghost var m, rest := M(), PagesSpec.Free(runs[i..], a, n);
      LinkedAt(m, first, runs, i);
      After(runs, lo, i);
      if i + 1 < |runs| {
        LinkedAt(m, first, runs, i + 1);
      }
      page := page[b := page[b] + n];
      if b + page[b] == next[b] {
        page := page[b := page[b] + page[next[b]]];
        next := next[b := next[next[b]]];
        ExtendLinked(m, M(), runs, lo, i, a, n, 2);
      } else {
        ExtendLinked(m, M(), runs, lo, i, a, n, 1);
      }
      if i > 0 {
        LinkedAt(m, first, runs, i - 1);
        Before(runs, lo, i - 1, i);
        assert runs[i..][0] == runs[i];
      }
      Rewrite(m, M(), runs, lo, i, rest, b, b);
      runs := runs[..i] + rest;
    }

    /** The pages become a run of their own before position i, or the beginning of the run there. */
    method Insert(prev: int, b: int, a: int, n: int, ghost i: nat, ghost lo: int)
      requires Valid(lo) && 0 <= a && n > 0 && NoneFree(runs, a, n) && i <= |runs| && b == First(runs[i..])
      requires prev == Previous(runs, i)
      requires forall j :: 0 <= j < i ==> Passed(runs[j], a, n)
      requires i < |runs| ==> b == runs[i].at && End(runs[i]) != a && !Passed(runs[i], a, n)
      modifies this
      ensures Linked(M(), first, runs) && first == First(runs)
      ensures runs == old(runs)[..i] + PagesSpec.Free(old(runs)[i..], a, n)
    {
      hide Linked, Ok;
      ghost var m, rest := M(), PagesSpec.Free(runs[i..], a, n);
      if i < |runs| {
        LinkedAt(m, first, runs, i);
        After(runs, lo, i);
        NotFreeAt(runs, a, n, lo, i);
      }
      if i > 0 {
        LinkedAt(m, first, runs, i - 1);
        assert Passed(runs[i - 1], a, n);
        PassedEnds(runs, a, n, lo, i - 1);
        After(runs, lo, i - 1);
      }
      if b != NULL && b == a + n {
        page := page[a := page[b] + n];
        next := next[a := next[b]];
      } else {
        page := page[a := n];
        next := next[a := b];
      }
      SetPrev(prev, a);
      InsertLinked(m, M(), runs, lo, i, a, n);
      Rewrite(m, M(), runs, lo, i, rest, a, a);
      runs := runs[..i] + rest;
    }
  }

  /** The heads behind position i are untouched by writes before them. */
  lemma TailKept(m: Heads, m': Heads, runs: seq<Run>, lo: int, i: nat, x: int, y: int, prev: int)
    requires Ok(runs, lo) && Linked(m, First(runs), runs) && 0 < i <= |runs|
    requires Changed(m, m', x, y, prev) && x < End(runs[i - 1]) && y < End(runs[i - 1]) && prev < End(runs[i - 1])
    ensures Linked(m', First(runs[i..]), runs[i..])
  {
    LinkedAt(m, First(runs), runs, i - 1);
    forall j | 0 <= j < |runs| - i && Node(m, runs[i..][j], First(runs[i..][j + 1..]))
      ensures Node(m', runs[i..][j], First(runs[i..][j + 1..]))
    {
      assert runs[i..][j] == runs[i + j];
      Before(runs, lo, i - 1, i + j);
    }
    LinkedFrame(m, m', First(runs[i..]), runs[i..]);
  }

  /** A run cut short is linked to the runs behind it. */
  lemma CutLinked(m: Heads, m': Heads, runs: seq<Run>, lo: int, i: nat, n: int, k: int)
    requires Ok(runs, lo) && Linked(m, First(runs), runs) && i < |runs| && 0 < n < runs[i].len && k == runs[i].at + n
    requires 0 <= lo
    requires k in m'.next && k in m'.page && m'.next[k] == First(runs[i + 1..]) && m'.page[k] == runs[i].len - n
    requires Changed(m, m', k, k, if i == 0 then NULL else runs[i - 1].at)
    ensures Linked(m', First(Alloc(runs[i..], n)), Alloc(runs[i..], n))
  {
    After(runs, lo, i);
    if i > 0 {
      Before(runs, lo, i - 1, i);
    }
    TailKept(m, m', runs, lo, i + 1, k, k, if i == 0 then NULL else runs[i - 1].at);
    assert runs[i..][1..] == runs[i + 1..] && Alloc(runs[i..], n)[1..] == runs[i + 1..];
  }

  /** A run that has grown, over the gap to the next one if d is 2, is linked to the runs behind it. */
  lemma ExtendLinked(m: Heads, m': Heads, runs: seq<Run>, lo: int, i: nat, a: int, n: int, d: nat)
    requires Ok(runs, lo) && Linked(m, First(runs), runs) && i < |runs| && End(runs[i]) == a && n > 0 && 0 <= lo
    requires d == if i + 1 < |runs| && a + n == runs[i + 1].at then 2 else 1
    requires Changed(m, m', runs[i].at, runs[i].at, runs[i].at)
    requires Node(m', Run(runs[i].at, runs[i].len + n + if d == 2 then runs[i + 1].len else 0), First(runs[i + d..]))
    ensures Linked(m', First(Free(runs[i..], a, n)), Free(runs[i..], a, n))
  {
    After(runs, lo, i);
    if d == 2 {
      Before(runs, lo, i, i + 1);
    }
    TailKept(m, m', runs, lo, i + d, runs[i].at, runs[i].at, runs[i].at);
    assert runs[i..][1..] == runs[i + 1..];
    assert d == 2 ==> runs[i..][2..] == runs[i + 2..];
    assert Free(runs[i..], a, n)[1..] == runs[i + d..];
  }

  /** A new head at a is linked to the runs behind it. */
  lemma InsertLinked(m: Heads, m': Heads, runs: seq<Run>, lo: int, i: nat, a: int, n: int)
    requires Ok(runs, lo) && Linked(m, First(runs), runs) && i <= |runs| && n > 0 && 0 <= a && 0 <= lo
    requires i < |runs| ==> End(runs[i]) != a && a + n <= runs[i].at
    requires i > 0 ==> End(runs[i - 1]) < a
    requires Changed(m, m', a, a, if i == 0 then NULL else runs[i - 1].at)
    requires i < |runs| && runs[i].at == a + n ==> Node(m', Run(a, runs[i].len + n), First(runs[i + 1..]))
    requires !(i < |runs| && runs[i].at == a + n) ==> Node(m', Run(a, n), First(runs[i..]))
    ensures Linked(m', First(Free(runs[i..], a, n)), Free(runs[i..], a, n))
  {
    var prev := if i == 0 then NULL else runs[i - 1].at;
    if i < |runs| {
      After(runs, lo, i);
      if i > 0 {
        Before(runs, lo, i - 1, i);
      }
      LinkedAt(m, First(runs), runs, i);
      TailKept(m, m', runs, lo, i + 1, a, a, prev);
      assert runs[i..][1..] == runs[i + 1..] && runs[i..][0] == runs[i];
      if runs[i].at == a + n {
        assert Free(runs[i..], a, n)[1..] == runs[i + 1..];
      } else {
        assert Node(m', runs[i], First(runs[i + 1..]));
        assert Linked(m', runs[i].at, runs[i..]);
        assert Free(runs[i..], a, n)[1..] == runs[i..];
      }
    } else {
      assert runs[i..] == [] && Free([], a, n)[1..] == [];
      assert Linked(m', NULL, []);
    }
  }
}
