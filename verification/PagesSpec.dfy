/**
 The page allocator of src/slab.c on values: the free pages as a list of runs.
 */
module PagesSpec {

  const NULL: int := -1  // no page number

  /** `len` free pages from page number `at` on. */
  datatype Run = Run(at: int, len: int)

  function End(r: Run): int {
    r.at + r.len
  }

  // ---------------------------------------------------------------- the operations

  /** What rt_page_alloc makes of the list: the first run that is long enough loses its first pages. */
  function Alloc(runs: seq<Run>, n: int): seq<Run> {
    if runs == [] then []
    else if runs[0].len > n then [Run(runs[0].at + n, runs[0].len - n)] + runs[1..]
    else if runs[0].len == n then runs[1..]
    else [runs[0]] + Alloc(runs[1..], n)
  }

  /** The page it returns. */
  function AllocAt(runs: seq<Run>, n: int): int {
    if runs == [] then NULL else if runs[0].len >= n then runs[0].at else AllocAt(runs[1..], n)
  }

  /** rt_page_free: the pages join the run before, the run behind, both, or become a run of their own. */
  function Free(runs: seq<Run>, a: int, n: int): seq<Run> {
    if runs == [] then [Run(a, n)]
    else
      var b := runs[0];
      if End(b) == a then
        if |runs| > 1 && a + n == runs[1].at then [Run(b.at, b.len + n + runs[1].len)] + runs[2..]
        else [Run(b.at, b.len + n)] + runs[1..]
      else if b.at == a + n then [Run(a, b.len + n)] + runs[1..]
      else if b.at > a + n then [Run(a, n)] + runs
      else [b] + Free(runs[1..], a, n)
  }

  // ---------------------------------------------------------------- the meaning of a list

  /** Page p is free. */
  predicate Has(runs: seq<Run>, p: int) {
    runs != [] && (runs[0].at <= p < End(runs[0]) || Has(runs[1..], p))
  }

  /** Runs from page lo on, in order, none empty, and with a gap between any two. */
  ghost predicate Ok(runs: seq<Run>, lo: int) {
    runs == [] || (lo <= runs[0].at && runs[0].len > 0 && Ok(runs[1..], End(runs[0]) + 1))
  }

  predicate Within(p: int, a: int, n: int) {
    a <= p < a + n
  }

  /** All n pages from q on are free. */
  ghost predicate AllFree(runs: seq<Run>, q: int, n: int) {
    forall p :: Within(p, q, n) ==> Has(runs, p)
  }

  ghost predicate NoneFree(runs: seq<Run>, q: int, n: int) {
    forall p :: Within(p, q, n) ==> !Has(runs, p)
  }

  lemma {:induction false} Lower(runs: seq<Run>, lo: int, lo': int)
    requires Ok(runs, lo) && lo' <= lo
    ensures Ok(runs, lo') && forall p :: p < lo ==> !Has(runs, p)
  {
    if runs != [] {
      Lower(runs[1..], End(runs[0]) + 1, lo);
    }
  }

  // ---------------------------------------------------------------- allocating

  lemma {:induction false} AllocOk(runs: seq<Run>, n: int, lo: int)
    requires Ok(runs, lo) && n > 0
    ensures Ok(Alloc(runs, n), lo)
  {
    if runs != [] {
      if runs[0].len > n {
        assert Alloc(runs, n)[1..] == runs[1..];
      } else if runs[0].len == n {
        Lower(runs[1..], End(runs[0]) + 1, lo);
      } else {
        AllocOk(runs[1..], n, End(runs[0]) + 1);
        assert Alloc(runs, n)[1..] == Alloc(runs[1..], n);
      }
    }
  }

  /** The pages handed out were free, and exactly they are free no longer. */
  lemma {:induction false} AllocPages(runs: seq<Run>, n: int, lo: int, p: int)
    requires Ok(runs, lo) && n > 0 && 0 <= lo
    ensures AllocAt(runs, n) == NULL ==> Alloc(runs, n) == runs
    ensures AllocAt(runs, n) != NULL ==> AllocAt(runs, n) >= lo && (Within(p, AllocAt(runs, n), n) ==> Has(runs, p))
    ensures AllocAt(runs, n) != NULL ==> (Has(Alloc(runs, n), p) <==> Has(runs, p) && !Within(p, AllocAt(runs, n), n))
  {
    if runs != [] {
      var b, rest := runs[0], runs[1..];
      Lower(rest, End(b) + 1, End(b) + 1);
      if b.len > n {
        assert Alloc(runs, n)[1..] == rest;
      } else if b.len < n {
        AllocPages(rest, n, End(b) + 1, p);
        assert Alloc(runs, n)[1..] == Alloc(rest, n) && runs == [b] + rest;
      }
    }
  }

  /** A gap ends every stretch of free pages: n of them in a row lie in one run. */
  lemma {:induction false} FitExists(runs: seq<Run>, n: int, lo: int, q: int)
    requires Ok(runs, lo) && n > 0 && 0 <= lo && AllFree(runs, q, n)
    ensures AllocAt(runs, n) != NULL && AllocAt(runs, n) <= q
  {
    assert Within(q, q, n) && Has(runs, q);
    var b, rest := runs[0], runs[1..];
    Lower(rest, End(b) + 1, End(b) + 1);
    if q < End(b) {
      assert !Has(rest, q);
      assert !Has(runs, End(b));
      assert !Within(End(b), q, n);
    } else {
      forall p | Within(p, q, n) ensures Has(rest, p) {
        assert Has(runs, p);
      }
      FitExists(rest, n, End(b) + 1, q);
    }
  }

  /** rt_page_alloc succeeds if and only if n consecutive pages are free, and then returns the lowest such place. */
  lemma AllocSucceeds(runs: seq<Run>, n: int, lo: int)
    requires Ok(runs, lo) && n > 0 && 0 <= lo
    ensures AllocAt(runs, n) != NULL <==> exists q :: AllFree(runs, q, n)
    ensures forall q :: AllFree(runs, q, n) ==> AllocAt(runs, n) <= q
  {
    if AllocAt(runs, n) != NULL {
      forall p | Within(p, AllocAt(runs, n), n) ensures Has(runs, p) {
        AllocPages(runs, n, lo, p);
      }
      assert AllFree(runs, AllocAt(runs, n), n);
    }
    forall q | AllFree(runs, q, n) ensures AllocAt(runs, n) != NULL && AllocAt(runs, n) <= q {
      FitExists(runs, n, lo, q);
    }
  }

  // ---------------------------------------------------------------- releasing

  function Least(x: int, y: int): int {
    if x < y then x else y
  }

  lemma {:induction false} FreeOk(runs: seq<Run>, a: int, n: int, lo: int)
    requires Ok(runs, lo) && n > 0 && NoneFree(runs, a, n)
    ensures Ok(Free(runs, a, n), Least(lo, a))
  {
    if runs != [] {
      var b, rest := runs[0], runs[1..];
      Lower(rest, End(b) + 1, End(b) + 1);
      assert !Within(b.at, a, n) && !Within(a, b.at, b.len) by { Apart(runs, a, n); }
      if End(b) == a {
        if |runs| > 1 {
          assert rest[0] == runs[1] && rest[1..] == runs[2..];
          assert !Within(rest[0].at, a, n) by { RestApart(runs, a, n); Apart(rest, a, n); }
          assert a + n == runs[1].at ==> Free(runs, a, n)[1..] == runs[2..];
        }
        assert !(|runs| > 1 && a + n == runs[1].at) ==> Free(runs, a, n)[1..] == rest;
      } else if b.at == a + n {
        assert Free(runs, a, n)[1..] == rest;
      } else if b.at > a + n {
        assert Free(runs, a, n)[1..] == runs;
      } else {
        RestApart(runs, a, n);
        FreeOk(rest, a, n, End(b) + 1);
        assert Free(runs, a, n)[1..] == Free(rest, a, n);
      }
    }
  }

  /** Pages that are not free lie outside the first run. */
  lemma Apart(runs: seq<Run>, a: int, n: int)
    requires runs != [] && runs[0].len > 0 && n > 0 && NoneFree(runs, a, n)
    ensures !Within(runs[0].at, a, n) && !Within(a, runs[0].at, runs[0].len)
  {
    assert Has(runs, runs[0].at);
    assert Within(a, a, n) && !Has(runs, a);
  }

  lemma RestApart(runs: seq<Run>, a: int, n: int)
    requires runs != [] && NoneFree(runs, a, n)
    ensures NoneFree(runs[1..], a, n)
  {
  }

  /** Exactly the released pages become free. */
  lemma {:induction false} FreePages(runs: seq<Run>, a: int, n: int, lo: int, p: int)
    requires Ok(runs, lo) && n > 0 && NoneFree(runs, a, n)
    ensures Has(Free(runs, a, n), p) <==> Has(runs, p) || Within(p, a, n)
  {
    if runs == [] {
      assert Free(runs, a, n)[1..] == [];
    } else {
      var b, rest := runs[0], runs[1..];
      var r := Free(runs, a, n);
      if End(b) == a {
        if |runs| > 1 && a + n == runs[1].at {
          assert rest[0] == runs[1] && rest[1..] == runs[2..] && r[1..] == runs[2..];
          assert Ok(rest, End(b) + 1);
        } else {
          assert r[1..] == rest;
        }
      } else if b.at == a + n {
        assert r[1..] == rest;
      } else if b.at > a + n {
        assert r[1..] == runs;
      } else {
        RestApart(runs, a, n);
        FreePages(rest, a, n, End(b) + 1, p);
        assert r[1..] == Free(rest, a, n);
      }
    }
  }

  // ---------------------------------------------------------------- canonical lists

  /** A set of free pages has only one list. */
  lemma {:induction false} Canonical(runs: seq<Run>, other: seq<Run>, lo: int)
    requires Ok(runs, lo) && Ok(other, lo) && forall p :: Has(runs, p) <==> Has(other, p)
    ensures runs == other
  {
    if runs == [] {
      if other != [] {
        assert Has(other, other[0].at);
      }
    } else if other == [] {
      assert Has(runs, runs[0].at);
    } else {
      var b, c := runs[0], other[0];
      Lower(runs[1..], End(b) + 1, End(b) + 1);
      Lower(other[1..], End(c) + 1, End(c) + 1);
      Lower(runs, b.at, b.at);
      Lower(other, c.at, c.at);
      assert Has(runs, b.at) && Has(other, c.at);
      assert Has(other, b.at) && Has(runs, c.at);
      assert !Has(runs, End(b)) && !Has(other, End(c));
      assert b.at == c.at;
      assert !Has(other, End(b)) && !Has(runs, End(c));
      assert b == c;
      forall p ensures Has(runs[1..], p) <==> Has(other[1..], p) {
        assert Has(runs, p) <==> Has(other, p);
      }
      Canonical(runs[1..], other[1..], End(b) + 1);
    }
  }

  /** Releasing what was just allocated restores the list. */
  lemma FreeUndoesAlloc(runs: seq<Run>, n: int, lo: int)
    requires Ok(runs, lo) && n > 0 && 0 <= lo && AllocAt(runs, n) != NULL
    ensures Free(Alloc(runs, n), AllocAt(runs, n), n) == runs
  {
    var r, a := Alloc(runs, n), AllocAt(runs, n);
    AllocOk(runs, n, lo);
    forall p
      ensures (Has(r, p) <==> Has(runs, p) && !Within(p, a, n)) && (Within(p, a, n) ==> Has(runs, p)) && a >= lo
    {
      AllocPages(runs, n, lo, p);
    }
    FreeOk(r, a, n, lo);
    forall p ensures Has(Free(r, a, n), p) <==> Has(runs, p) {
      FreePages(r, a, n, lo, p);
    }
    Canonical(Free(r, a, n), runs, lo);
  }

  /** The order of two releases does not matter. */
  lemma FreesCommute(runs: seq<Run>, a: int, n: int, b: int, m: int, lo: int)
    requires Ok(runs, lo) && n > 0 && m > 0 && NoneFree(runs, a, n) && NoneFree(runs, b, m)
    requires a + n <= b || b + m <= a
    ensures Free(Free(runs, a, n), b, m) == Free(Free(runs, b, m), a, n)
  {
    var low := Least(Least(lo, a), b);
    BothFreed(runs, a, n, b, m, lo);
    BothFreed(runs, b, m, a, n, lo);
    var x, y := Free(Free(runs, a, n), b, m), Free(Free(runs, b, m), a, n);
    Lower(x, Least(Least(lo, a), b), low);
    Lower(y, Least(Least(lo, b), a), low);
    Canonical(x, y, low);
  }

  lemma BothFreed(runs: seq<Run>, a: int, n: int, b: int, m: int, lo: int)
    requires Ok(runs, lo) && n > 0 && m > 0 && NoneFree(runs, a, n) && NoneFree(runs, b, m)
    requires a + n <= b || b + m <= a
    ensures Ok(Free(Free(runs, a, n), b, m), Least(Least(lo, a), b))
    ensures forall p :: Has(Free(Free(runs, a, n), b, m), p) <==> Has(runs, p) || Within(p, a, n) || Within(p, b, m)
  {
    var r := Free(runs, a, n);
    FreeOk(runs, a, n, lo);
    forall p ensures Has(r, p) <==> Has(runs, p) || Within(p, a, n) {
      FreePages(runs, a, n, lo, p);
    }
    FreeOk(r, b, m, Least(lo, a));
    forall p ensures Has(Free(r, b, m), p) <==> Has(runs, p) || Within(p, a, n) || Within(p, b, m) {
      FreePages(r, b, m, Least(lo, a), p);
    }
  }

  // ---------------------------------------------------------------- whole runs

  datatype Call = DoAlloc(n: int) | DoFree(a: int, n: int)

  /** The free list and the pages in the hands of clients. */
  datatype Pages = Pages(runs: seq<Run>, held: iset<int>)

  /** The pages base, base + 1, ... below top are free or held, and never both. */
  ghost predicate Inv(s: Pages, base: int, top: int) {
    && 0 <= base && Ok(s.runs, base)
    && forall p :: (base <= p < top <==> Has(s.runs, p) || p in s.held) && !(Has(s.runs, p) && p in s.held)
  }

  /** A client asks for at least one page and releases only pages that it holds. */
  ghost predicate Legal(s: Pages, c: Call) {
    c.n > 0 && (c.DoFree? ==> forall p :: Within(p, c.a, c.n) ==> p in s.held)
  }

  ghost function Step(s: Pages, c: Call): Pages {
    match c
    case DoAlloc(n) =>
      var a := AllocAt(s.runs, n);
      if a == NULL then s else Pages(Alloc(s.runs, n), s.held + iset p | Within(p, a, n))
    case DoFree(a, n) => Pages(Free(s.runs, a, n), s.held - iset p | Within(p, a, n))
  }

  lemma StepInv(s: Pages, c: Call, base: int, top: int)
    requires Inv(s, base, top) && Legal(s, c)
    ensures Inv(Step(s, c), base, top)
  {
    match c {
      case DoAlloc(n) =>
        AllocOk(s.runs, n, base);
        forall p ensures AllocAt(s.runs, n) != NULL ==>
            (Has(Alloc(s.runs, n), p) <==> Has(s.runs, p) && !Within(p, AllocAt(s.runs, n), n)) &&
            (Within(p, AllocAt(s.runs, n), n) ==> Has(s.runs, p)) {
          AllocPages(s.runs, n, base, p);
        }
      case DoFree(a, n) =>
        FreeOk(s.runs, a, n, base);
        assert Within(a, a, n);
        forall p ensures Has(Free(s.runs, a, n), p) <==> Has(s.runs, p) || Within(p, a, n) {
          FreePages(s.runs, a, n, base, p);
        }
    }
  }

  ghost predicate Reaches(s: Pages, calls: seq<Call>, t: Pages)
    decreases |calls|
  {
    if calls == [] then s == t else Legal(s, calls[0]) && Reaches(Step(s, calls[0]), calls[1..], t)
  }

  /** No page is lost or handed out twice, and the list stays sorted and merged. */
  lemma {:induction false} RunInv(s: Pages, calls: seq<Call>, t: Pages, base: int, top: int)
    requires Inv(s, base, top) && Reaches(s, calls, t)
    ensures Inv(t, base, top)
    decreases |calls|
  {
    hide Inv, Step, Legal;
    if calls != [] {
      StepInv(s, calls[0], base, top);
      RunInv(Step(s, calls[0]), calls[1..], t, base, top);
    }
  }

  /** rt_page_init: one run. */
  lemma InitInv(base: int, n: int)
    requires 0 <= base && n > 0
    ensures Free([], base, n) == [Run(base, n)] && Inv(Pages(Free([], base, n), iset{}), base, base + n)
  {
  }
}
