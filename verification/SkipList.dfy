/**
 The rows of the timer skip list (src/timer.c).

 The last row holds every timer; each row above it skips some of the timers of
 the row below and keeps the order of the others.
 */
module SkipList {

  import opened IpcList

  type Rows = seq<seq<Tid>>

  function Members(row: seq<Tid>): set<Tid> {
    set x | x in row
  }

  /** What is left of a row when only the nodes of s are kept. */
  function Filter(row: seq<Tid>, s: set<Tid>): seq<Tid> {
    if row == [] then []
    else (if row[0] in s then [row[0]] else []) + Filter(row[1..], s)
  }

  /** a consists of nodes of b, in the order of b. */
  ghost predicate SubRow(a: seq<Tid>, b: seq<Tid>) {
    Filter(b, Members(a)) == a
  }

  ghost predicate RowsOk(rows: Rows) {
    && |rows| >= 1
    && (forall i :: 0 <= i < |rows| ==> Unique(rows[i]))
    && (forall i :: 0 <= i < |rows| - 1 ==> SubRow(rows[i], rows[i + 1]))
  }

  lemma {:induction false} FilterMembers(row: seq<Tid>, s: set<Tid>)
    ensures forall x :: x in Filter(row, s) <==> x in row && x in s
  {
    if row != [] {
      FilterMembers(row[1..], s);
    }
  }

  lemma {:induction false} FilterJoin(a: seq<Tid>, b: seq<Tid>, s: set<Tid>)
    ensures Filter(a + b, s) == Filter(a, s) + Filter(b, s)
  {
    if a == [] {
      assert a + b == b;
    } else {
      assert (a + b)[1..] == a[1..] + b && (a + b)[0] == a[0];
      FilterJoin(a[1..], b, s);
      var x := if a[0] in s then [a[0]] else [];
      assert x + (Filter(a[1..], s) + Filter(b, s)) == x + Filter(a[1..], s) + Filter(b, s);
    }
  }

  /** A filter does not see nodes that the row does not have. */
  lemma {:induction false} FilterSame(row: seq<Tid>, s: set<Tid>, s': set<Tid>)
    requires forall x :: x in row ==> (x in s <==> x in s')
    ensures Filter(row, s) == Filter(row, s')
  {
    if row != [] {
      assert row[0] in row && forall x :: x in row[1..] ==> x in row;
      FilterSame(row[1..], s, s');
    }
  }

  /** Rows below hold all nodes of the rows above. */
  lemma SubRowMembers(a: seq<Tid>, b: seq<Tid>)
    requires SubRow(a, b)
    ensures forall x :: x in a ==> x in b
  {
    FilterMembers(b, Members(a));
  }

  /** A row that skips nodes of a sorted row is sorted. */
  lemma {:induction false} FilterSorted(row: seq<Tid>, s: set<Tid>, f: Tid -> int)
    requires Sorted(row, f)
    ensures Sorted(Filter(row, s), f)
  {
    if row != [] {
      FilterSorted(row[1..], s, f);
      FilterMembers(row[1..], s);
      assert forall x :: x in row[1..] ==> f(row[0]) <= f(x);
    }
  }

  lemma {:induction false} AllSorted(rows: Rows, f: Tid -> int, i: nat)
    requires RowsOk(rows) && Sorted(rows[|rows| - 1], f) && i < |rows|
    ensures Sorted(rows[i], f)
    decreases |rows| - i
  {
    if i < |rows| - 1 {
      AllSorted(rows, f, i + 1);
      FilterSorted(rows[i + 1], Members(rows[i]), f);
    }
  }

  // ---------------------------------------------------------------- removing

  lemma {:induction false} RemovedFilter(b: seq<Tid>, s: set<Tid>, t: Tid)
    requires Unique(b)
    ensures Filter(Removed(b, t), s - {t}) == Removed(Filter(b, s), t)
  {
    if b != [] {
      var rest := b[1..];
      assert b == [b[0]] + rest && b[0] !in rest;
      if b[0] == t {
        FilterMembers(rest, s);
        FilterSame(rest, s - {t}, s);
        if t !in s {
          assert Filter(b, s) == Filter(rest, s);
          RemovedAbsent(Filter(rest, s), t);
        } else {
          assert Filter(b, s)[1..] == Filter(rest, s);
        }
      } else {
        RemovedFilter(rest, s, t);
        assert Removed(b, t)[1..] == Removed(rest, t);
        if b[0] in s {
          assert Filter(b, s)[1..] == Filter(rest, s);
        } else {
          assert Filter(b, s) == Filter(rest, s);
          assert Filter(Removed(b, t), s - {t}) == Filter(Removed(rest, t), s - {t});
        }
      }
    }
  }

  lemma SubRowRemoved(a: seq<Tid>, b: seq<Tid>, t: Tid)
    requires SubRow(a, b) && Unique(a) && Unique(b)
    ensures SubRow(Removed(a, t), Removed(b, t))
  {
    RemovedFilter(b, Members(a), t);
    RemovedMembers(a, t);
    assert Members(Removed(a, t)) == Members(a) - {t};
  }

  // ---------------------------------------------------------------- inserting

  function Inserted(row: seq<Tid>, k: nat, t: Tid): seq<Tid>
    requires k <= |row|
  {
    row[..k] + [t] + row[k..]
  }

  /** The nodes of a sorted row before and behind the place for deadline d. */
  lemma FilterPlace(b: seq<Tid>, s: set<Tid>, f: Tid -> int, d: int)
    requires Sorted(b, f)
    ensures var p := Place(b, f, d);
            Place(Filter(b, s), f, d) == |Filter(b[..p], s)| && Filter(b, s) == Filter(b[..p], s) + Filter(b[p..], s)
  {
    hide Place;
    var p := Place(b, f, d);
    var x, y := Filter(b[..p], s), Filter(b[p..], s);
    assert b == b[..p] + b[p..];
    FilterJoin(b[..p], b[p..], s);
    FilterMembers(b[..p], s);
    FilterMembers(b[p..], s);
    assert forall z :: z in x ==> f(z) <= d;
    assert forall z :: z in b[p..] ==> d < f(z);
    PlaceIs(x + y, f, d, |x|);
  }

  /** Putting a new node into two neighbouring rows, at the place of its deadline in each. */
  lemma SubRowInserted(a: seq<Tid>, b: seq<Tid>, t: Tid, f: Tid -> int, d: int)
    requires SubRow(a, b) && Sorted(b, f) && t !in b && t !in a
    ensures SubRow(Inserted(a, Place(a, f, d), t), Inserted(b, Place(b, f, d), t))
  {
    hide Place;
    var s, p, q := Members(a), Place(b, f, d), Place(a, f, d);
    FilterPlace(b, s, f, d);
    var s' := s + {t};
    assert Members(Inserted(a, q, t)) == s' by {
      assert a == a[..q] + a[q..];
    }
    FilterJoin(b[..p] + [t], b[p..], s');
    FilterJoin(b[..p], [t], s');
    FilterSame(b[..p], s, s');
    FilterSame(b[p..], s, s');
    assert Filter([t], s') == [t] by {
      assert [t][1..] == [];
    }
  }

  /** Putting a new node into the lower of two rows only. */
  lemma SubRowBelow(a: seq<Tid>, b: seq<Tid>, t: Tid, k: nat)
    requires SubRow(a, b) && t !in a && k <= |b|
    ensures SubRow(a, Inserted(b, k, t))
  {
    var s := Members(a);
    assert b == b[..k] + b[k..];
    FilterJoin(b[..k], b[k..], s);
    FilterJoin(b[..k] + [t], b[k..], s);
    FilterJoin(b[..k], [t], s);
    assert Filter([t], s) == [] by {
      assert [t][1..] == [];
    }
  }
}
