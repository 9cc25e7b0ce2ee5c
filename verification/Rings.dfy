/**
 The kernel's circular doubly linked lists (include/rtservice.h).

 A list node is an integer address and the links of all nodes are two maps,
 so that every pointer assignment of the source is one map update here.
 A ring is described by the sequence of its nodes, list head first.
 */
module Rings {

  type Links = map<int, int>

  ghost predicate Distinct(s: seq<int>) {
    forall i, j :: 0 <= i < j < |s| ==> s[i] != s[j]
  }

  function After(s: seq<int>, i: nat): int
    requires i < |s|
  {
    if i + 1 < |s| then s[i + 1] else s[0]
  }

  function Before(s: seq<int>, i: nat): int
    requires i < |s|
  {
    if i > 0 then s[i - 1] else s[|s| - 1]
  }

  ghost predicate Forward(next: Links, s: seq<int>) {
    forall i :: 0 <= i < |s| ==> s[i] in next && next[s[i]] == After(s, i)
  }

  ghost predicate Backward(prev: Links, s: seq<int>) {
    forall i :: 0 <= i < |s| ==> s[i] in prev && prev[s[i]] == Before(s, i)
  }

  /** The links run through exactly the nodes of s, in both directions. */
  ghost predicate Ring(next: Links, prev: Links, s: seq<int>) {
    |s| > 0 && Distinct(s) && Forward(next, s) && Backward(prev, s)
  }

  function Without(s: seq<int>, k: nat): seq<int>
    requires k < |s|
  {
    s[..k] + s[k + 1..]
  }

  function Inserted(s: seq<int>, k: nat, n: int): seq<int>
    requires k < |s|
  {
    s[..k + 1] + [n] + s[k + 1..]
  }

  /** rt_list_insert_after: n becomes the node that follows s[k]. */
  lemma InsertAfter(next: Links, prev: Links, s: seq<int>, k: nat, n: int)
    requires Ring(next, prev, s) && k < |s| && n !in s
    ensures s[k] in next
    ensures Ring(next[n := next[s[k]]][s[k] := n], prev[next[s[k]] := n][n := s[k]], Inserted(s, k, n))
  {
    InsertForward(next, s, k, n);
    InsertBackward(prev, s, k, n);
    InsertedDistinct(s, k, n);
  }

  lemma InsertedDistinct(s: seq<int>, k: nat, n: int)
    requires Distinct(s) && k < |s| && n !in s
    ensures Distinct(Inserted(s, k, n))
  {
  }

  lemma InsertForward(next: Links, s: seq<int>, k: nat, n: int)
    requires Distinct(s) && Forward(next, s) && k < |s| && n !in s
    ensures Forward(next[n := After(s, k)][s[k] := n], Inserted(s, k, n))
  {
    var next', r := next[n := After(s, k)][s[k] := n], Inserted(s, k, n);
    forall i | 0 <= i < |r| ensures r[i] in next' && next'[r[i]] == After(r, i) {
      if i <= k {
        assert r[i] == s[i];
      } else if i > k + 1 {
        assert r[i] == s[i - 1];
      }
    }
  }

  lemma InsertBackward(prev: Links, s: seq<int>, k: nat, n: int)
    requires Distinct(s) && Backward(prev, s) && k < |s| && n !in s
    ensures Backward(prev[After(s, k) := n][n := s[k]], Inserted(s, k, n))
  {
    var prev', r := prev[After(s, k) := n][n := s[k]], Inserted(s, k, n);
    forall i | 0 <= i < |r| ensures r[i] in prev' && prev'[r[i]] == Before(r, i) {
      if i <= k {
        assert r[i] == s[i];
      } else if i > k + 1 {
        assert r[i] == s[i - 1];
      }
    }
  }

  /** rt_list_insert_before the head, that is, append to the list. */
  lemma InsertBeforeHead(next: Links, prev: Links, s: seq<int>, n: int)
    requires Ring(next, prev, s) && n !in s
    ensures s[0] in prev
    ensures Ring(next[prev[s[0]] := n][n := s[0]], prev[n := prev[s[0]]][s[0] := n], s + [n])
  {
  }

  /** The first two writes of rt_list_remove join the neighbours of a node that is not alone. */
  lemma Unlink(next: Links, prev: Links, s: seq<int>, k: nat)
    requires Ring(next, prev, s) && k < |s| && |s| > 1
    ensures s[k] in next && s[k] in prev
    ensures Ring(next[prev[s[k]] := next[s[k]]], prev[next[s[k]] := prev[s[k]]], Without(s, k))
  {
    WithoutDistinct(s, k);
    UnlinkForward(next, s, k);
    UnlinkBackward(prev, s, k);
  }

  lemma WithoutDistinct(s: seq<int>, k: nat)
    requires Distinct(s) && k < |s|
    ensures Distinct(Without(s, k))
  {
  }

  lemma UnlinkForward(next: Links, s: seq<int>, k: nat)
    requires Distinct(s) && Forward(next, s) && k < |s| && |s| > 1
    ensures Forward(next[Before(s, k) := After(s, k)], Without(s, k))
  {
    var next', r := next[Before(s, k) := After(s, k)], Without(s, k);
    forall i | 0 <= i < |r| ensures r[i] in next' && next'[r[i]] == After(r, i) {
      var i' := if i < k then i else i + 1;
      assert r[i] == s[i'];
    }
  }

  lemma UnlinkBackward(prev: Links, s: seq<int>, k: nat)
    requires Distinct(s) && Backward(prev, s) && k < |s| && |s| > 1
    ensures Backward(prev[After(s, k) := Before(s, k)], Without(s, k))
  {
    var prev', r := prev[After(s, k) := Before(s, k)], Without(s, k);
    forall i | 0 <= i < |r| ensures r[i] in prev' && prev'[r[i]] == Before(r, i) {
      var i' := if i < k then i else i + 1;
      assert r[i] == s[i'];
    }
  }

  /** A ring is not disturbed by writes to nodes outside it. */
  lemma Frame(next: Links, prev: Links, next': Links, prev': Links, s: seq<int>)
    requires Ring(next, prev, s)
    requires forall x :: x in s ==> x in next' && next'[x] == next[x]
    requires forall x :: x in s ==> x in prev' && prev'[x] == prev[x]
    ensures Ring(next', prev', s)
  {
  }

  /** rt_list_remove: the neighbours of n are joined, and then n is linked to itself. */
  function Remove(next: Links, prev: Links, n: int): (Links, Links)
    requires n in next && n in prev
  {
    var prev1 := prev[next[n] := prev[n]];
    var next1 := next[prev1[n] := next[n]];
    (next1[n := n], prev1[n := n])
  }

  lemma RemoveAlone(next: Links, prev: Links, n: int)
    requires n in next && n in prev && next[n] == n && prev[n] == n
    ensures Remove(next, prev, n) == (next, prev)
  {
    assert next[n := n] == next && prev[n := n] == prev;
  }

  /**
   The node leaves its ring and becomes a ring of its own; the rings it is not in stay as they are.
   So removing it once more, or removing a node that is alone, changes nothing.
   */
  lemma RemoveLeaves(next: Links, prev: Links, s: seq<int>, k: nat)
    requires Ring(next, prev, s) && k < |s|
    ensures s[k] in next && s[k] in prev
    ensures var r := Remove(next, prev, s[k]);
            && Ring(r.0, r.1, [s[k]])
            && (if |s| > 1 then Ring(r.0, r.1, Without(s, k)) else r == (next, prev))
            && Remove(r.0, r.1, s[k]) == r
            && (forall t :: Ring(next, prev, t) && (forall x :: x in t ==> x !in s) ==> Ring(r.0, r.1, t))
  {
    var r := Remove(next, prev, s[k]);
    assert next[s[k]] == After(s, k) && prev[s[k]] == Before(s, k);
    RemoveAlone(r.0, r.1, s[k]);
    if |s| == 1 {
      RemoveAlone(next, prev, s[k]);
    } else {
      Unlink(next, prev, s, k);
      WithoutDistinct(s, k);
      assert forall x :: x in Without(s, k) ==> x != s[k];
      Frame(next[Before(s, k) := After(s, k)], prev[After(s, k) := Before(s, k)], r.0, r.1, Without(s, k));
    }
    forall t | Ring(next, prev, t) && forall x :: x in t ==> x !in s ensures Ring(r.0, r.1, t) {
      assert After(s, k) in s && Before(s, k) in s;
      Frame(next, prev, r.0, r.1, t);
    }
  }

  /** A node that was put into a ring and removed again leaves it with the nodes it had. */
  lemma InsertThenRemove(next: Links, prev: Links, s: seq<int>, k: nat, n: int)
    requires Ring(next, prev, s) && k < |s| && n !in s
    ensures s[k] in next
    ensures var next1, prev1 := next[n := next[s[k]]][s[k] := n], prev[next[s[k]] := n][n := s[k]];
            var r := Remove(next1, prev1, n);
            Ring(r.0, r.1, s) && Ring(r.0, r.1, [n])
  {
    hide Ring, Inserted, Without, Remove;
    InsertAfter(next, prev, s, k, n);
    InsertedAt(s, k, n);
    RemoveLeaves(next[n := next[s[k]]][s[k] := n], prev[next[s[k]] := n][n := s[k]], Inserted(s, k, n), k + 1);
  }

  lemma InsertedAt(s: seq<int>, k: nat, n: int)
    requires k < |s|
    ensures |Inserted(s, k, n)| == |s| + 1 && Inserted(s, k, n)[k + 1] == n
    ensures Without(Inserted(s, k, n), k + 1) == s
  {
  }
}
