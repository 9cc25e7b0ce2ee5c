/**
 The list of threads suspended on an IPC object (rt_ipc_list_suspend, src/ipc.c).
 */
module IpcList {

  type Tid = nat

  /** What a field of 16 bits keeps of a number. */
  function Low16(x: nat): (r: nat)
    ensures r <= x && r < 0x1_0000 && (x < 0x1_0000 ==> r == x)
  {
    x % 0x1_0000
  }

  datatype Flag = Fifo | Prio

  /** Where a thread of priority p goes in a list kept by priority: behind its equals. */
  function Place(list: seq<Tid>, prio: Tid -> int, p: int): (k: nat)
    ensures k <= |list|
    ensures forall i :: 0 <= i < k ==> prio(list[i]) <= p
    ensures k < |list| ==> p < prio(list[k])
  {
    if list == [] || p < prio(list[0]) then 0 else 1 + Place(list[1..], prio, p)
  }

  function Suspended(list: seq<Tid>, t: Tid, prio: Tid -> int, flag: Flag): seq<Tid> {
    var k := if flag.Fifo? then |list| else Place(list, prio, prio(t));
    list[..k] + [t] + list[k..]
  }

  ghost predicate Sorted(list: seq<Tid>, prio: Tid -> int) {
    forall i, j :: 0 <= i < j < |list| ==> prio(list[i]) <= prio(list[j])
  }

  ghost predicate Unique(list: seq<Tid>) {
    forall i, j :: 0 <= i < j < |list| ==> list[i] != list[j]
  }

  /** The loop of rt_ipc_list_suspend. */
  method Suspend(list: seq<Tid>, t: Tid, prio: Tid -> int, flag: Flag) returns (r: seq<Tid>)
    ensures r == Suspended(list, t, prio, flag)
  {
    if flag.Fifo? {
      return list[..|list|] + [t] + list[|list|..];
    }
    var n := 0;
    while n < |list|
      invariant 0 <= n <= |list|
      invariant forall i :: 0 <= i < n ==> prio(list[i]) <= prio(t)
    {
      if prio(t) < prio(list[n]) {
        PlaceIs(list, prio, prio(t), n);
        return list[..n] + [t] + list[n..];
      }
      n := n + 1;
    }
    PlaceIs(list, prio, prio(t), n);
    return list[..n] + [t] + list[n..];
  }

  lemma PlaceIs(list: seq<Tid>, prio: Tid -> int, p: int, k: nat)
    requires k <= |list| && (forall i :: 0 <= i < k ==> prio(list[i]) <= p)
    requires k < |list| ==> p < prio(list[k])
    ensures Place(list, prio, p) == k
  {
  }

  /** Suspending adds exactly the one thread. */
  lemma SuspendedMembers(list: seq<Tid>, t: Tid, prio: Tid -> int, flag: Flag)
    requires Unique(list) && t !in list
    ensures var r := Suspended(list, t, prio, flag);
            Unique(r) && |r| == |list| + 1 && forall x :: x in r <==> x in list || x == t
  {
  }

  /** A priority list stays sorted. */
  lemma SuspendedSorted(list: seq<Tid>, t: Tid, prio: Tid -> int)
    requires Sorted(list, prio)
    ensures Sorted(Suspended(list, t, prio, Prio), prio)
  {
  }

  /** The list without t. */
  function Removed(list: seq<Tid>, t: Tid): seq<Tid> {
    if list == [] then [] else if list[0] == t then list[1..] else [list[0]] + Removed(list[1..], t)
  }

  lemma {:induction false} RemovedMembers(list: seq<Tid>, t: Tid)
    requires Unique(list)
    ensures Unique(Removed(list, t)) && t !in Removed(list, t)
    ensures forall x :: x in Removed(list, t) <==> x in list && x != t
    ensures |Removed(list, t)| == if t in list then |list| - 1 else |list|
  {
    if list != [] {
      var h, tail := list[0], list[1..];
      TailUnique(list);
      RemovedMembers(tail, t);
      hide Unique;
      if h != t {
        FrontUnique(Removed(tail, t), h);
      }
    }
  }

  lemma {:induction false} RemovedAbsent(list: seq<Tid>, t: Tid)
    requires t !in list
    ensures Removed(list, t) == list
  {
    if list != [] {
      RemovedAbsent(list[1..], t);
    }
  }

  lemma TailUnique(list: seq<Tid>)
    requires Unique(list) && list != []
    ensures Unique(list[1..]) && list[0] !in list[1..] && forall x :: x in list <==> x == list[0] || x in list[1..]
  {
  }

  lemma NoMembers(list: seq<Tid>)
    requires forall t :: t !in list
    ensures list == []
  {
    if list != [] {
      HasMember(list);
    }
  }

  lemma HasMember(list: seq<Tid>)
    requires list != []
    ensures exists t :: t in list
  {
    assert list[0] in list;
  }

  lemma FrontUnique(list: seq<Tid>, t: Tid)
    requires Unique(list) && t !in list
    ensures Unique([t] + list) && forall x :: x in [t] + list <==> x == t || x in list
  {
  }

  lemma BackUnique(list: seq<Tid>, t: Tid)
    requires Unique(list) && t !in list
    ensures Unique(list + [t]) && forall x :: x in list + [t] <==> x in list || x == t
  {
  }

  lemma {:induction false} RemovedSorted(list: seq<Tid>, t: Tid, f: Tid -> int)
    requires Sorted(list, f)
    ensures Sorted(Removed(list, t), f)
    ensures forall x :: x in Removed(list, t) ==> x in list
  {
    if list != [] && list[0] != t {
      var rest := Removed(list[1..], t);
      RemovedSorted(list[1..], t, f);
      assert forall x :: x in list[1..] ==> f(list[0]) <= f(x);
    }
  }

  // ---------------------------------------------------------------- who waits before whom

  /** x goes before y: by arrival, or by priority and by arrival among equals. */
  predicate Before(x: Tid, y: Tid, flag: Flag, prio: Tid -> int, since: map<Tid, int>) {
    x in since && y in since &&
    if flag.Fifo? then since[x] < since[y] else prio(x) < prio(y) || (prio(x) == prio(y) && since[x] < since[y])
  }

  ghost predicate Lined(list: seq<Tid>, flag: Flag, prio: Tid -> int, since: map<Tid, int>) {
    forall i, j :: 0 <= i < j < |list| ==> Before(list[i], list[j], flag, prio, since)
  }

  /** Everybody in the list has come before time n. */
  ghost predicate Earlier(list: seq<Tid>, since: map<Tid, int>, n: int) {
    forall x :: x in list ==> x in since && since[x] < n
  }

  /** Who comes now, at time n, is lined up behind those who came before. */
  lemma SuspendedLined(list: seq<Tid>, t: Tid, flag: Flag, prio: Tid -> int, since: map<Tid, int>, n: int)
    requires Lined(list, flag, prio, since) && Earlier(list, since, n) && t !in list
    ensures var r, m := Suspended(list, t, prio, flag), since[t := n];
            Lined(r, flag, prio, m) && Earlier(r, m, n + 1)
  {
    hide Place;
    var k := if flag.Fifo? then |list| else Place(list, prio, prio(t));
    var r, m := Suspended(list, t, prio, flag), since[t := n];
    forall i, j | 0 <= i < j < |r| ensures Before(r[i], r[j], flag, prio, m) {
      var x, y := if i < k then i else i - 1, if j < k then j else j - 1;
      assert i != k ==> r[i] == list[x] && list[x] in list;
      assert j != k ==> r[j] == list[y] && list[y] in list;
      if i != k && j != k {
        assert Before(list[x], list[y], flag, prio, since);
      } else if i == k && y > k {
        assert Before(list[k], list[y], flag, prio, since);
      }
    }
  }

  lemma TailLined(list: seq<Tid>, flag: Flag, prio: Tid -> int, since: map<Tid, int>, t: Tid, n: int)
    requires Lined(list, flag, prio, since) && Earlier(list, since, n) && list != [] && t !in list[1..]
    ensures Lined(list[1..], flag, prio, since[t := n]) && Earlier(list[1..], since[t := n], n + 1)
  {
    var r := list[1..];
    forall i, j | 0 <= i < j < |r| ensures Before(r[i], r[j], flag, prio, since[t := n]) {
      assert Before(list[i + 1], list[j + 1], flag, prio, since) && r[i] in r && r[j] in r;
    }
  }

  lemma SameLined(list: seq<Tid>, flag: Flag, prio: Tid -> int, since: map<Tid, int>, t: Tid, n: int)
    requires Lined(list, flag, prio, since) && Earlier(list, since, n) && t !in list
    ensures Lined(list, flag, prio, since[t := n]) && Earlier(list, since[t := n], n + 1)
  {
    forall i, j | 0 <= i < j < |list| ensures Before(list[i], list[j], flag, prio, since[t := n]) {
      assert Before(list[i], list[j], flag, prio, since) && list[i] in list && list[j] in list;
    }
  }

  lemma {:induction false} RemovedLined(list: seq<Tid>, flag: Flag, prio: Tid -> int, since: map<Tid, int>, t: Tid)
    requires Lined(list, flag, prio, since)
    ensures Lined(Removed(list, t), flag, prio, since) && forall x :: x in Removed(list, t) ==> x in list
  {
    if list != [] {
      var rest := list[1..];
      assert forall i :: 0 < i < |list| ==> Before(list[0], list[i], flag, prio, since);
      assert Lined(rest, flag, prio, since) by {
        forall i, j | 0 <= i < j < |rest| ensures Before(rest[i], rest[j], flag, prio, since) {
          assert Before(list[i + 1], list[j + 1], flag, prio, since);
        }
      }
      RemovedLined(rest, flag, prio, since, t);
      if list[0] != t {
        var r := [list[0]] + Removed(rest, t);
        forall i, j | 0 <= i < j < |r| ensures Before(r[i], r[j], flag, prio, since) {
          assert r[j] in Removed(rest, t);
          assert r[j] in rest;
        }
      }
    }
  }

  lemma NobodyLined(flag: Flag, prio: Tid -> int, since: map<Tid, int>, n: int)
    ensures Lined([], flag, prio, since) && Earlier([], since, n)
  {
  }

  /** The timeout that is left after sleeping for delta ticks. */
  function Remaining(timeout: int, delta: nat): int {
    if timeout > 0 then (if timeout - delta < 0 then 0 else timeout - delta) else timeout
  }

  /** A call with this timeout may wait no longer, after so many ticks: below zero it means forever. */
  predicate OutOfTime(timeout: int, waited: nat) {
    0 <= timeout <= waited
  }

  /** What is left of the timeout of a call that still waits. */
  function TimeLeft(timeout: int, waited: nat): int {
    if timeout < 0 then timeout else timeout - waited
  }

  /** However often a call is woken and sleeps again, its deadline stays. */
  lemma LeftAgain(timeout: int, waited: nat, delta: nat)
    requires !OutOfTime(timeout, waited)
    ensures Remaining(TimeLeft(timeout, waited), delta) ==
            if OutOfTime(timeout, waited + delta) then 0 else TimeLeft(timeout, waited + delta)
    ensures !OutOfTime(timeout, waited + delta) ==> TimeLeft(timeout, waited + delta) != 0
  {
  }

  /** Where t is, the list closes. */
  lemma {:induction false} RemovedAt(list: seq<Tid>, t: Tid, k: nat)
    requires k < |list| && list[k] == t && forall j :: 0 <= j < k ==> list[j] != t
    ensures Removed(list, t) == list[..k] + list[k + 1..]
  {
    if k > 0 {
      RemovedAt(list[1..], t, k - 1);
      assert [list[0]] + (list[1..][..k - 1] + list[1..][k..]) == list[..k] + list[k + 1..];
    }
  }
}
