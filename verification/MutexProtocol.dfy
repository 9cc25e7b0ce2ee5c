/**
 The mutexes of src/ipc.c as a protocol between threads: nested takes, waiting
 with and without a timeout, hand-over on release, and priority inheritance.

 One event is one section that runs with interrupts disabled.  A smaller
 number is a more urgent priority.
 */
module MutexProtocol {

  import opened IpcList

  type Mid = nat

  datatype Error = EOK | ETIMEOUT | ERROR

  datatype Owner = Nobody | Thread(id: Tid)

  const UNOWNED: int := 0xff  // original_priority of a mutex without an owner

  datatype Mutex = Mutex(flag: Flag, value: nat, hold: nat, owner: Owner, original: int, waiters: seq<Tid>)

  /** A thread runs (with the result of its last call), sleeps on a mutex, or has been handed one in its sleep. */
  datatype Phase = Running(error: Error) | Asleep(on: Mid, timed: bool) | Granted(of: Mid)

  /**
   All mutexes and threads.  `base` is the priority a thread has by itself, and
   `rivals[i]` are the threads that have waited for mutex i under its present owner.
   */
  datatype Sys = Sys(mutexes: seq<Mutex>, rivals: seq<set<Tid>>, prio: map<Tid, int>, base: map<Tid, int>,
                     phase: map<Tid, Phase>)

  datatype Event =
    | Take(t: Tid, i: Mid, time: int)
    | Release(t: Tid, i: Mid)
    | Expire(t: Tid)
    | Return(t: Tid)

  function Of(prio: map<Tid, int>): Tid -> int {
    t => if t in prio then prio[t] else 0
  }

  // ---------------------------------------------------------------- the sections

  /** The owner gets the priority of a more urgent waiter. */
  function Boosted(prio: map<Tid, int>, owner: Owner, t: Tid): map<Tid, int> {
    if owner.Thread? && Of(prio)(t) < Of(prio)(owner.id) then prio[owner.id := Of(prio)(t)] else prio
  }

  predicate Free(m: Mutex, t: Tid) {
    m.owner == Thread(t) || m.value > 0
  }

  /** rt_mutex_take up to the point where it returns or sleeps: the mutex. */
  function TakeMutex(m: Mutex, t: Tid, time: int, prio: map<Tid, int>): Mutex {
    if m.owner == Thread(t) then m.(hold := (m.hold + 1) % 256)
    else if m.value > 0 then
      m.(value := m.value - 1, owner := Thread(t), original := Of(prio)(t), hold := (m.hold + 1) % 256)
    else if time == 0 then m
    else m.(waiters := Suspended(m.waiters, t, Of(Boosted(prio, m.owner, t)), m.flag))
  }

  /** The same section: the priorities. */
  function TakePrio(m: Mutex, t: Tid, time: int, prio: map<Tid, int>): map<Tid, int> {
    if Free(m, t) || time == 0 then prio else Boosted(prio, m.owner, t)
  }

  /** rt_mutex_release: the mutex. */
  function ReleaseMutex(m: Mutex, t: Tid, prio: map<Tid, int>): Mutex {
    if m.owner != Thread(t) then m
    else
      var m1 := m.(hold := (m.hold + 255) % 256);
      if m1.hold != 0 then m1
      else if m1.waiters == [] then
        m1.(value := (m1.value + 1) % 0x1_0000, owner := Nobody, original := UNOWNED)
      else
        m1.(owner := Thread(m1.waiters[0]), original := Of(ReleasePrio(m, t, prio))(m1.waiters[0]), hold := 1,
            waiters := m1.waiters[1..])
  }

  /** The same section: the priorities. */
  function ReleasePrio(m: Mutex, t: Tid, prio: map<Tid, int>): map<Tid, int> {
    if m.owner == Thread(t) && Final(m) && m.original != Of(prio)(t) then prio[t := m.original] else prio
  }

  /** Does a release by the owner give the mutex away? */
  predicate Final(m: Mutex) {
    (m.hold + 255) % 256 == 0
  }

  // ---------------------------------------------------------------- the events

  predicate Enabled(s: Sys, e: Event) {
    match e
    case Take(t, i, _) => t in s.phase && s.phase[t].Running? && i < |s.mutexes| == |s.rivals|
    case Release(t, i) => t in s.phase && s.phase[t].Running? && i < |s.mutexes| == |s.rivals|
    case Expire(t) => t in s.phase && s.phase[t].Asleep? && s.phase[t].timed && s.phase[t].on < |s.mutexes|
    case Return(t) => t in s.phase && s.phase[t].Granted?
  }

  function TakeStep(s: Sys, t: Tid, i: Mid, time: int): Sys
    requires i < |s.mutexes| == |s.rivals|
  {
    var m := s.mutexes[i];
    var waits := !Free(m, t) && time != 0;
    s.(mutexes := s.mutexes[i := TakeMutex(m, t, time, s.prio)],
       prio := TakePrio(m, t, time, s.prio),
       rivals := if waits then s.rivals[i := s.rivals[i] + {t}] else s.rivals,
       phase := s.phase[t := if waits then Asleep(i, time > 0) else Running(if Free(m, t) then EOK else ETIMEOUT)])
  }

  function ReleaseStep(s: Sys, t: Tid, i: Mid): Sys
    requires i < |s.mutexes| == |s.rivals|
  {
    var m := s.mutexes[i];
    var gives := m.owner == Thread(t) && Final(m);
    var phase' := s.phase[t := Running(if m.owner == Thread(t) then EOK else ERROR)];
    s.(mutexes := s.mutexes[i := ReleaseMutex(m, t, s.prio)],
       prio := ReleasePrio(m, t, s.prio),
       rivals := if gives then s.rivals[i := if m.waiters == [] then {} else Members(m.waiters[1..])] else s.rivals,
       phase := if gives && m.waiters != [] then phase'[m.waiters[0] := Granted(i)] else phase')
  }

  function Members(list: seq<Tid>): set<Tid> {
    set t | t in list
  }

  /** rt_thread_timeout: the thread leaves the list; nobody's priority changes. */
  function ExpireStep(s: Sys, t: Tid, i: Mid): Sys
    requires i < |s.mutexes|
  {
    s.(mutexes := s.mutexes[i := s.mutexes[i].(waiters := Removed(s.mutexes[i].waiters, t))],
       phase := s.phase[t := Running(ETIMEOUT)])
  }

  function Step(s: Sys, e: Event): Sys
    requires Enabled(s, e)
  {
    match e
    case Take(t, i, time) => TakeStep(s, t, i, time)
    case Release(t, i) => ReleaseStep(s, t, i)
    case Expire(t) => ExpireStep(s, t, s.phase[t].on)
    case Return(t) => s.(phase := s.phase[t := Running(EOK)])
  }

  /** A thread takes a second mutex only after it has given up the first one, and nests no deeper than the counter. */
  ghost predicate Disciplined(s: Sys, e: Event) {
    e.Take? && e.i < |s.mutexes| ==>
      && (forall j :: 0 <= j < |s.mutexes| && j != e.i ==> s.mutexes[j].owner != Thread(e.t))
      && (s.mutexes[e.i].owner == Thread(e.t) ==> s.mutexes[e.i].hold < 255)
  }

  // ---------------------------------------------------------------- the invariant

  /** Owner, value and hold agree, and only an owned mutex has waiters. */
  ghost predicate Counted(m: Mutex) {
    && m.value <= 1 && m.hold <= 255
    && (m.owner.Thread? <==> m.value == 0)
    && (m.owner.Thread? <==> m.hold > 0)
    && (m.owner.Nobody? ==> m.waiters == [] && m.original == UNOWNED)
  }

  ghost predicate Listed(m: Mutex, prio: map<Tid, int>) {
    Unique(m.waiters) && (m.flag.Prio? ==> Sorted(m.waiters, Of(prio)))
  }

  /**
   The owner's priority is the most urgent one among its own and those of the
   threads that have waited for it; its own one is what the release restores.
   */
  ghost predicate Inherits(m: Mutex, rivals: set<Tid>, prio: map<Tid, int>, base: map<Tid, int>) {
    && (forall w :: w in m.waiters ==> w in rivals)
    && (forall x :: x in rivals ==> x in base) && (m.owner.Nobody? ==> rivals == {})
    && (m.owner.Thread? ==>
          && m.owner.id in prio && m.owner.id in base && m.original == base[m.owner.id]
          && prio[m.owner.id] <= base[m.owner.id]
          && (prio[m.owner.id] == base[m.owner.id] || exists x :: x in rivals && prio[m.owner.id] == base[x])
          && (m.flag.Prio? ==> forall x :: x in rivals ==> prio[m.owner.id] <= base[x]))
  }

  ghost predicate MutexOk(s: Sys, i: Mid)
    requires i < |s.mutexes| == |s.rivals|
  {
    && Counted(s.mutexes[i]) && Listed(s.mutexes[i], s.prio)
    && Inherits(s.mutexes[i], s.rivals[i], s.prio, s.base)
  }

  ghost predicate Owns(s: Sys, t: Tid, i: Mid) {
    i < |s.mutexes| && s.mutexes[i].owner == Thread(t)
  }

  /** What a thread's phase says about the mutexes, and its priority when it owns none. */
  ghost predicate ThreadOk(s: Sys, t: Tid)
    requires t in s.phase
  {
    && t in s.prio && t in s.base
    && (forall i :: 0 <= i < |s.mutexes| ==> (t in s.mutexes[i].waiters <==> s.phase[t].Asleep? && s.phase[t].on == i))
    && (s.phase[t].Asleep? ==> s.phase[t].on < |s.mutexes| && forall i :: !Owns(s, t, i))
    && (s.phase[t].Granted? ==> Owns(s, t, s.phase[t].of) && s.mutexes[s.phase[t].of].hold == 1)
    && (forall i, j :: Owns(s, t, i) && Owns(s, t, j) ==> i == j)
    && ((forall i :: !Owns(s, t, i)) ==> s.prio[t] == s.base[t])
  }

  ghost predicate Inv(s: Sys) {
    && |s.mutexes| == |s.rivals|
    && (forall i :: 0 <= i < |s.mutexes| ==> MutexOk(s, i))
    && (forall t :: t in s.phase ==> ThreadOk(s, t))
    && (forall i, t :: Owns(s, t, i) ==> t in s.phase)
    && (forall i, t :: 0 <= i < |s.mutexes| && t in s.mutexes[i].waiters ==> t in s.phase)
  }

  // ---------------------------------------------------------------- what an event leaves alone

  lemma SortedSame(list: seq<Tid>, f: Tid -> int, g: Tid -> int)
    requires Sorted(list, f) && forall t :: t in list ==> f(t) == g(t)
    ensures Sorted(list, g)
  {
  }

  /** A mutex whose owner and waiters keep their priorities. */
  lemma MutexFrame(s: Sys, s': Sys, j: Mid, x: Tid, p: int)
    requires Inv(s) && j < |s.mutexes| == |s'.mutexes| == |s'.rivals| && s'.base == s.base
    requires s'.mutexes[j] == s.mutexes[j] && s'.rivals[j] == s.rivals[j]
    requires s'.prio == s.prio || (s'.prio == s.prio[x := p] && !Owns(s, x, j) && x !in s.mutexes[j].waiters)
    ensures MutexOk(s', j)
  {
    assert MutexOk(s, j);
    if s.mutexes[j].flag.Prio? {
      SortedSame(s.mutexes[j].waiters, Of(s.prio), Of(s'.prio));
    }
  }

  /** A section in which only the phase of a running thread changes. */
  lemma PhaseInv(s: Sys, t: Tid, p: Phase)
    requires Inv(s) && t in s.phase && !s.phase[t].Asleep? && p.Running?
    ensures Inv(s.(phase := s.phase[t := p]))
  {
    var s' := s.(phase := s.phase[t := p]);
    forall i | 0 <= i < |s.mutexes| ensures MutexOk(s', i) {
      assert MutexOk(s, i);
    }
    forall x | x in s'.phase ensures ThreadOk(s', x) {
      assert ThreadOk(s, x);
      assert forall i :: Owns(s', x, i) == Owns(s, x, i);
    }
    assert forall i, x :: Owns(s', x, i) == Owns(s, x, i);
  }

  // ---------------------------------------------------------------- taking

  /** The owner takes the mutex once more, or gives one hold back. */
  lemma HoldInv(s: Sys, t: Tid, i: Mid, hold: nat)
    requires Inv(s) && t in s.phase && s.phase[t].Running? && Owns(s, t, i) && 0 < hold <= 255
    ensures Inv(s.(mutexes := s.mutexes[i := s.mutexes[i].(hold := hold)], phase := s.phase[t := Running(EOK)]))
  {
    hide Sorted, Unique;
    var s' := s.(mutexes := s.mutexes[i := s.mutexes[i].(hold := hold)], phase := s.phase[t := Running(EOK)]);
    assert MutexOk(s, i);
    forall j | 0 <= j < |s.mutexes| ensures MutexOk(s', j) {
      assert MutexOk(s, j);
    }
    assert forall j, x :: Owns(s', x, j) == Owns(s, x, j);
    forall x | x in s'.phase ensures ThreadOk(s', x) {
      assert ThreadOk(s, x);
    }
  }

  /** A thread that owns nothing takes a free mutex. */
  lemma AcquireInv(s: Sys, t: Tid, i: Mid)
    requires Inv(s) && t in s.phase && s.phase[t].Running? && i < |s.mutexes| && s.mutexes[i].value > 0
    requires forall j :: !Owns(s, t, j)
    ensures Inv(TakeStep(s, t, i, 0))
  {
    hide Sorted, Unique;
    var s' := TakeStep(s, t, i, 0);
    assert MutexOk(s, i) && ThreadOk(s, t);
    forall j | 0 <= j < |s.mutexes| ensures MutexOk(s', j) {
      assert MutexOk(s, j);
    }
    assert forall j, x :: Owns(s', x, j) == if j == i then x == t else Owns(s, x, j);
    forall x | x in s'.phase ensures ThreadOk(s', x) {
      assert ThreadOk(s, x);
    }
  }

  /** A new rival: the owner inherits its priority. */
  lemma InheritsWait(m: Mutex, rivals: set<Tid>, prio: map<Tid, int>, base: map<Tid, int>, t: Tid, waiters: seq<Tid>)
    requires Inherits(m, rivals, prio, base) && m.owner.Thread? && m.owner.id != t
    requires t in prio && t in base && prio[t] == base[t]
    requires forall x :: x in waiters <==> x in m.waiters || x == t
    ensures Inherits(m.(waiters := waiters), rivals + {t}, Boosted(prio, m.owner, t), base)
  {
  }

  /** The list with one more waiter. */
  lemma ListedWait(m: Mutex, prio: map<Tid, int>, t: Tid)
    requires Listed(m, prio) && m.owner.Thread? && m.owner.id !in m.waiters && t !in m.waiters
    ensures var prio' := Boosted(prio, m.owner, t);
            var w := Suspended(m.waiters, t, Of(prio'), m.flag);
            Listed(m.(waiters := w), prio') && forall x :: x in w <==> x in m.waiters || x == t
  {
    var prio' := Boosted(prio, m.owner, t);
    hide Suspended;
    SuspendedMembers(m.waiters, t, Of(prio'), m.flag);
    if m.flag.Prio? {
      SortedSame(m.waiters, Of(prio), Of(prio'));
      SuspendedSorted(m.waiters, t, Of(prio'));
    }
  }

  /** The thread t falls asleep on mutex i. */
  lemma WaitMutex(s: Sys, t: Tid, i: Mid, time: int)
    requires Inv(s) && t in s.phase && s.phase[t].Running? && i < |s.mutexes| && !Free(s.mutexes[i], t) && time != 0
    requires forall j :: !Owns(s, t, j)
    ensures MutexOk(TakeStep(s, t, i, time), i)
    ensures forall x :: x in TakeStep(s, t, i, time).mutexes[i].waiters <==> x in s.mutexes[i].waiters || x == t
  {
    hide Suspended, Listed, Inherits;
    var m := s.mutexes[i];
    assert MutexOk(s, i) && ThreadOk(s, t) && t !in m.waiters;
    var o := m.owner.id;
    assert Owns(s, o, i) && ThreadOk(s, o) && o !in m.waiters && o != t;
    ListedWait(m, s.prio, t);
    InheritsWait(m, s.rivals[i], s.prio, s.base, t, Suspended(m.waiters, t, Of(Boosted(s.prio, m.owner, t)), m.flag));
  }

  lemma WaitInv(s: Sys, t: Tid, i: Mid, time: int)
    requires Inv(s) && t in s.phase && s.phase[t].Running? && i < |s.mutexes| && !Free(s.mutexes[i], t) && time != 0
    requires forall j :: !Owns(s, t, j)
    ensures Inv(TakeStep(s, t, i, time))
  {
    hide Sorted, Unique, Suspended, Inherits;
    WaitMutex(s, t, i, time);
    var s', m := TakeStep(s, t, i, time), s.mutexes[i];
    assert MutexOk(s, i);
    var o := m.owner.id;
    assert Owns(s, o, i) && ThreadOk(s, o);
    forall j | 0 <= j < |s.mutexes| ensures MutexOk(s', j) {
      if j != i {
        assert !Owns(s, o, j);
        MutexFrame(s, s', j, o, Of(s.prio)(t));
      }
    }
    assert forall j, x :: Owns(s', x, j) == Owns(s, x, j);
    forall x | x in s'.phase ensures ThreadOk(s', x) {
      assert ThreadOk(s, x);
    }
  }

  // ---------------------------------------------------------------- releasing

  lemma UnlockMutex(s: Sys, t: Tid, i: Mid)
    requires Inv(s) && t in s.phase && Owns(s, t, i) && Final(s.mutexes[i]) && s.mutexes[i].waiters == []
    ensures MutexOk(ReleaseStep(s, t, i), i)
  {
    hide Sorted, Unique, ThreadOk;
    assert MutexOk(s, i);
    EmptySorted(Of(ReleaseStep(s, t, i).prio));
  }

  /** The last hold is given back and nobody waits. */
  lemma UnlockInv(s: Sys, t: Tid, i: Mid)
    requires Inv(s) && t in s.phase && s.phase[t].Running? && Owns(s, t, i) && Final(s.mutexes[i])
    requires s.mutexes[i].waiters == []
    ensures Inv(ReleaseStep(s, t, i))
  {
    hide Sorted, Unique;
    var s' := ReleaseStep(s, t, i);
    assert MutexOk(s, i) && ThreadOk(s, t);
    UnlockMutex(s, t, i);
    forall j | 0 <= j < |s.mutexes| ensures MutexOk(s', j) {
      if j != i {
        assert !Owns(s, t, j);
        MutexFrame(s, s', j, t, s.mutexes[i].original);
      }
    }
    hide MutexOk;
    assert forall j, x :: Owns(s', x, j) == (j != i && Owns(s, x, j));
    forall x | x in s'.phase ensures ThreadOk(s', x) {
      assert ThreadOk(s, x);
      if x != t {
        assert !Owns(s, x, i);
      }
    }
  }

  lemma EmptySorted(f: Tid -> int)
    ensures Sorted([], f) && Unique([])
  {
  }

  lemma TailOf(list: seq<Tid>, f: Tid -> int)
    requires Unique(list) && list != []
    ensures Unique(list[1..])
    ensures Sorted(list, f) ==> Sorted(list[1..], f) && forall x :: x in list[1..] ==> f(list[0]) <= f(x)
    ensures forall x :: x in list[1..] <==> x in list && x != list[0]
  {
  }

  lemma HandOverMutex(s: Sys, t: Tid, i: Mid)
    requires Inv(s) && t in s.phase && s.phase[t].Running? && Owns(s, t, i) && Final(s.mutexes[i])
    requires s.mutexes[i].waiters != []
    ensures MutexOk(ReleaseStep(s, t, i), i)
  {
    var m, s' := s.mutexes[i], ReleaseStep(s, t, i);
    var w := m.waiters[0];
    assert MutexOk(s, i) && ThreadOk(s, t) && w in m.waiters && ThreadOk(s, w);
    TailOf(m.waiters, Of(s.prio));
    assert w != t && t !in m.waiters;
    if m.flag.Prio? {
      SortedSame(m.waiters[1..], Of(s.prio), Of(s'.prio));
    }
    hide Sorted, Unique;
    assert s'.mutexes[i].waiters == m.waiters[1..];
    forall x | x in m.waiters[1..] ensures x in s'.rivals[i] && x in s.base && Of(s.prio)(x) == s.base[x] {
      assert x in m.waiters && ThreadOk(s, x);
    }
    assert s'.prio[w] == s.base[w];
  }

  /** The last hold is given to the first waiter. */
  lemma HandOverInv(s: Sys, t: Tid, i: Mid)
    requires Inv(s) && t in s.phase && s.phase[t].Running? && Owns(s, t, i) && Final(s.mutexes[i])
    requires s.mutexes[i].waiters != []
    ensures Inv(ReleaseStep(s, t, i))
  {
    HandOverMutex(s, t, i);
    var m, s' := s.mutexes[i], ReleaseStep(s, t, i);
    var w := m.waiters[0];
    assert MutexOk(s, i) && ThreadOk(s, t) && w in m.waiters && ThreadOk(s, w);
    TailOf(m.waiters, Of(s.prio));
    hide Sorted, Unique, Inherits;
    forall j | 0 <= j < |s.mutexes| ensures MutexOk(s', j) {
      if j != i {
        assert !Owns(s, t, j);
        MutexFrame(s, s', j, t, m.original);
      }
    }
    assert forall j, x :: Owns(s', x, j) == if j == i then x == w else Owns(s, x, j);
    forall x | x in s'.phase ensures ThreadOk(s', x) {
      assert ThreadOk(s, x);
    }
  }

  lemma ExpireInv(s: Sys, t: Tid)
    requires Inv(s) && Enabled(s, Expire(t))
    ensures Inv(Step(s, Expire(t)))
  {
    hide Sorted, Unique;
    var i := s.phase[t].on;
    var m, s' := s.mutexes[i], Step(s, Expire(t));
    assert MutexOk(s, i) && ThreadOk(s, t);
    RemovedMembers(m.waiters, t);
    if m.flag.Prio? {
      RemovedSorted(m.waiters, t, Of(s.prio));
    }
    hide Removed;
    forall j | 0 <= j < |s.mutexes| ensures MutexOk(s', j) {
      assert MutexOk(s, j);
    }
    hide MutexOk;
    assert forall j, x :: Owns(s', x, j) == Owns(s, x, j);
    forall x | x in s'.phase ensures ThreadOk(s', x) {
      assert ThreadOk(s, x);
    }
  }

  // ---------------------------------------------------------------- all runs

  lemma StepInv(s: Sys, e: Event)
    requires Inv(s) && Enabled(s, e) && Disciplined(s, e)
    ensures Inv(Step(s, e))
  {
    hide MutexOk, ThreadOk;
    match e
    case Take(t, i, time) => TakeInv(s, t, i, time);
    case Release(t, i) => ReleaseInv(s, t, i);
    case Expire(t) => ExpireInv(s, t);
    case Return(t) => PhaseInv(s, t, Running(EOK));
  }

  lemma TakeInv(s: Sys, t: Tid, i: Mid, time: int)
    requires Inv(s) && Enabled(s, Take(t, i, time)) && Disciplined(s, Take(t, i, time))
    ensures Inv(TakeStep(s, t, i, time))
  {
    hide Inv;
    var m := s.mutexes[i];
    if Owns(s, t, i) {
      HoldInv(s, t, i, m.hold + 1);
    } else if m.value > 0 {
      AcquireInv(s, t, i);
    } else if time == 0 {
      PhaseInv(s, t, Running(ETIMEOUT));
      assert s.mutexes[i := m] == s.mutexes;
    } else {
      WaitInv(s, t, i, time);
    }
  }

  lemma ReleaseInv(s: Sys, t: Tid, i: Mid)
    requires Inv(s) && Enabled(s, Release(t, i))
    ensures Inv(ReleaseStep(s, t, i))
  {
    var m := s.mutexes[i];
    assert MutexOk(s, i);
    hide Inv;
    if !Owns(s, t, i) {
      PhaseInv(s, t, Running(ERROR));
      assert s.mutexes[i := m] == s.mutexes;
    } else if !Final(m) {
      HoldInv(s, t, i, m.hold - 1);
    } else if m.waiters == [] {
      UnlockInv(s, t, i);
    } else {
      HandOverInv(s, t, i);
    }
  }

  /** rt_mutex_init for every mutex: nobody owns or waits for anything. */
  function Fresh(flags: seq<Flag>, base: map<Tid, int>): Sys {
    Sys(seq(|flags|, i requires 0 <= i < |flags| => Mutex(flags[i], 1, 0, Nobody, UNOWNED, [])),
        seq(|flags|, i => {}), base, base, map t | t in base :: Running(EOK))
  }

  lemma FreshInv(flags: seq<Flag>, base: map<Tid, int>)
    ensures Inv(Fresh(flags, base))
  {
  }

  /** The events can happen one after the other, and every one of them keeps to the discipline. */
  ghost predicate Reaches(s: Sys, events: seq<Event>, s': Sys)
    decreases |events|
  {
    if events == [] then s == s'
    else
      && Enabled(s, events[0]) && Disciplined(s, events[0])
      && Reaches(Step(s, events[0]), events[1..], s')
  }

  lemma {:induction false} RunInv(s: Sys, events: seq<Event>, s': Sys)
    requires Inv(s) && Reaches(s, events, s')
    ensures Inv(s') && s'.base == s.base
    decreases |events|
  {
    hide Inv;
    if events != [] {
      StepInv(s, events[0]);
      RunInv(Step(s, events[0]), events[1..], s');
    }
  }

  /** The owner of the mutex runs with a priority at least as urgent as that of every thread that waits for it. */
  ghost predicate Urgent(s: Sys, i: Mid)
    requires i < |s.mutexes|
  {
    s.mutexes[i].owner.Thread? ==>
      forall w :: w in s.mutexes[i].waiters ==> Of(s.prio)(s.mutexes[i].owner.id) <= Of(s.prio)(w)
  }

  /** What holds of every mutex after every disciplined run. */
  lemma Safety(flags: seq<Flag>, base: map<Tid, int>, events: seq<Event>, s: Sys, i: Mid)
    requires Reaches(Fresh(flags, base), events, s) && i < |s.mutexes|
    ensures var m := s.mutexes[i];
            && (m.owner.Thread? <==> m.value == 0) && (m.owner.Thread? <==> m.hold > 0)
            && (m.waiters != [] ==> m.owner.Thread?)
            && (m.flag.Prio? ==> Sorted(m.waiters, Of(s.prio)) && Urgent(s, i))
  {
    FreshInv(flags, base);
    RunInv(Fresh(flags, base), events, s);
    assert MutexOk(s, i);
    forall w | w in s.mutexes[i].waiters ensures Of(s.prio)(w) == s.base[w] {
      assert ThreadOk(s, w);
    }
  }

  /** Whatever it lived through, a thread that owns no mutex is back at its own priority. */
  lemma Restored(flags: seq<Flag>, base: map<Tid, int>, events: seq<Event>, s: Sys, t: Tid)
    requires Reaches(Fresh(flags, base), events, s)
    requires t in s.phase && forall i :: !Owns(s, t, i)
    ensures t in s.prio && t in base && s.prio[t] == base[t]
  {
    FreshInv(flags, base);
    RunInv(Fresh(flags, base), events, s);
    assert ThreadOk(s, t);
  }

  /** The priority of an owner is its own one or that of a thread that wanted the mutex, never anything else. */
  lemma NoStrangePriority(flags: seq<Flag>, base: map<Tid, int>, events: seq<Event>, s: Sys, t: Tid, i: Mid)
    requires Reaches(Fresh(flags, base), events, s) && Owns(s, t, i)
    ensures |s.rivals| == |s.mutexes| && t in s.prio && t in base && s.prio[t] <= base[t]
    ensures s.prio[t] == base[t] || exists x :: x in s.rivals[i] && x in base && s.prio[t] == base[x]
  {
    FreshInv(flags, base);
    RunInv(Fresh(flags, base), events, s);
    assert MutexOk(s, i);
  }

  /** The final release hands a mutex kept by priority to a most urgent waiter. */
  lemma MostUrgentNext(s: Sys, t: Tid, i: Mid)
    requires Inv(s) && Enabled(s, Release(t, i)) && Owns(s, t, i) && Final(s.mutexes[i]) && s.mutexes[i].waiters != []
    requires s.mutexes[i].flag.Prio?
    ensures var o := ReleaseStep(s, t, i).mutexes[i].owner;
            && o.Thread? && o.id in s.mutexes[i].waiters
            && forall w :: w in s.mutexes[i].waiters ==> Of(s.base)(o.id) <= Of(s.base)(w)
  {
    var m := s.mutexes[i];
    assert MutexOk(s, i);
    TailOf(m.waiters, Of(s.prio));
    forall w | w in m.waiters ensures Of(s.prio)(w) == Of(s.base)(w) {
      assert ThreadOk(s, w);
    }
  }

  // ---------------------------------------------------------------- where the discipline ends

  /** The hold counter has eight bits: one more take by the owner keeps the invariant exactly below 255 holds. */
  lemma DeepNesting(s: Sys, t: Tid, i: Mid, time: int)
    requires Inv(s) && Enabled(s, Take(t, i, time)) && Owns(s, t, i)
    ensures Inv(TakeStep(s, t, i, time)) <==> s.mutexes[i].hold < 255
  {
    assert MutexOk(s, i);
    if s.mutexes[i].hold < 255 {
      HoldInv(s, t, i, s.mutexes[i].hold + 1);
    } else {
      assert !MutexOk(TakeStep(s, t, i, time), i);
    }
  }

  /** A hand-over does not boost the new owner: that is right exactly if the first waiter is a most urgent one. */
  lemma HandOverUrgent(s: Sys, t: Tid, i: Mid)
    requires Inv(s) && Enabled(s, Release(t, i)) && Owns(s, t, i) && Final(s.mutexes[i]) && s.mutexes[i].waiters != []
    ensures Urgent(ReleaseStep(s, t, i), i) <==>
            forall w :: w in s.mutexes[i].waiters ==> Of(s.prio)(s.mutexes[i].waiters[0]) <= Of(s.prio)(w)
  {
    var m, s' := s.mutexes[i], ReleaseStep(s, t, i);
    assert MutexOk(s, i) && ThreadOk(s, t) && m.waiters[0] in m.waiters;
    TailOf(m.waiters, Of(s.prio));
    assert forall w :: w in m.waiters ==> Of(s'.prio)(w) == Of(s.prio)(w);
    assert s'.mutexes[i].waiters == m.waiters[1..];
  }

  /** A take of a free mutex, and a take that waits, field by field. */
  lemma TakeShape(s: Sys, t: Tid, i: Mid)
    requires Enabled(s, Take(t, i, -1)) && t in s.prio && s.mutexes[i].owner != Thread(t)
    requires s.mutexes[i].value == 1 && s.mutexes[i].hold == 0
    ensures var s' := Step(s, Take(t, i, -1));
            && s'.mutexes == s.mutexes[
                 i := s.mutexes[i].(value := 0, owner := Thread(t), original := s.prio[t], hold := 1)]
            && s'.prio == s.prio && s'.phase == s.phase[t := Running(EOK)] && |s'.rivals| == |s.rivals|
  {
  }

  lemma WaitShape(s: Sys, t: Tid, i: Mid)
    requires Enabled(s, Take(t, i, -1)) && t in s.prio && s.mutexes[i].value == 0
    requires s.mutexes[i].owner.Thread? && s.mutexes[i].owner.id in s.prio && s.mutexes[i].owner.id != t
    requires s.prio[t] < s.prio[s.mutexes[i].owner.id] && (s.mutexes[i].waiters == [] || s.mutexes[i].flag.Fifo?)
    ensures var s' := Step(s, Take(t, i, -1));
            && s'.mutexes == s.mutexes[i := s.mutexes[i].(waiters := s.mutexes[i].waiters + [t])]
            && s'.prio == s.prio[s.mutexes[i].owner.id := s.prio[t]]
            && s'.phase == s.phase[t := Asleep(i, false)] && |s'.rivals| == |s.rivals|
  {
    var m := s.mutexes[i];
    assert m.waiters[..|m.waiters|] == m.waiters && m.waiters[|m.waiters|..] == [];
    assert m.waiters + [t] + [] == m.waiters + [t];
  }

  /** In a list kept in the order of arrival it may not be. */
  lemma FifoInversion()
    ensures exists events, s ::
              Reaches(Fresh([Fifo], map[1 := 20, 2 := 10, 3 := 5]), events, s) && |s.mutexes| == 1 && !Urgent(s, 0)
  {
    hide Reaches, Step, TakeMutex, TakePrio;
    var s0 := Fresh([Fifo], map[1 := 20, 2 := 10, 3 := 5]);
    TakeShape(s0, 1, 0);
    var s1 := Step(s0, Take(1, 0, -1));
    WaitShape(s1, 2, 0);
    var s2 := Step(s1, Take(2, 0, -1));
    WaitShape(s2, 3, 0);
    var s3 := Step(s2, Take(3, 0, -1));
    assert s3.mutexes[0] == Mutex(Fifo, 0, 1, Thread(1), 20, [2, 3]) && s3.prio == map[1 := 5, 2 := 10, 3 := 5];
    FifoRelease(s3);
    var s4 := Step(s3, Release(1, 0));
    FourSteps(s0, Take(1, 0, -1), Take(2, 0, -1), Take(3, 0, -1), Release(1, 0), s1, s2, s3, s4);
  }

  lemma FifoRelease(s: Sys)
    requires Enabled(s, Release(1, 0)) && |s.mutexes| == 1
    requires s.mutexes[0] == Mutex(Fifo, 0, 1, Thread(1), 20, [2, 3]) && s.prio == map[1 := 5, 2 := 10, 3 := 5]
    ensures var s' := Step(s, Release(1, 0)); |s'.mutexes| == 1 && !Urgent(s', 0)
  {
    var s' := Step(s, Release(1, 0));
    assert s'.mutexes[0].owner == Thread(2) && s'.mutexes[0].waiters == [3];
    assert 3 in s'.mutexes[0].waiters;
  }

  lemma FourSteps(s0: Sys, e1: Event, e2: Event, e3: Event, e4: Event, s1: Sys, s2: Sys, s3: Sys, s4: Sys)
    requires Enabled(s0, e1) && Step(s0, e1) == s1 && Enabled(s1, e2) && Step(s1, e2) == s2
    requires Enabled(s2, e3) && Step(s2, e3) == s3 && Enabled(s3, e4) && Step(s3, e4) == s4
    requires Disciplined(s0, e1) && Disciplined(s1, e2) && Disciplined(s2, e3) && Disciplined(s3, e4)
    ensures Reaches(s0, [e1, e2, e3, e4], s4)
  {
    hide Enabled, Step, Disciplined;
    assert Reaches(s4, [], s4);
    assert [e1, e2, e3, e4][1..] == [e2, e3, e4] && [e2, e3, e4][1..] == [e3, e4];
    assert [e3, e4][1..] == [e4] && [e4][1..] == [];
    assert Reaches(s3, [e4], s4);
    assert Reaches(s2, [e3, e4], s4);
    assert Reaches(s1, [e2, e3, e4], s4);
  }
}
