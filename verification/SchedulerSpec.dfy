/**
 The uniprocessor scheduler of src/scheduler.c and the thread operations of
 src/thread.c that go through it, on values: one queue per priority, a smaller
 number being more urgent.
 */
module SchedulerSpec {

  import opened IpcList

  datatype Stat = Init | Ready | Running | Blocked

  datatype Thread = Thread(stat: Stat, prio: nat, initPrio: nat)

  /** `lock` is rt_scheduler_lock_nest. */
  datatype Sys = Sys(queues: seq<seq<Tid>>, threads: map<Tid, Thread>, current: Tid, lock: int)

  // ---------------------------------------------------------------- queues

  /** The most urgent priority from p on whose queue is not empty, or the number of queues. */
  function Top(queues: seq<seq<Tid>>, p: nat): (r: nat)
    requires p <= |queues|
    ensures p <= r <= |queues| && (r < |queues| ==> queues[r] != [])
    ensures forall q :: p <= q < r ==> queues[q] == []
    decreases |queues| - p
  {
    if p == |queues| || queues[p] != [] then p else Top(queues, p + 1)
  }

  lemma TopIs(queues: seq<seq<Tid>>, p: nat)
    requires p < |queues| && queues[p] != [] && forall q :: 0 <= q < p ==> queues[q] == []
    ensures Top(queues, 0) == p
  {
  }

  predicate Known(s: Sys, t: Tid) {
    t in s.threads && s.threads[t].prio < |s.queues|
  }

  function SetStat(s: Sys, t: Tid, stat: Stat): Sys
    requires t in s.threads
  {
    s.(threads := s.threads[t := s.threads[t].(stat := stat)])
  }

  /** rt_schedule_insert_thread */
  function Insert(s: Sys, t: Tid): Sys
    requires Known(s, t)
  {
    if t == s.current then SetStat(s, t, Running)
    else
      var p := s.threads[t].prio;
      SetStat(s, t, Ready).(queues := s.queues[p := s.queues[p] + [t]])
  }

  /** rt_schedule_remove_thread */
  function Remove(s: Sys, t: Tid): Sys
    requires Known(s, t)
  {
    var p := s.threads[t].prio;
    s.(queues := s.queues[p := Removed(s.queues[p], t)])
  }

  // ---------------------------------------------------------------- the operations

  /** The switch of rt_schedule from the current thread to another one. */
  function SwitchTo(s: Sys, to: Tid, insertFrom: bool): Sys
    requires Known(s, to) && Known(s, s.current)
  {
    var s1 := s.(current := to);
    var s2 := if insertFrom && s.current != to then Insert(s1, s.current) else s1;
    SetStat(Remove(s2, to), to, Running)
  }

  predicate Schedulable(s: Sys) {
    Known(s, s.current) && forall p :: 0 <= p < |s.queues| && s.queues[p] != [] ==> Known(s, s.queues[p][0])
  }

  /** rt_schedule */
  function Schedule(s: Sys): Sys
    requires Schedulable(s)
  {
    var h := Top(s.queues, 0);
    if s.lock != 0 || h == |s.queues| then s
    else
      var runs := s.threads[s.current].stat.Running?;
      if runs && s.threads[s.current].prio < h then SetStat(Remove(s, s.current), s.current, Running)
      else SwitchTo(s, s.queues[h][0], runs)
  }

  /** rt_thread_suspend; nothing happens to a thread that is neither ready nor running. */
  function Suspend(s: Sys, t: Tid): Sys
    requires Known(s, t)
  {
    if s.threads[t].stat.Ready? || s.threads[t].stat.Running? then SetStat(Remove(s, t), t, Blocked) else s
  }

  /** rt_thread_resume; nothing happens to a thread that is not suspended. */
  function Resume(s: Sys, t: Tid): Sys
    requires Known(s, t)
  {
    if s.threads[t].stat.Blocked? then Insert(s, t) else s
  }

  /** rt_thread_control with RT_THREAD_CTRL_CHANGE_PRIORITY */
  function ChangePrio(s: Sys, t: Tid, p: nat): Sys
    requires Known(s, t) && p < |s.queues|
  {
    if s.threads[t].stat.Ready? then
      var s1 := Remove(s, t);
      Insert(s1.(threads := s1.threads[t := s1.threads[t].(prio := p)]), t)
    else s.(threads := s.threads[t := s.threads[t].(prio := p)])
  }

  /** rt_thread_startup, without the schedule behind it. */
  function Startup(s: Sys, t: Tid): Sys
    requires t in s.threads && s.threads[t].initPrio < |s.queues|
  {
    Resume(s.(threads := s.threads[t := Thread(Blocked, s.threads[t].initPrio, s.threads[t].initPrio)]), t)
  }

  // ---------------------------------------------------------------- the invariant

  /** Queue p holds ready threads of priority p, once each, and not the current one. */
  ghost predicate QueueOk(s: Sys, p: nat)
    requires p < |s.queues|
  {
    && Unique(s.queues[p])
    && forall t :: t in s.queues[p] ==>
         t in s.threads && s.threads[t].stat.Ready? && s.threads[t].prio == p && t != s.current
  }

  ghost predicate ThreadOk(s: Sys, t: Tid)
    requires t in s.threads
  {
    && s.threads[t].prio < |s.queues| && s.threads[t].initPrio < |s.queues|
    && (s.threads[t].stat.Ready? ==> t in s.queues[s.threads[t].prio])
    && (s.threads[t].stat.Running? ==> t == s.current)
    && (t == s.current ==> s.threads[t].stat.Running? || s.threads[t].stat.Blocked?)
  }

  /** What holds from the first thread on, before the scheduler is started too. */
  ghost predicate Queued(s: Sys) {
    && (forall p :: 0 <= p < |s.queues| ==> QueueOk(s, p))
    && (forall t :: t in s.threads ==> ThreadOk(s, t))
  }

  ghost predicate Inv(s: Sys) {
    Queued(s) && s.current in s.threads
  }

  /** The thread could run now. */
  predicate Runnable(s: Sys, t: Tid) {
    t in s.threads && (s.threads[t].stat.Ready? || s.threads[t].stat.Running?)
  }

  lemma InvSchedulable(s: Sys)
    requires Inv(s)
    ensures Schedulable(s)
  {
    assert ThreadOk(s, s.current);
    forall p | 0 <= p < |s.queues| && s.queues[p] != [] ensures Known(s, s.queues[p][0]) {
      assert QueueOk(s, p) && s.queues[p][0] in s.queues[p];
    }
  }

  // ---------------------------------------------------------------- every operation keeps the invariant

  /** The invariant, of all threads but t, which is in no queue. */
  ghost predicate InvBut(s: Sys, t: Tid) {
    && Known(s, t) && s.threads[t].initPrio < |s.queues|
    && (forall p :: 0 <= p < |s.queues| ==> QueueOk(s, p) && t !in s.queues[p])
    && (forall x :: x in s.threads && x != t ==> ThreadOk(s, x))
  }

  lemma Join(s: Sys, t: Tid)
    requires InvBut(s, t) && ThreadOk(s, t)
    ensures Queued(s)
  {
  }

  /** A thread that is in no queue goes to the end of its own. */
  lemma InsertInv(s: Sys, t: Tid)
    requires InvBut(s, t) && t != s.current
    ensures Queued(Insert(s, t))
  {
    hide Unique;
    var s', p := Insert(s, t), s.threads[t].prio;
    forall q | 0 <= q < |s.queues| ensures QueueOk(s', q) {
      assert QueueOk(s, q);
      if q == p {
        BackUnique(s.queues[p], t);
      }
    }
    forall x | x in s'.threads ensures ThreadOk(s', x) {
      if x != t {
        assert ThreadOk(s, x);
      } else {
        assert s'.queues[p][|s.queues[p]|] == t;
      }
    }
  }

  lemma RemoveInv(s: Sys, t: Tid)
    requires Queued(s) && t in s.threads
    ensures Known(s, t) && InvBut(Remove(s, t), t)
  {
    hide Unique;
    assert ThreadOk(s, t);
    var s', p := Remove(s, t), s.threads[t].prio;
    assert QueueOk(s, p);
    RemovedMembers(s.queues[p], t);
    hide Removed;
    forall q | 0 <= q < |s'.queues| ensures QueueOk(s', q) && t !in s'.queues[q] {
      assert QueueOk(s, q);
    }
    forall x | x in s'.threads && x != t ensures ThreadOk(s', x) {
      assert ThreadOk(s, x);
    }
  }

  /** The fields of a thread that is in no queue do not matter to the others. */
  lemma ButChange(s: Sys, t: Tid, x: Thread)
    requires InvBut(s, t) && x.prio < |s.queues| && x.initPrio < |s.queues|
    ensures InvBut(s.(threads := s.threads[t := x]), t)
  {
  }

  lemma SuspendInv(s: Sys, t: Tid)
    requires Inv(s) && t in s.threads
    ensures Known(s, t) && Inv(Suspend(s, t))
  {
    hide InvBut, Remove;
    RemoveInv(s, t);
    if s.threads[t].stat.Ready? || s.threads[t].stat.Running? {
      assert ThreadOk(s, t);
      RemoveKeeps(s, t);
      ButChange(Remove(s, t), t, s.threads[t].(stat := Blocked));
      Join(Suspend(s, t), t);
    }
  }

  lemma RemoveKeeps(s: Sys, t: Tid)
    requires Known(s, t)
    ensures Remove(s, t).threads == s.threads && Remove(s, t).current == s.current && Remove(s, t).lock == s.lock
    ensures |Remove(s, t).queues| == |s.queues|
  {
  }

  /** Nothing is known of the queues about a thread that is not ready. */
  lemma NotQueued(s: Sys, t: Tid)
    requires Queued(s) && t in s.threads && !s.threads[t].stat.Ready?
    ensures InvBut(s, t)
  {
  }

  lemma ResumeInv(s: Sys, t: Tid)
    requires Inv(s) && t in s.threads
    ensures Known(s, t) && Inv(Resume(s, t))
  {
    assert ThreadOk(s, t);
    if s.threads[t].stat.Blocked? {
      NotQueued(s, t);
      hide InvBut;
      if t == s.current {
        ButChange(s, t, s.threads[t].(stat := Running));
        Join(Resume(s, t), t);
      } else {
        InsertInv(s, t);
      }
    }
  }

  lemma ChangePrioInv(s: Sys, t: Tid, p: nat)
    requires Inv(s) && t in s.threads && p < |s.queues|
    ensures Known(s, t) && Inv(ChangePrio(s, t, p))
  {
    hide InvBut, Remove;
    assert ThreadOk(s, t);
    if s.threads[t].stat.Ready? {
      RemoveInv(s, t);
      RemoveKeeps(s, t);
      ButChange(Remove(s, t), t, s.threads[t].(prio := p));
      InsertInv(Remove(s, t).(threads := s.threads[t := s.threads[t].(prio := p)]), t);
    } else {
      NotQueued(s, t);
      ButChange(s, t, s.threads[t].(prio := p));
      Join(ChangePrio(s, t, p), t);
    }
  }

  /** Starting a thread makes it ready, whether the scheduler runs already or not. */
  lemma StartupInv(s: Sys, t: Tid)
    requires Queued(s) && t in s.threads && s.threads[t].stat.Init?
    ensures s.threads[t].initPrio < |s.queues| && Queued(Startup(s, t))
    ensures Inv(s) ==> Inv(Startup(s, t))
  {
    hide InvBut;
    assert ThreadOk(s, t);
    NotQueued(s, t);
    ButChange(s, t, Thread(Blocked, s.threads[t].initPrio, s.threads[t].initPrio));
    InsertInv(s.(threads := s.threads[t := Thread(Blocked, s.threads[t].initPrio, s.threads[t].initPrio)]), t);
  }

  // ---------------------------------------------------------------- what an operation does to its thread

  /** No other thread changes, and the other threads in the queues stay in their order. */
  ghost predicate OthersKept(s: Sys, s': Sys, t: Tid) {
    && s'.threads.Keys == s.threads.Keys && (forall x :: x in s.threads && x != t ==> s'.threads[x] == s.threads[x])
    && |s'.queues| == |s.queues|
    && (forall p :: 0 <= p < |s.queues| ==> Removed(s'.queues[p], t) == Removed(s.queues[p], t))
    && s'.current == s.current && s'.lock == s.lock
  }

  ghost predicate InNoQueue(s: Sys, t: Tid) {
    forall p :: 0 <= p < |s.queues| ==> t !in s.queues[p]
  }

  /** The thread is the last one in queue p and in no other. */
  ghost predicate LastIn(s: Sys, t: Tid, p: nat) {
    && p < |s.queues| && s.queues[p] != [] && s.queues[p][|s.queues[p]| - 1] == t
    && forall q :: 0 <= q < |s.queues| && q != p ==> t !in s.queues[q]
  }

  lemma {:induction false} RemovedBack(list: seq<Tid>, t: Tid)
    requires t !in list
    ensures Removed(list + [t], t) == list
  {
    if list == [] {
      assert list + [t] == [t] && [t][1..] == [];
    } else {
      assert (list + [t])[1..] == list[1..] + [t] && (list + [t])[0] == list[0];
      RemovedBack(list[1..], t);
    }
  }

  lemma QueuesApart(s: Sys, t: Tid)
    requires Queued(s) && t in s.threads
    ensures s.threads[t].prio < |s.queues|
    ensures forall p :: 0 <= p < |s.queues| && p != s.threads[t].prio ==> t !in s.queues[p]
    ensures !s.threads[t].stat.Ready? ==> InNoQueue(s, t)
    ensures forall p :: 0 <= p < |s.queues| ==> Unique(s.queues[p])
  {
    assert ThreadOk(s, t);
    forall p | 0 <= p < |s.queues| && t in s.queues[p]
      ensures p == s.threads[t].prio && s.threads[t].stat.Ready?
    {
      assert QueueOk(s, p);
    }
    forall p | 0 <= p < |s.queues| ensures Unique(s.queues[p]) {
      assert QueueOk(s, p);
    }
  }

  /** Taking a thread out of its queue takes it out of all, and keeps the others in their order. */
  lemma RemoveDoes(s: Sys, t: Tid)
    requires Queued(s) && t in s.threads
    ensures Known(s, t) && OthersKept(s, Remove(s, t), t) && InNoQueue(Remove(s, t), t)
    ensures Remove(s, t).threads == s.threads
  {
    hide Queued, Unique, Removed;
    QueuesApart(s, t);
    var p := s.threads[t].prio;
    RemovedMembers(s.queues[p], t);
    RemovedAbsent(Removed(s.queues[p], t), t);
  }

  /** Putting a thread that is in no queue into one puts it last. */
  lemma InsertDoes(s: Sys, t: Tid)
    requires Known(s, t) && InNoQueue(s, t)
    ensures OthersKept(s, Insert(s, t), t)
    ensures Insert(s, t).threads[t] == s.threads[t].(stat := if t == s.current then Running else Ready)
    ensures if t == s.current then InNoQueue(Insert(s, t), t) else LastIn(Insert(s, t), t, s.threads[t].prio)
  {
    hide Removed;
    var p := s.threads[t].prio;
    RemovedBack(s.queues[p], t);
    RemovedAbsent(s.queues[p], t);
  }

  lemma KeptBoth(s: Sys, s1: Sys, s2: Sys, t: Tid)
    requires OthersKept(s, s1, t) && OthersKept(s1, s2, t)
    ensures OthersKept(s, s2, t)
  {
  }

  /** rt_thread_suspend of a ready or running thread: it is suspended and in no queue; otherwise nothing happens. */
  lemma SuspendDoes(s: Sys, t: Tid)
    requires Inv(s) && t in s.threads
    ensures Known(s, t)
    ensures if s.threads[t].stat.Ready? || s.threads[t].stat.Running? then
              && Suspend(s, t).threads[t] == s.threads[t].(stat := Blocked) && InNoQueue(Suspend(s, t), t)
              && OthersKept(s, Suspend(s, t), t)
            else Suspend(s, t) == s
  {
    hide Queued, Remove;
    RemoveDoes(s, t);
  }

  /** rt_thread_resume of a suspended thread: it is ready and last in its queue, or running if it is the current one. */
  lemma ResumeDoes(s: Sys, t: Tid)
    requires Inv(s) && t in s.threads
    ensures Known(s, t)
    ensures if s.threads[t].stat.Blocked? then
              && Resume(s, t).threads[t] == s.threads[t].(stat := if t == s.current then Running else Ready)
              && (t != s.current ==> LastIn(Resume(s, t), t, s.threads[t].prio))
              && OthersKept(s, Resume(s, t), t)
            else Resume(s, t) == s
  {
    hide Queued, Insert;
    QueuesApart(s, t);
    if s.threads[t].stat.Blocked? {
      InsertDoes(s, t);
    }
  }

  /** A change of priority changes nothing else of the thread, and puts a ready one last in its new queue. */
  lemma ChangePrioDoes(s: Sys, t: Tid, p: nat)
    requires Inv(s) && t in s.threads && p < |s.queues|
    ensures Known(s, t)
    ensures ChangePrio(s, t, p).threads[t] == s.threads[t].(prio := p) && OthersKept(s, ChangePrio(s, t, p), t)
    ensures s.threads[t].stat.Ready? ==> LastIn(ChangePrio(s, t, p), t, p)
  {
    hide Queued, Remove, Insert, Removed;
    RemoveDoes(s, t);
    if s.threads[t].stat.Ready? {
      NotCurrent(s, t);
      var s1 := Remove(s, t);
      var s2 := s1.(threads := s1.threads[t := s1.threads[t].(prio := p)]);
      InsertDoes(s2, t);
      KeptBoth(s, s2, Insert(s2, t), t);
    }
  }

  lemma NotCurrent(s: Sys, t: Tid)
    requires Inv(s) && t in s.threads && s.threads[t].stat.Ready?
    ensures t != s.current
  {
    assert ThreadOk(s, t);
  }

  /** rt_thread_startup: the thread is ready at its initial priority, behind all others of it. */
  lemma StartupDoes(s: Sys, t: Tid)
    requires Queued(s) && t in s.threads && s.threads[t].stat.Init?
    ensures s.threads[t].initPrio < |s.queues|
    ensures var s', p := Startup(s, t), s.threads[t].initPrio;
            && s'.threads[t] == Thread(if t == s.current then Running else Ready, p, p) && OthersKept(s, s', t)
            && (t != s.current ==> LastIn(s', t, p))
  {
    hide Queued, Insert, Removed;
    QueuesApart(s, t);
    InitPrio(s, t);
    var s1 := s.(threads := s.threads[t := Thread(Blocked, s.threads[t].initPrio, s.threads[t].initPrio)]);
    InsertDoes(s1, t);
    KeptBoth(s, s1, Insert(s1, t), t);
  }

  lemma InitPrio(s: Sys, t: Tid)
    requires Queued(s) && t in s.threads
    ensures s.threads[t].initPrio < |s.queues|
  {
    assert ThreadOk(s, t);
  }

  // ---------------------------------------------------------------- scheduling

  /** The switch, in an order that is easier to follow: the new thread leaves its queue, then the old one joins one. */
  function Switched(s: Sys, to: Tid): Sys
    requires Known(s, to)
  {
    SetStat(Remove(s, to), to, Running).(current := to)
  }

  lemma {:induction false} RemovedFirst(list: seq<Tid>, t: Tid, x: Tid)
    requires t in list
    ensures Removed(list + [x], t) == Removed(list, t) + [x]
  {
    if list[0] == t {
      assert (list + [x])[1..] == list[1..] + [x];
    } else {
      assert (list + [x])[1..] == list[1..] + [x] && (list + [x])[0] == list[0];
      RemovedFirst(list[1..], t, x);
      assert [list[0]] + (Removed(list[1..], t) + [x]) == [list[0]] + Removed(list[1..], t) + [x];
    }
  }

  lemma SwitchIs(s: Sys, to: Tid, insertFrom: bool)
    requires Known(s, to) && Known(s, s.current) && to != s.current && to in s.queues[s.threads[to].prio]
    ensures SwitchTo(s, to, insertFrom) == if insertFrom then Insert(Switched(s, to), s.current) else Switched(s, to)
  {
    if insertFrom {
      var p := s.threads[s.current].prio;
      RemovedFirst(s.queues[s.threads[to].prio], to, s.current);
      hide Removed;
      var a, b := SwitchTo(s, to, true), Insert(Switched(s, to), s.current);
      assert a.queues == b.queues;
      assert a.threads == b.threads;
    }
  }

  lemma SwitchedInv(s: Sys, to: Tid)
    requires Inv(s) && to in s.threads && s.threads[to].stat.Ready?
    ensures Known(s, to) && InvBut(Switched(s, to), s.current) && to != s.current
    ensures ThreadOk(Switched(s, to), to) && Switched(s, to).threads[s.current] == s.threads[s.current]
  {
    hide Unique;
    assert ThreadOk(s, to) && ThreadOk(s, s.current);
    RemoveInv(s, to);
    var a, s' := Remove(s, to), Switched(s, to);
    forall p | 0 <= p < |s'.queues| ensures QueueOk(s', p) && s.current !in s'.queues[p] {
      assert QueueOk(a, p);
    }
    forall x | x in s'.threads && x != s.current ensures ThreadOk(s', x) {
      assert x != to ==> ThreadOk(a, x);
    }
  }

  lemma SwitchInv(s: Sys, to: Tid)
    requires Inv(s) && to in s.threads && s.threads[to].stat.Ready?
    ensures Known(s, to) && Known(s, s.current) && Inv(SwitchTo(s, to, s.threads[s.current].stat.Running?))
    ensures SwitchTo(s, to, s.threads[s.current].stat.Running?).current == to
  {
    assert ThreadOk(s, to) && ThreadOk(s, s.current);
    SwitchedInv(s, to);
    SwitchIs(s, to, s.threads[s.current].stat.Running?);
    hide InvBut;
    if s.threads[s.current].stat.Running? {
      InsertInv(Switched(s, to), s.current);
    } else {
      Join(Switched(s, to), s.current);
    }
  }

  /** The current thread is not in a queue, so removing it changes nothing. */
  lemma StayIs(s: Sys)
    requires Inv(s) && s.threads[s.current].stat.Running?
    ensures Known(s, s.current) && SetStat(Remove(s, s.current), s.current, Running) == s
  {
    assert ThreadOk(s, s.current);
    var p := s.threads[s.current].prio;
    assert QueueOk(s, p);
    RemovedAbsent(s.queues[p], s.current);
    assert s.queues[p := s.queues[p]] == s.queues;
  }

  lemma TopReady(s: Sys)
    requires Inv(s) && Top(s.queues, 0) < |s.queues|
    ensures var h := Top(s.queues, 0); s.queues[h][0] in s.threads && s.threads[s.queues[h][0]].stat.Ready?
    ensures var h := Top(s.queues, 0); s.threads[s.queues[h][0]].prio == h
  {
    var h := Top(s.queues, 0);
    assert QueueOk(s, h) && s.queues[h][0] in s.queues[h];
  }

  lemma ScheduleInv(s: Sys)
    requires Inv(s)
    ensures Schedulable(s) && Inv(Schedule(s))
  {
    InvSchedulable(s);
    var h := Top(s.queues, 0);
    if s.lock == 0 && h < |s.queues| {
      TopReady(s);
      hide Inv, SwitchTo, Remove;
      if s.threads[s.current].stat.Running? && s.threads[s.current].prio < h {
        StayIs(s);
      } else {
        SwitchInv(s, s.queues[h][0]);
      }
    }
  }

  /**
   What rt_schedule changes: at most the states of the thread that ran and of the one that runs, which was the first of
   the most urgent queue; a thread that could go on is the last of its queue afterwards.
   */
  lemma ScheduleDoes(s: Sys, x: Tid)
    requires Inv(s) && x in s.threads
    ensures Schedulable(s)
    ensures var s' := Schedule(s);
            && s'.threads.Keys == s.threads.Keys
            && s'.threads[x].prio == s.threads[x].prio && s'.threads[x].initPrio == s.threads[x].initPrio
            && (x != s.current && x != s'.current ==> s'.threads[x] == s.threads[x])
            && (s'.current != s.current ==>
                  && Top(s.queues, 0) < |s.queues| && s'.current == s.queues[Top(s.queues, 0)][0]
                  && s'.threads[s'.current].stat.Running?
                  && (if s.threads[s.current].stat.Running?
                      then LastIn(s', s.current, s.threads[s.current].prio)
                      else s'.threads[s.current] == s.threads[s.current] && InNoQueue(s', s.current)))
            && (s'.current == s.current ==> s' == s)
  {
    InvSchedulable(s);
    var h := Top(s.queues, 0);
    if s.lock == 0 && h < |s.queues| {
      TopReady(s);
      var to, runs := s.queues[h][0], s.threads[s.current].stat.Running?;
      if runs && s.threads[s.current].prio < h {
        StayIs(s);
      } else {
        SwitchedDoes(s, to);
      }
    }
  }

  lemma SwitchedDoes(s: Sys, to: Tid)
    requires Inv(s) && to in s.threads && s.threads[to].stat.Ready?
    ensures Known(s, to) && Known(s, s.current) && to != s.current
    ensures var s' := SwitchTo(s, to, s.threads[s.current].stat.Running?);
            && s'.current == to && s'.threads[to].stat.Running? && s'.threads.Keys == s.threads.Keys
            && (forall x :: x in s.threads ==>
                  && s'.threads[x].prio == s.threads[x].prio && s'.threads[x].initPrio == s.threads[x].initPrio
                  && (x != s.current && x != to ==> s'.threads[x] == s.threads[x]))
            && (if s.threads[s.current].stat.Running?
                then LastIn(s', s.current, s.threads[s.current].prio)
                else s'.threads[s.current] == s.threads[s.current] && InNoQueue(s', s.current))
  {
    hide Unique, Removed, Inv;
    SwitchedInv(s, to);
    CurrentKnown(s);
    SwitchIs(s, to, s.threads[s.current].stat.Running?);
    var s1 := Switched(s, to);
    NotListed(s1, s.current);
    if s.threads[s.current].stat.Running? {
      InsertDoes(s1, s.current);
    }
  }

  lemma CurrentKnown(s: Sys)
    requires Inv(s)
    ensures Known(s, s.current) && forall t :: t in s.threads && s.threads[t].stat.Ready? ==>
              Known(s, t) && t in s.queues[s.threads[t].prio]
  {
    assert ThreadOk(s, s.current);
    forall t | t in s.threads && s.threads[t].stat.Ready? ensures Known(s, t) && t in s.queues[s.threads[t].prio] {
      assert ThreadOk(s, t);
    }
  }

  lemma NotListed(s: Sys, t: Tid)
    requires InvBut(s, t)
    ensures InNoQueue(s, t) && Known(s, t)
  {
  }

  /** The current thread runs, and no ready thread is more urgent. */
  ghost predicate RightThread(s: Sys) {
    && s.current in s.threads && s.threads[s.current].stat.Running?
    && forall t :: t in s.threads && s.threads[t].stat.Ready? ==> s.threads[s.current].prio <= s.threads[t].prio
  }

  /** After every unlocked rt_schedule the right thread runs, provided that there is any to run. */
  lemma ScheduleRight(s: Sys, idle: Tid)
    requires Inv(s) && s.lock == 0 && Runnable(s, idle)
    ensures Schedulable(s) && RightThread(Schedule(s)) && Runnable(Schedule(s), idle)
  {
    ScheduleInv(s);
    var h := Top(s.queues, 0);
    forall t | t in s.threads && s.threads[t].stat.Ready? ensures h <= s.threads[t].prio {
      assert ThreadOk(s, t);
    }
    assert ThreadOk(s, s.current) && ThreadOk(s, idle);
    if h < |s.queues| {
      TopReady(s);
      if s.threads[s.current].stat.Running? && s.threads[s.current].prio < h {
        StayIs(s);
      } else {
        SwitchIs(s, s.queues[h][0], s.threads[s.current].stat.Running?);
      }
    }
  }

  // ---------------------------------------------------------------- the start of the system

  /** rt_system_scheduler_init; nobody runs, which `none` stands for. */
  function InitSys(max: nat, threads: map<Tid, Thread>, none: Tid): Sys {
    Sys(seq(max, p => []), threads, none, 0)
  }

  /** Threads as rt_thread_init leaves them. */
  ghost predicate Fresh(max: nat, threads: map<Tid, Thread>) {
    forall t :: t in threads ==> threads[t].stat.Init? && threads[t].prio < max && threads[t].initPrio < max
  }

  lemma InitQueued(max: nat, threads: map<Tid, Thread>, none: Tid)
    requires Fresh(max, threads) && none !in threads
    ensures Queued(InitSys(max, threads, none))
  {
  }

  /** rt_system_scheduler_start: the most urgent thread leaves its queue and runs. */
  function Boot(s: Sys): Sys
    requires Top(s.queues, 0) < |s.queues| && Known(s, s.queues[Top(s.queues, 0)][0])
  {
    Switched(s, s.queues[Top(s.queues, 0)][0])
  }

  /** The start establishes the invariant and chooses the right thread, if any thread is ready. */
  lemma BootInv(s: Sys, idle: Tid)
    requires Queued(s) && s.current !in s.threads && idle in s.threads && s.threads[idle].stat.Ready?
    ensures var h := Top(s.queues, 0); h < |s.queues| && Known(s, s.queues[h][0])
    ensures Inv(Boot(s)) && RightThread(Boot(s)) && Runnable(Boot(s), idle)
  {
    hide Unique;
    assert ThreadOk(s, idle);
    var h := Top(s.queues, 0);
    var to := s.queues[h][0];
    assert QueueOk(s, h) && to in s.queues[h];
    RemoveInv(s, to);
    var a, s' := Remove(s, to), Boot(s);
    forall p | 0 <= p < |s'.queues| ensures QueueOk(s', p) {
      assert QueueOk(a, p);
    }
    forall x | x in s'.threads ensures ThreadOk(s', x) && (s.threads[x].stat.Ready? ==> h <= s.threads[x].prio) {
      assert ThreadOk(s, x) && (x != to ==> ThreadOk(a, x));
    }
  }

  /** rt_thread_startup of several threads, one after the other, before the scheduler is started. */
  function StartAll(s: Sys, order: seq<Tid>): (r: Sys)
    requires forall t :: t in order ==> t in s.threads && s.threads[t].initPrio < |s.queues|
    ensures r.threads.Keys == s.threads.Keys && |r.queues| == |s.queues|
    ensures forall t :: t in s.threads ==> r.threads[t].initPrio == s.threads[t].initPrio
  {
    if order == [] then s else Startup(StartAll(s, order[..|order| - 1]), order[|order| - 1])
  }

  lemma {:induction false} StartAllQueued(s: Sys, order: seq<Tid>)
    requires Queued(s) && s.current !in s.threads && Unique(order)
    requires forall t :: t in order ==> t in s.threads && s.threads[t].initPrio < |s.queues| && s.threads[t].stat.Init?
    ensures var r := StartAll(s, order);
            && Queued(r) && r.current == s.current
            && (forall t :: t in order ==> r.threads[t].stat.Ready? && r.threads[t].prio == s.threads[t].initPrio)
            && (forall t :: t in s.threads && t !in order ==> r.threads[t] == s.threads[t])
    decreases |order|
  {
    hide Queued;
    if order != [] {
      var n := |order| - 1;
      assert order == order[..n] + [order[n]] && order[n] !in order[..n];
      StartAllQueued(s, order[..n]);
      StartupInv(StartAll(s, order[..n]), order[n]);
    }
  }

  /**
   So the system comes up right: once any of its threads, the idle thread among them, have been started, the start
   of the scheduler establishes what every run keeps, and the most urgent of them runs.
   */
  lemma StartsRight(max: nat, threads: map<Tid, Thread>, none: Tid, order: seq<Tid>, idle: Tid)
    requires Fresh(max, threads) && none !in threads && Unique(order) && idle in order
    requires forall t :: t in order ==> t in threads
    ensures var s := StartAll(InitSys(max, threads, none), order);
            var h := Top(s.queues, 0);
            && h < |s.queues| && Known(s, s.queues[h][0])
            && Inv(Boot(s)) && RightThread(Boot(s)) && Runnable(Boot(s), idle)
            && Boot(s).current in order
            && forall t :: t in order ==> threads[Boot(s).current].initPrio <= threads[t].initPrio
  {
    hide Queued;
    var s0 := InitSys(max, threads, none);
    InitQueued(max, threads, none);
    StartAllQueued(s0, order);
    var s := StartAll(s0, order);
    BootInv(s, idle);
    BootIs(s, idle);
  }

  lemma BootIs(s: Sys, idle: Tid)
    requires Queued(s) && s.current !in s.threads && idle in s.threads && s.threads[idle].stat.Ready?
    ensures var h := Top(s.queues, 0); h < |s.queues| && Known(s, s.queues[h][0])
    ensures var x := Boot(s).current; x in s.threads && s.threads[x].stat.Ready?
    ensures forall t :: t in s.threads && s.threads[t].stat.Ready? ==>
              s.threads[Boot(s).current].prio <= s.threads[t].prio
  {
    assert ThreadOk(s, idle);
    var h := Top(s.queues, 0);
    assert QueueOk(s, h) && s.queues[h][0] in s.queues[h];
    forall t | t in s.threads && s.threads[t].stat.Ready? ensures h <= s.threads[t].prio {
      assert ThreadOk(s, t);
    }
  }

  // ---------------------------------------------------------------- whole runs

  /** rt_scheduler_lock_nest is a signed word of 16 bits: what one more or one less than such a word becomes. */
  function Wrap16(n: int): int {
    if n > 0x7fff then n - 0x1_0000 else if n < -0x8000 then n + 0x1_0000 else n
  }

  datatype Event =
    | DoSchedule
    | DoSuspend(t: Tid)
    | DoResume(t: Tid)
    | DoTimeout(t: Tid)
    | DoChangePrio(t: Tid, p: nat)
    | DoStartup(t: Tid)
    | EnterCritical
    | ExitCritical

  /** What the callers of each operation guarantee; the idle thread is never suspended. */
  predicate Enabled(s: Sys, e: Event, idle: Tid) {
    match e
    case DoSuspend(t) => t in s.threads && t != idle
    case DoResume(t) => t in s.threads
    case DoTimeout(t) => t in s.threads && s.threads[t].stat.Blocked?
    case DoChangePrio(t, p) => t in s.threads && p < |s.queues|
    case DoStartup(t) => t in s.threads && s.threads[t].stat.Init?
    case _ => true
  }

  /** The state in which rt_schedule is called, for an event that ends with it. */
  function Prepared(s: Sys, e: Event, idle: Tid): Sys
    requires Enabled(s, e, idle) && forall t :: t in s.threads ==> Known(s, t) && s.threads[t].initPrio < |s.queues|
  {
    match e
    case DoSchedule => s
    case DoSuspend(t) => Suspend(s, t)
    case DoResume(t) => Resume(s, t)
    case DoTimeout(t) => Insert(s, t)
    case DoChangePrio(t, p) => ChangePrio(s, t, p)
    case DoStartup(t) => Startup(s, t)
    case EnterCritical => s.(lock := Wrap16(s.lock + 1))
    case ExitCritical => s.(lock := if Wrap16(s.lock - 1) <= 0 then 0 else Wrap16(s.lock - 1))
  }

  /** Does the event end with rt_schedule? */
  predicate Schedules(s: Sys, e: Event) {
    e.DoSchedule? || e.DoTimeout? || e.DoStartup? || (e.ExitCritical? && Wrap16(s.lock - 1) <= 0)
  }

  /** One event leads from s to s'. */
  ghost predicate Steps(s: Sys, e: Event, s': Sys, idle: Tid) {
    && Enabled(s, e, idle) && (forall t :: t in s.threads ==> Known(s, t) && s.threads[t].initPrio < |s.queues|)
    && var r := Prepared(s, e, idle);
       if Schedules(s, e) then Schedulable(r) && s' == Schedule(r) else s' == r
  }

  lemma PreparedInv(s: Sys, e: Event, idle: Tid)
    requires Inv(s) && Enabled(s, e, idle) && Runnable(s, idle)
    ensures forall t :: t in s.threads ==> Known(s, t) && s.threads[t].initPrio < |s.queues|
    ensures Inv(Prepared(s, e, idle)) && Runnable(Prepared(s, e, idle), idle)
  {
    forall t | t in s.threads ensures Known(s, t) && s.threads[t].initPrio < |s.queues| {
      assert ThreadOk(s, t);
    }
    match e
    case DoSchedule =>
    case DoSuspend(t) => SuspendInv(s, t);
    case DoResume(t) => ResumeInv(s, t);
    case DoTimeout(t) => ResumeInv(s, t);
    case DoChangePrio(t, p) => ChangePrioInv(s, t, p);
    case DoStartup(t) => StartupInv(s, t);
    case EnterCritical => LockInv(s, Wrap16(s.lock + 1));
    case ExitCritical => LockInv(s, if Wrap16(s.lock - 1) <= 0 then 0 else Wrap16(s.lock - 1));
  }

  lemma LockInv(s: Sys, lock: int)
    requires Inv(s)
    ensures Inv(s.(lock := lock))
  {
    var s' := s.(lock := lock);
    forall p | 0 <= p < |s'.queues| ensures QueueOk(s', p) {
      assert QueueOk(s, p);
    }
    forall t | t in s'.threads ensures ThreadOk(s', t) {
      assert ThreadOk(s, t);
    }
  }

  /**
   Every event keeps the invariant, and one that ends with an unlocked rt_schedule leaves the right thread running.
   */
  lemma StepInv(s: Sys, e: Event, s': Sys, idle: Tid)
    requires Inv(s) && Runnable(s, idle) && Steps(s, e, s', idle)
    ensures Inv(s') && Runnable(s', idle)
    ensures Schedules(s, e) && s'.lock == 0 ==> RightThread(s')
  {
    PreparedInv(s, e, idle);
    var r := Prepared(s, e, idle);
    hide Inv, Prepared, RightThread;
    if Schedules(s, e) {
      ScheduleInv(r);
      ScheduleLock(r);
      if r.lock == 0 {
        ScheduleRight(r, idle);
      }
    }
  }

  lemma ScheduleLock(s: Sys)
    requires Schedulable(s)
    ensures Schedule(s).lock == s.lock && (s.lock != 0 ==> Schedule(s) == s)
  {
  }

  ghost predicate Reaches(s: Sys, trace: seq<(Event, Sys)>, idle: Tid)
    decreases |trace|
  {
    trace == [] || (Steps(s, trace[0].0, trace[0].1, idle) && Reaches(trace[0].1, trace[1..], idle))
  }

  /** In every reachable state each ready thread is in the one queue of its priority and the current one is in none. */
  lemma {:induction false} RunInv(s: Sys, trace: seq<(Event, Sys)>, idle: Tid, k: nat)
    requires Inv(s) && Runnable(s, idle) && Reaches(s, trace, idle) && k < |trace|
    ensures Inv(trace[k].1) && Runnable(trace[k].1, idle)
    ensures var before := if k == 0 then s else trace[k - 1].1;
            Schedules(before, trace[k].0) && trace[k].1.lock == 0 ==> RightThread(trace[k].1)
    decreases |trace|
  {
    hide Inv, Steps, RightThread, Schedules;
    StepInv(s, trace[0].0, trace[0].1, idle);
    if k > 0 {
      RunInv(trace[0].1, trace[1..], idle, k - 1);
    }
  }

  /** The same of every run from the start of the system on. */
  lemma SystemRuns(max: nat, threads: map<Tid, Thread>, none: Tid, order: seq<Tid>, idle: Tid,
                   trace: seq<(Event, Sys)>, k: nat)
    requires Fresh(max, threads) && none !in threads && Unique(order) && idle in order
    requires forall t :: t in order ==> t in threads
    requires var s := StartAll(InitSys(max, threads, none), order);
             var h := Top(s.queues, 0);
             h < |s.queues| && Known(s, s.queues[h][0]) ==> Reaches(Boot(s), trace, idle)
    requires k < |trace|
    ensures var s := StartAll(InitSys(max, threads, none), order);
            var h := Top(s.queues, 0);
            && h < |s.queues| && Known(s, s.queues[h][0]) && Inv(trace[k].1)
            && var before := if k == 0 then Boot(s) else trace[k - 1].1;
               Schedules(before, trace[k].0) && trace[k].1.lock == 0 ==> RightThread(trace[k].1)
  {
    hide Inv, RightThread, Reaches, Schedules, StartAll, Boot;
    StartsRight(max, threads, none, order, idle);
    RunInv(Boot(StartAll(InitSys(max, threads, none), order)), trace, idle, k);
  }

  // ---------------------------------------------------------------- critical sections

  ghost predicate AllKnown(s: Sys) {
    forall t :: t in s.threads ==> Known(s, t) && s.threads[t].initPrio < |s.queues|
  }

  /** The state after k events of the same kind, none of which schedules. */
  function Repeated(s: Sys, e: Event, k: nat, idle: Tid): (r: Sys)
    requires AllKnown(s) && (e.EnterCritical? || e.ExitCritical?)
    ensures r == s.(lock := r.lock) && AllKnown(r)
  {
    if k == 0 then s else Prepared(Repeated(s, e, k - 1, idle), e, idle)
  }

  lemma {:induction false} EnterCounts(s: Sys, k: nat, idle: Tid)
    requires AllKnown(s) && s.lock == 0 && k <= 0xffff
    ensures Repeated(s, EnterCritical, k, idle).lock == if k <= 0x7fff then k else k - 0x1_0000
  {
    if k > 0 {
      EnterCounts(s, k - 1, idle);
    }
  }

  lemma {:induction false} ExitCounts(s: Sys, k: nat, idle: Tid)
    requires AllKnown(s) && k <= s.lock <= 0x7fff
    ensures Repeated(s, ExitCritical, k, idle).lock == s.lock - k
  {
    if k > 0 {
      ExitCounts(s, k - 1, idle);
    }
  }

  /** As long as the counter does not overflow, k sections inside each other lock the scheduler until the last exit. */
  lemma CriticalSections(s: Sys, k: nat, j: nat, idle: Tid)
    requires AllKnown(s) && s.lock == 0 && j < k <= 0x7fff
    ensures var inside := Repeated(Repeated(s, EnterCritical, k, idle), ExitCritical, j, idle);
            inside.lock != 0 && (Schedules(inside, ExitCritical) <==> j == k - 1)
  {
    EnterCounts(s, k, idle);
    ExitCounts(Repeated(s, EnterCritical, k, idle), j, idle);
  }

  /**
   After k nested rt_enter_critical one rt_exit_critical must leave the
   scheduler locked.  The counter is signed, so that it does exactly up to
   32768 of them, and not up to 65535.
   */
  lemma NestLimit(s: Sys, k: nat, idle: Tid, s': Sys)
    requires 2 <= k <= 0xffff && s.lock == 0 && AllKnown(s)
    requires Steps(Repeated(s, EnterCritical, k, idle), ExitCritical, s', idle)
    ensures s'.lock != 0 <==> k <= 0x8000
  {
    EnterCounts(s, k, idle);
    var inside := Repeated(s, EnterCritical, k, idle);
    hide Schedulable;
    var r := Prepared(inside, ExitCritical, idle);
    if Schedules(inside, ExitCritical) {
      ScheduleLock(r);
    }
  }

  /** rt_thread_timeout: before it schedules, the thread is ready and last in its queue, or running if it is current. */
  lemma TimeoutDoes(s: Sys, t: Tid, s': Sys, idle: Tid)
    requires Inv(s) && Steps(s, DoTimeout(t), s', idle)
    ensures var r := Resume(s, t);
            && Schedulable(r) && s' == Schedule(r) && OthersKept(s, r, t)
            && r.threads[t] == s.threads[t].(stat := if t == s.current then Running else Ready)
            && (t != s.current ==> LastIn(r, t, s.threads[t].prio))
  {
    hide Inv, Insert, Schedule, OthersKept, LastIn, Schedulable;
    ResumeDoes(s, t);
  }

  // ---------------------------------------------------------------- round robin

  /**
   The state in which the threads r take turns at priority p: the first of them runs, the others wait in this order.
   */
  function Spin(s: Sys, r: seq<Tid>, p: nat): Sys
    requires r != [] && p < |s.queues|
  {
    s.(current := r[0], queues := s.queues[p := r[1..]],
       threads := map t | t in s.threads ::
         if t == r[0] then s.threads[t].(stat := Running)
         else if t in r then s.threads[t].(stat := Ready)
         else s.threads[t])
  }

  /** The threads of the most urgent priority: the running one and the queue behind it. */
  ghost predicate Turns(s: Sys, r: seq<Tid>, p: nat) {
    && r != [] && Unique(r) && p < |s.queues| && s.lock == 0
    && (forall t :: t in r ==> t in s.threads && s.threads[t].prio == p)
    && (forall q :: 0 <= q < p ==> s.queues[q] == [])
  }

  function Rotated(r: seq<Tid>, k: nat): seq<Tid>
    requires k <= |r|
  {
    r[k..] + r[..k]
  }

  lemma SpinSchedulable(s: Sys, r: seq<Tid>, p: nat)
    requires Turns(s, r, p) && Schedulable(s)
    ensures Schedulable(Spin(s, r, p))
  {
  }

  /** One yield moves the turn to the next thread. */
  lemma YieldTurns(s: Sys, r: seq<Tid>, p: nat)
    requires Turns(s, r, p) && Schedulable(s)
    ensures Schedulable(Spin(s, r, p)) && Schedule(Spin(s, r, p)) == Spin(s, r[1..] + [r[0]], p)
  {
    SpinSchedulable(s, r, p);
    var x := Spin(s, r, p);
    if |r| == 1 {
      assert r[1..] + [r[0]] == r;
      assert Top(x.queues, 0) > p;
      assert Removed([], r[0]) == [];
      var y := SetStat(Remove(x, r[0]), r[0], Running);
      assert y.queues == x.queues && y.threads == x.threads;
    } else {
      TopIs(x.queues, p);
      assert r[1..][0] == r[1] && r[0] != r[1];
      SwitchIs(x, r[1], true);
      var y, z := Insert(Switched(x, r[1]), r[0]), Spin(s, r[1..] + [r[0]], p);
      assert r[1..][1..] == r[2..] && (r[1..] + [r[0]])[1..] == r[2..] + [r[0]];
      assert y.queues == z.queues;
      assert forall t :: t in r <==> t in r[1..] + [r[0]];
      assert y.threads == z.threads;
    }
  }

  /** k yields in a row. */
  ghost predicate Yields(s: Sys, k: nat, s': Sys)
    decreases k
  {
    if k == 0 then s == s' else Schedulable(s) && Yields(Schedule(s), k - 1, s')
  }

  lemma RotatedTurns(s: Sys, r: seq<Tid>, p: nat)
    requires Turns(s, r, p)
    ensures Turns(s, r[1..] + [r[0]], p)
  {
  }

  lemma SpinCurrent(s: Sys, r: seq<Tid>, p: nat)
    requires r != [] && p < |s.queues|
    ensures Spin(s, r, p).current == r[0]
  {
  }

  /** After k yields it is the turn of thread k, the others follow in the same order, and nothing else has changed. */
  lemma {:induction false} RoundRobin(s: Sys, r: seq<Tid>, p: nat, k: nat, s': Sys)
    requires Turns(s, r, p) && Schedulable(s) && k <= |r| && Yields(Spin(s, r, p), k, s')
    ensures s' == Spin(s, Rotated(r, k), p)
    ensures k < |r| ==> s'.current == r[k]
    ensures k == |r| ==> s' == Spin(s, r, p)
    decreases k
  {
    hide Spin, Unique, Schedule, Schedulable;
    SpinCurrent(s, Rotated(r, k), p);
    if k == 0 {
      assert Rotated(r, 0) == r;
    } else {
      YieldTurns(s, r, p);
      RotatedTurns(s, r, p);
      var r' := r[1..] + [r[0]];
      RoundRobin(s, r', p, k - 1, s');
      assert Rotated(r', k - 1) == Rotated(r, k);
      assert k == |r| ==> Rotated(r, k) == r;
    }
  }

  /** A state of the running system is such a state of turns. */
  lemma RunningTurns(s: Sys)
    requires Inv(s) && RightThread(s) && s.lock == 0
    ensures var p := s.threads[s.current].prio;
            p < |s.queues| && Turns(s, [s.current] + s.queues[p], p) && Spin(s, [s.current] + s.queues[p], p) == s
  {
    var p := s.threads[s.current].prio;
    assert ThreadOk(s, s.current);
    assert QueueOk(s, p);
    var r := [s.current] + s.queues[p];
    forall q | 0 <= q < p ensures s.queues[q] == [] {
      assert QueueOk(s, q);
      NoMembers(s.queues[q]);
    }
    var x := Spin(s, r, p);
    assert r[1..] == s.queues[p] && x.queues == s.queues;
    assert x.threads == s.threads;
  }
}
