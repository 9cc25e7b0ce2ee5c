/**
 The scheduler with its bitmap index, as src/scheduler.c keeps it: queues and
 marks are updated in place, and the next thread is found through the marks.
 */
module Scheduler {

  import opened IpcList
  import opened ReadyBitmap
  import opened SchedulerSpec

  class Cpu {
    var queues: seq<seq<Tid>>      // rt_thread_priority_table
    var group: nat                 // rt_thread_ready_priority_group
    var table: seq<nat>            // rt_thread_ready_table
    var threads: map<Tid, Thread>
    var current: Tid
    var lock: int

    function S(): Sys
      reads this
    {
      Sys(queues, threads, current, lock)
    }

    function X(): Index
      reads this
    {
      Index(|queues|, group, table)
    }

    /** A priority is marked exactly if its queue is not empty. */
    ghost predicate Valid()
      reads this
    {
      && IndexOk(X())
      && forall p: nat :: p < 256 ==> (Marked(X(), p) <==> p < |queues| && queues[p] != [])
    }

    /** rt_system_scheduler_init; nobody runs yet, which `none` stands for. */
    constructor (max: nat, threads: map<Tid, Thread>, none: Tid)
      requires 0 < max <= 256 && Fresh(max, threads) && none !in threads
      ensures Valid() && S() == InitSys(max, threads, none) && Queued(S())
    {
      queues := seq(max, p => []);
      group, table := 0, seq(32, n => 0);
      this.threads, current, lock := threads, none, 0;
      new;
      ClearIndex(X());
      InitQueued(max, threads, none);
    }

    /** rt_system_scheduler_start, once some thread is ready: the idle thread at least. */
    method Start(idle: Tid)
      requires Valid() && Queued(S()) && current !in threads && idle in threads && threads[idle].stat.Ready?
      modifies this
      ensures Valid() && Inv(S()) && RightThread(S()) && Runnable(S(), idle)
      ensures var s := old(S());
              && Top(s.queues, 0) < |s.queues| && Known(s, s.queues[Top(s.queues, 0)][0])
              && S() == Boot(s)
    {
      hide IndexOk, Marked, Queued, RightThread;
      BootInv(S(), idle);
      Empty(this);
      var highest, to := HighestThread();
      current := to;
      Remove(to);
      threads := threads[to := threads[to].(stat := Running)];
    }

    /** rt_schedule_insert_thread */
    method Insert(t: Tid)
      requires Valid() && Known(S(), t)
      modifies this
      ensures Valid() && S() == SchedulerSpec.Insert(old(S()), t)
    {
      hide IndexOk, Marked, Bit;
      if t == current {
        threads := threads[t := threads[t].(stat := Running)];
        return;
      }
      var p := threads[t].prio;
      ghost var x := X();
      Max(x);
      MarkAll(x, p);
      threads := threads[t := threads[t].(stat := Ready)];
      queues := queues[p := queues[p] + [t]];
      if |queues| > 32 {
        table := table[p / 8 := SetBit(table[p / 8], p % 8)];
        group := SetBit(group, p / 8);
      } else {
        group := SetBit(group, p);
      }
    }

    /** rt_schedule_remove_thread */
    method Remove(t: Tid)
      requires Valid() && Known(S(), t)
      modifies this
      ensures Valid() && S() == SchedulerSpec.Remove(old(S()), t)
    {
      hide IndexOk, Marked, Bit;
      var p := threads[t].prio;
      ghost var x := X();
      Max(x);
      UnmarkAll(x, p);
      RemovedEmpty(queues[p], t);
      queues := queues[p := Removed(queues[p], t)];
      if queues[p] == [] {
        if |queues| > 32 {
          table := table[p / 8 := ClearBit(table[p / 8], p % 8)];
          if table[p / 8] == 0 {
            group := ClearBit(group, p / 8);
          }
        } else {
          group := ClearBit(group, p);
        }
      }
    }

    /** _get_highest_priority_thread */
    method HighestThread() returns (prio: nat, t: Tid)
      requires Valid() && group != 0
      ensures prio == Top(queues, 0) < |queues| && t == queues[prio][0]
    {
      hide Marked, Bit, Ffs;
      HighestOk(X());
      FfsIs(group);
      if |queues| > 32 {
        var number := Ffs(group) - 1;
        HighestWide(X(), number);
        prio := number * 8 + Ffs(table[number]) - 1;
      } else {
        prio := Ffs(group) - 1;
      }
      TopIs(queues, prio);
      t := queues[prio][0];
    }

    /** rt_schedule */
    method Schedule()
      requires Valid() && Schedulable(S())
      modifies this
      ensures Valid() && S() == SchedulerSpec.Schedule(old(S()))
    {
      hide IndexOk, Marked;
      if lock == 0 {
        Empty(this);
        if group != 0 {
          var needInsert := false;
          var highest, to := HighestThread();
          if threads[current].stat.Running? {
            if threads[current].prio < highest {
              to := current;
            } else {
              needInsert := true;
            }
          }
          if to != current {
            var from := current;
            current := to;
            if needInsert {
              Insert(from);
            }
            Remove(to);
          } else {
            Remove(current);
          }
          threads := threads[current := threads[current].(stat := Running)];
        }
      }
    }

    /** rt_thread_suspend; false if the thread is neither ready nor running. */
    method Suspend(t: Tid) returns (ok: bool)
      requires Valid() && Known(S(), t)
      modifies this
      ensures Valid() && S() == SchedulerSpec.Suspend(old(S()), t)
      ensures ok == (old(threads)[t].stat.Ready? || old(threads)[t].stat.Running?)
    {
      hide IndexOk, Marked;
      if !threads[t].stat.Ready? && !threads[t].stat.Running? {
        return false;
      }
      Remove(t);
      threads := threads[t := threads[t].(stat := Blocked)];
      ok := true;
    }

    /** rt_thread_resume; false if the thread is not suspended. */
    method Resume(t: Tid) returns (ok: bool)
      requires Valid() && Known(S(), t)
      modifies this
      ensures Valid() && S() == SchedulerSpec.Resume(old(S()), t) && ok == old(threads)[t].stat.Blocked?
    {
      if !threads[t].stat.Blocked? {
        return false;
      }
      Insert(t);
      ok := true;
    }

    /** rt_thread_control: another priority. */
    method ChangePriority(t: Tid, p: nat)
      requires Valid() && Known(S(), t) && p < |queues|
      modifies this
      ensures Valid() && S() == SchedulerSpec.ChangePrio(old(S()), t, p)
    {
      hide IndexOk, Marked;
      if threads[t].stat.Ready? {
        Remove(t);
        threads := threads[t := threads[t].(prio := p)];
        Insert(t);
      } else {
        threads := threads[t := threads[t].(prio := p)];
      }
    }

    /** rt_thread_timeout */
    method Timeout(t: Tid)
      requires Valid() && Inv(S()) && t in threads && threads[t].stat.Blocked?
      modifies this
      ensures Valid() && Inv(S()) && Known(old(S()), t) && Schedulable(SchedulerSpec.Insert(old(S()), t))
      ensures S() == SchedulerSpec.Schedule(SchedulerSpec.Insert(old(S()), t))
    {
      hide IndexOk, Marked, Inv;
      ResumeInv(S(), t);
      Insert(t);
      ScheduleInv(S());
      Schedule();
    }

    /** rt_thread_startup: it schedules only once the scheduler runs. */
    method Startup(t: Tid)
      requires Valid() && Queued(S()) && t in threads && threads[t].stat.Init?
      modifies this
      ensures Valid() && Queued(S()) && old(threads)[t].initPrio < |old(queues)|
      ensures var s := SchedulerSpec.Startup(old(S()), t);
              if old(current) in old(threads) then Inv(S()) && Schedulable(s) && S() == SchedulerSpec.Schedule(s)
              else S() == s
    {
      hide IndexOk, Marked, Queued, Schedulable, SchedulerSpec.Schedule;
      StartupInv(S(), t);
      threads := threads[t := Thread(Blocked, threads[t].initPrio, threads[t].initPrio)];
      var ok := Resume(t);
      if current in threads {
        ScheduleInv(S());
        Schedule();
      }
    }

    /** rt_enter_critical */
    method EnterCritical()
      requires Valid()
      modifies this`lock
      ensures Valid() && S() == old(S()).(lock := Wrap16(old(lock) + 1))
    {
      lock := Wrap16(lock + 1);
    }

    /** rt_exit_critical: the outermost one schedules. */
    method ExitCritical()
      requires Valid() && Inv(S())
      modifies this
      ensures Valid() && Inv(S())
      ensures Wrap16(old(lock) - 1) > 0 ==> S() == old(S()).(lock := Wrap16(old(lock) - 1))
      ensures Wrap16(old(lock) - 1) <= 0 ==>
                Schedulable(old(S()).(lock := 0)) && S() == SchedulerSpec.Schedule(old(S()).(lock := 0))
    {
      hide IndexOk, Marked, Inv, SchedulerSpec.Schedule;
      LockInv(S(), Wrap16(lock - 1));
      LockInv(S(), 0);
      lock := Wrap16(lock - 1);
      if lock <= 0 {
        lock := 0;
        ScheduleInv(S());
        Schedule();
      }
    }
  }

  lemma ClearIndex(x: Index)
    requires 0 < x.max <= 256 && x.group == 0 && |x.table| == 32 && forall n :: 0 <= n < 32 ==> x.table[n] == 0
    ensures IndexOk(x) && forall p: nat :: p < 256 ==> !Marked(x, p)
  {
    forall n: nat ensures !Bit(0, n) {
      ZeroBits(n);
    }
    HighestOk(x);
  }

  lemma Max(x: Index)
    requires IndexOk(x)
    ensures 0 < x.max <= 256 && |x.table| == 32
  {
  }

  lemma MarkAll(x: Index, p: nat)
    requires IndexOk(x) && p < x.max
    ensures IndexOk(Mark(x, p)) && forall q: nat :: q < 256 ==> (Marked(Mark(x, p), q) <==> q == p || Marked(x, q))
  {
    hide Marked;
    Max(x);
    forall q: nat | q < 256 ensures IndexOk(Mark(x, p)) && (Marked(Mark(x, p), q) <==> q == p || Marked(x, q)) {
      MarkOk(x, p, q);
    }
    MarkOk(x, p, 0);
  }

  lemma UnmarkAll(x: Index, p: nat)
    requires IndexOk(x) && p < x.max
    ensures IndexOk(Unmark(x, p)) && forall q: nat :: q < 256 ==> (Marked(Unmark(x, p), q) <==> q != p && Marked(x, q))
  {
    hide Marked;
    Max(x);
    forall q: nat | q < 256 ensures IndexOk(Unmark(x, p)) && (Marked(Unmark(x, p), q) <==> q != p && Marked(x, q)) {
      UnmarkOk(x, p, q);
    }
    UnmarkOk(x, p, 0);
  }

  lemma RemovedEmpty(list: seq<Tid>, t: Tid)
    ensures list == [] ==> Removed(list, t) == []
  {
  }

  /** The group is zero exactly if every queue is empty. */
  lemma Empty(c: Cpu)
    requires c.Valid()
    ensures c.group == 0 <==> Top(c.queues, 0) == |c.queues|
  {
    HighestOk(c.X());
    var h := Top(c.queues, 0);
    if h < |c.queues| {
      assert Marked(c.X(), h);
    }
  }
}
