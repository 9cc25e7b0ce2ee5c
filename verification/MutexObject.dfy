/** The mutex object of src/ipc.c, updated in place. */
module MutexObject {

  import opened IpcList
  import opened MutexProtocol

  /** The current priorities of all threads: rt_thread_control changes them. */
  class Threads {
    var prio: map<Tid, int>

    constructor (prio: map<Tid, int>)
      ensures this.prio == prio
    {
      this.prio := prio;
    }
  }

  class Lock {
    const flag: Flag
    const threads: Threads
    var value: nat
    var hold: nat
    var owner: Owner
    var original: int
    var waiters: seq<Tid>

    function M(): Mutex
      reads this
    {
      Mutex(flag, value, hold, owner, original, waiters)
    }

    /** rt_mutex_init */
    constructor (flag: Flag, threads: Threads)
      ensures M() == Mutex(flag, 1, 0, Nobody, UNOWNED, []) && this.threads == threads && Counted(M())
    {
      this.flag, this.threads := flag, threads;
      value, hold, owner, original, waiters := 1, 0, Nobody, UNOWNED, [];
    }

    /** rt_mutex_take until it returns or the thread sleeps; a thread that sleeps has no result yet. */
    method Take(t: Tid, time: int) returns (sleeps: bool, error: Error)
      requires Counted(M()) && t in threads.prio && (owner.Thread? ==> owner.id in threads.prio)
      modifies this, threads
      ensures M() == TakeMutex(old(M()), t, time, old(threads.prio))
      ensures threads.prio == TakePrio(old(M()), t, time, old(threads.prio))
      ensures sleeps == (!Free(old(M()), t) && time != 0)
      ensures !sleeps ==> error == if Free(old(M()), t) then EOK else ETIMEOUT
    {
      sleeps, error := false, EOK;
      if owner == Thread(t) {
        hold := (hold + 1) % 256;
      } else if value > 0 {
        value := value - 1;
        owner := Thread(t);
        original := threads.prio[t];
        hold := (hold + 1) % 256;
      } else if time == 0 {
        error := ETIMEOUT;
      } else {
        if threads.prio[t] < threads.prio[owner.id] {
          threads.prio := threads.prio[owner.id := threads.prio[t]];
        }
        waiters := Suspend(waiters, t, Of(threads.prio), flag);
        sleeps := true;
      }
    }

    /** rt_mutex_release; `woken` is the thread that it resumes, if any. */
    method Release(t: Tid) returns (error: Error, woken: Owner)
      requires Counted(M()) && t in threads.prio
      modifies this, threads
      ensures M() == ReleaseMutex(old(M()), t, old(threads.prio))
      ensures threads.prio == ReleasePrio(old(M()), t, old(threads.prio))
      ensures error == if old(owner) == Thread(t) then EOK else ERROR
      ensures woken == if old(owner) == Thread(t) && Final(old(M())) && old(waiters) != []
                       then Thread(old(waiters)[0]) else Nobody
    {
      woken := Nobody;
      if owner != Thread(t) {
        return ERROR, Nobody;
      }
      hold := (hold + 255) % 256;
      if hold == 0 {
        if original != threads.prio[t] {
          threads.prio := threads.prio[t := original];
        }
        if waiters != [] {
          var w := waiters[0];
          owner := Thread(w);
          original := Of(threads.prio)(w);
          hold := (hold + 1) % 256;
          waiters := waiters[1..];
          woken := Thread(w);
        } else {
          value := (value + 1) % 0x1_0000;
          owner := Nobody;
          original := UNOWNED;
        }
      }
      error := EOK;
    }

    /** rt_thread_timeout of a thread that sleeps on this mutex. */
    method Expire(t: Tid)
      modifies this`waiters
      ensures M() == old(M()).(waiters := Removed(old(waiters), t))
    {
      waiters := Removed(waiters, t);
    }
  }
}
