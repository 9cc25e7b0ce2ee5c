/**
 Mutexes of src/ipc.c in the hands of threads that hold several of them at once.

 What does not speak of priorities holds in every run.  Inheritance does not:
 this module says exactly which event breaks it for which mutex.
 */
module MutexNesting {

  import opened IpcList
  import opened MutexProtocol

  // ---------------------------------------------------------------- the structure

  ghost predicate CoreThread(s: Sys, t: Tid)
    requires t in s.phase
  {
    && t in s.prio
    && (forall i :: 0 <= i < |s.mutexes| ==> (t in s.mutexes[i].waiters <==> s.phase[t].Asleep? && s.phase[t].on == i))
    && (s.phase[t].Asleep? ==> s.phase[t].on < |s.mutexes| && !Owns(s, t, s.phase[t].on))
    && (s.phase[t].Granted? ==> Owns(s, t, s.phase[t].of) && s.mutexes[s.phase[t].of].hold == 1)
  }

  ghost predicate CoreMutex(s: Sys, i: Mid)
    requires i < |s.mutexes|
  {
    && Counted(s.mutexes[i]) && Unique(s.mutexes[i].waiters)
    && (forall t :: t in s.mutexes[i].waiters ==> t in s.phase)
    && (s.mutexes[i].owner.Thread? ==> s.mutexes[i].owner.id in s.phase)
  }

  /** Owners, counters, lists and the phases of the threads agree. */
  ghost predicate Core(s: Sys) {
    && |s.mutexes| == |s.rivals|
    && (forall i :: 0 <= i < |s.mutexes| ==> CoreMutex(s, i))
    && (forall t :: t in s.phase ==> CoreThread(s, t))
  }

  /** The owner takes a mutex again only as deep as the counter goes; nothing else is asked of the threads. */
  predicate Shallow(s: Sys, e: Event) {
    e.Take? && e.i < |s.mutexes| && s.mutexes[e.i].owner == Thread(e.t) ==> s.mutexes[e.i].hold < 255
  }

  lemma CoreTakeWait(s: Sys, t: Tid, i: Mid, time: int)
    requires Core(s) && Enabled(s, Take(t, i, time)) && !Free(s.mutexes[i], t) && time != 0
    ensures Core(TakeStep(s, t, i, time))
    ensures var m := s.mutexes[i];
            && m.owner.Thread? && m.owner.id != t && m.owner.id !in m.waiters && t !in m.waiters
            && forall x :: x in TakeStep(s, t, i, time).mutexes[i].waiters <==> x in m.waiters || x == t
  {
    hide Unique, Suspended;
    var m, s' := s.mutexes[i], TakeStep(s, t, i, time);
    assert CoreMutex(s, i) && CoreThread(s, t) && CoreThread(s, m.owner.id);
    SuspendedMembers(m.waiters, t, Of(Boosted(s.prio, m.owner, t)), m.flag);
    forall j | 0 <= j < |s.mutexes| ensures CoreMutex(s', j) {
      assert CoreMutex(s, j);
    }
    forall x | x in s'.phase ensures CoreThread(s', x) {
      assert CoreThread(s, x);
    }
  }

  lemma CoreTakeNow(s: Sys, t: Tid, i: Mid, time: int)
    requires Core(s) && Enabled(s, Take(t, i, time)) && Shallow(s, Take(t, i, time))
    requires Free(s.mutexes[i], t) || time == 0
    ensures Core(TakeStep(s, t, i, time))
  {
    hide Unique;
    var s' := TakeStep(s, t, i, time);
    assert CoreMutex(s, i) && CoreThread(s, t);
    forall j | 0 <= j < |s.mutexes| ensures CoreMutex(s', j) {
      assert CoreMutex(s, j);
    }
    forall x | x in s'.phase ensures CoreThread(s', x) {
      assert CoreThread(s, x);
    }
  }

  lemma CoreReleaseThread(s: Sys, t: Tid, i: Mid, x: Tid)
    requires Core(s) && Enabled(s, Release(t, i)) && x in ReleaseStep(s, t, i).phase
    ensures CoreThread(ReleaseStep(s, t, i), x)
  {
    hide Unique;
    var m := s.mutexes[i];
    assert CoreMutex(s, i) && CoreThread(s, t) && CoreThread(s, x);
    if m.waiters != [] {
      TailUnique(m.waiters);
      assert CoreThread(s, m.waiters[0]);
    }
  }

  lemma CoreRelease(s: Sys, t: Tid, i: Mid)
    requires Core(s) && Enabled(s, Release(t, i))
    ensures Core(ReleaseStep(s, t, i))
  {
    hide Unique, CoreThread;
    var m, s' := s.mutexes[i], ReleaseStep(s, t, i);
    assert CoreMutex(s, i);
    if m.waiters != [] {
      TailUnique(m.waiters);
    }
    forall j | 0 <= j < |s.mutexes| ensures CoreMutex(s', j) {
      assert CoreMutex(s, j);
    }
    forall x | x in s'.phase ensures CoreThread(s', x) {
      CoreReleaseThread(s, t, i, x);
    }
  }

  lemma CoreExpire(s: Sys, t: Tid)
    requires Core(s) && Enabled(s, Expire(t))
    ensures Core(Step(s, Expire(t)))
  {
    hide Unique, Removed;
    var i, s' := s.phase[t].on, Step(s, Expire(t));
    assert CoreMutex(s, i) && CoreThread(s, t);
    RemovedMembers(s.mutexes[i].waiters, t);
    forall j | 0 <= j < |s.mutexes| ensures CoreMutex(s', j) {
      assert CoreMutex(s, j);
    }
    forall x | x in s'.phase ensures CoreThread(s', x) {
      assert CoreThread(s, x);
    }
  }

  lemma CoreReturn(s: Sys, t: Tid)
    requires Core(s) && Enabled(s, Return(t))
    ensures Core(Step(s, Return(t)))
  {
    hide Unique;
    var s' := Step(s, Return(t));
    forall j | 0 <= j < |s.mutexes| ensures CoreMutex(s', j) {
      assert CoreMutex(s, j);
    }
    forall x | x in s'.phase ensures CoreThread(s', x) {
      assert CoreThread(s, x);
    }
  }

  /** Every event keeps the structure, however many mutexes a thread holds. */
  lemma CoreStep(s: Sys, e: Event)
    requires Core(s) && Enabled(s, e) && Shallow(s, e)
    ensures Core(Step(s, e))
  {
    hide Core;
    match e
    case Take(t, i, time) =>
      if Free(s.mutexes[i], t) || time == 0 {
        CoreTakeNow(s, t, i, time);
      } else {
        CoreTakeWait(s, t, i, time);
      }
    case Release(t, i) => CoreRelease(s, t, i);
    case Expire(t) => CoreExpire(s, t);
    case Return(t) => CoreReturn(s, t);
  }

  ghost predicate RunsTo(s: Sys, events: seq<Event>, s': Sys)
    decreases |events|
  {
    if events == [] then s == s'
    else Enabled(s, events[0]) && Shallow(s, events[0]) && RunsTo(Step(s, events[0]), events[1..], s')
  }

  lemma {:induction false} CoreRun(s: Sys, events: seq<Event>, s': Sys)
    requires Core(s) && RunsTo(s, events, s')
    ensures Core(s')
    decreases |events|
  {
    hide Core, Step;
    if events != [] {
      CoreStep(s, events[0]);
      CoreRun(Step(s, events[0]), events[1..], s');
    }
  }

  lemma FreshCore(flags: seq<Flag>, base: map<Tid, int>)
    ensures Core(Fresh(flags, base))
  {
    EmptySorted(Of(base));
  }

  /** In every run: an owner iff value is 0 iff hold > 0, and waiters only if there is an owner. */
  lemma Counters(flags: seq<Flag>, base: map<Tid, int>, events: seq<Event>, s: Sys, i: Mid)
    requires RunsTo(Fresh(flags, base), events, s) && i < |s.mutexes|
    ensures var m := s.mutexes[i];
            && (m.owner.Thread? <==> m.value == 0) && (m.owner.Thread? <==> m.hold > 0)
            && (m.waiters != [] ==> m.owner.Thread?) && Unique(m.waiters)
  {
    FreshCore(flags, base);
    CoreRun(Fresh(flags, base), events, s);
    assert CoreMutex(s, i);
  }

  /** A thread that comes back from waiting without an error owns the mutex: nobody can have been faster. */
  lemma GrantIsSafe(flags: seq<Flag>, base: map<Tid, int>, events: seq<Event>, s: Sys, t: Tid)
    requires RunsTo(Fresh(flags, base), events, s) && t in s.phase && s.phase[t].Granted?
    ensures Owns(s, t, s.phase[t].of) && s.mutexes[s.phase[t].of].hold == 1
  {
    FreshCore(flags, base);
    CoreRun(Fresh(flags, base), events, s);
    assert CoreThread(s, t);
  }

  // ---------------------------------------------------------------- what a call returns

  /** The mutex that each thread has asked for and not given a release after, from the list of events alone. */
  function Asked(wants: map<Tid, Mid>, events: seq<Event>): map<Tid, Mid>
    decreases |events|
  {
    if events == [] then wants
    else
      Asked(match events[0]
            case Take(t, i, _) => wants[t := i]
            case Release(t, _) => wants - {t}
            case _ => wants, events[1..])
  }

  /** A thread that has asked for a mutex sleeps on it, is about to get it, or has the right answer. */
  ghost predicate Answered(s: Sys, t: Tid, i: Mid)
    requires t in s.phase
  {
    match s.phase[t]
    case Running(error) => (error.EOK? <==> Owns(s, t, i)) && (error.EOK? || error.ETIMEOUT?)
    case Asleep(on, _) => on == i && !Owns(s, t, i)
    case Granted(of) => of == i && Owns(s, t, i)
  }

  ghost predicate AllAnswered(s: Sys, wants: map<Tid, Mid>) {
    forall t :: t in wants ==> t in s.phase && Answered(s, t, wants[t])
  }

  /** Every thread that sleeps or is about to get a mutex has asked for it. */
  ghost predicate AllAsked(s: Sys, wants: map<Tid, Mid>) {
    forall t :: t in s.phase && !s.phase[t].Running? ==> t in wants
  }

  lemma AnswerTake(s: Sys, t: Tid, i: Mid, time: int, wants: map<Tid, Mid>)
    requires Core(s) && Enabled(s, Take(t, i, time)) && AllAnswered(s, wants) && AllAsked(s, wants)
    ensures AllAnswered(TakeStep(s, t, i, time), wants[t := i]) && AllAsked(TakeStep(s, t, i, time), wants[t := i])
  {
    hide Unique, Suspended;
    var s', w := TakeStep(s, t, i, time), wants[t := i];
    assert CoreMutex(s, i);
    forall x | x in w ensures x in s'.phase && Answered(s', x, w[x]) {
      if x != t {
        assert CoreThread(s, x) && Answered(s, x, wants[x]);
      }
    }
  }

  lemma AnswerReleaseOne(s: Sys, t: Tid, i: Mid, x: Tid, k: Mid)
    requires Core(s) && Enabled(s, Release(t, i)) && x in s.phase && x != t && Answered(s, x, k)
    ensures x in ReleaseStep(s, t, i).phase && Answered(ReleaseStep(s, t, i), x, k)
  {
    hide Unique;
    var m := s.mutexes[i];
    assert CoreMutex(s, i) && CoreThread(s, x);
    if m.waiters != [] {
      assert m.waiters[0] in m.waiters && CoreThread(s, m.waiters[0]);
    }
  }

  lemma AnswerRelease(s: Sys, t: Tid, i: Mid, wants: map<Tid, Mid>)
    requires Core(s) && Enabled(s, Release(t, i)) && AllAnswered(s, wants) && AllAsked(s, wants)
    ensures AllAnswered(ReleaseStep(s, t, i), wants - {t}) && AllAsked(ReleaseStep(s, t, i), wants - {t})
  {
    hide Unique, Answered, CoreMutex;
    var m, s' := s.mutexes[i], ReleaseStep(s, t, i);
    assert CoreThread(s, t);
    if m.waiters != [] && m.waiters[0] in s.phase {
      assert m.waiters[0] in m.waiters && CoreThread(s, m.waiters[0]);
    }
    forall x | x in wants - {t} ensures x in s'.phase && Answered(s', x, wants[x]) {
      AnswerReleaseOne(s, t, i, x, wants[x]);
    }
    WaitersKnown(s, i);
  }

  lemma WaitersKnown(s: Sys, i: Mid)
    requires Core(s) && i < |s.mutexes|
    ensures forall x :: x in s.mutexes[i].waiters ==> x in s.phase && !s.phase[x].Running?
  {
    assert CoreMutex(s, i);
    forall x | x in s.mutexes[i].waiters ensures x in s.phase && !s.phase[x].Running? {
      assert CoreThread(s, x);
    }
  }

  lemma AnswerStep(s: Sys, e: Event, wants: map<Tid, Mid>)
    requires Core(s) && Enabled(s, e) && AllAnswered(s, wants) && AllAsked(s, wants)
    ensures AllAnswered(Step(s, e), Asked(wants, [e])) && AllAsked(Step(s, e), Asked(wants, [e]))
  {
    hide TakeStep, ReleaseStep, Removed, Unique, CoreMutex;
    assert [e][1..] == [];
    match e
    case Take(t, i, time) => AnswerTake(s, t, i, time, wants);
    case Release(t, i) => AnswerRelease(s, t, i, wants);
    case _ =>
      var s' := Step(s, e);
      forall x | x in wants ensures x in s'.phase && Answered(s', x, wants[x]) {
        assert CoreThread(s, x) && Answered(s, x, wants[x]);
      }
  }

  lemma {:induction false} AnswerRun(s: Sys, events: seq<Event>, s': Sys, wants: map<Tid, Mid>)
    requires Core(s) && RunsTo(s, events, s') && AllAnswered(s, wants) && AllAsked(s, wants)
    ensures AllAnswered(s', Asked(wants, events))
    decreases |events|
  {
    hide Core, AllAnswered, AllAsked, Step;
    if events != [] {
      AnswerStep(s, events[0], wants);
      CoreStep(s, events[0]);
      assert [events[0]][1..] == [];
      AnswerRun(Step(s, events[0]), events[1..], s', Asked(wants, [events[0]]));
    }
  }

  /**
   In every run, from the list of events alone: once a take has come to an end, in whatever way, it has returned RT_EOK
   if and only if the thread owns the mutex that it asked for, and the timeout error otherwise.
   */
  lemma TakeAnswer(flags: seq<Flag>, base: map<Tid, int>, events: seq<Event>, s: Sys, t: Tid)
    requires RunsTo(Fresh(flags, base), events, s) && t in Asked(map[], events)
    ensures t in s.phase && Answered(s, t, Asked(map[], events)[t])
  {
    FreshCore(flags, base);
    AnswerRun(Fresh(flags, base), events, s, map[]);
  }

  /** How the owner and the depth of a mutex change: nobody gets one by a timeout, a return or a stranger's release. */
  lemma OwnerExactly(s: Sys, e: Event, j: Mid)
    requires Core(s) && Enabled(s, e) && Shallow(s, e) && j < |s.mutexes|
    ensures var m, m' := s.mutexes[j], Step(s, e).mutexes[j];
            if e.Take? && e.i == j && (m.owner.Nobody? || m.owner == Thread(e.t)) then
              m'.owner == Thread(e.t) && m'.hold == m.hold + 1
            else if e.Release? && e.i == j && m.owner == Thread(e.t) then
              if m.hold > 1 then m'.owner == m.owner && m'.hold == m.hold - 1
              else if m.waiters == [] then m'.owner.Nobody? && m'.hold == 0
              else m'.owner == Thread(m.waiters[0]) && m'.hold == 1
            else m'.owner == m.owner && m'.hold == m.hold
  {
    hide Unique, Suspended, Removed;
    assert CoreMutex(s, j);
  }

  /** A release returns RT_EOK exactly to the owner; to anybody else it does nothing but return an error. */
  lemma ReleaseAnswer(s: Sys, t: Tid, i: Mid)
    requires Core(s) && Enabled(s, Release(t, i))
    ensures var s' := ReleaseStep(s, t, i);
            if Owns(s, t, i) then s'.phase[t] == Running(EOK)
            else s' == s.(phase := s.phase[t := Running(ERROR)])
  {
    hide Unique;
    assert CoreMutex(s, i) && CoreThread(s, t);
    if !Owns(s, t, i) {
      assert s.mutexes[i := s.mutexes[i]] == s.mutexes;
    }
  }

  // ---------------------------------------------------------------- FIFO mutexes

  /** When each thread made its last step, counted in events from number n on. */
  function Since(since: map<Tid, int>, n: int, events: seq<Event>): map<Tid, int>
    decreases |events|
  {
    if events == [] then since else Since(since[events[0].t := n], n + 1, events[1..])
  }

  /** The waiters of mutex j have come in the order in which they wait, if its flag says so. */
  ghost predicate Ranked(m: Mutex, since: map<Tid, int>, n: int) {
    (m.flag.Fifo? ==> Lined(m.waiters, Fifo, _ => 0, since)) && Earlier(m.waiters, since, n)
  }

  lemma SameRanked(m: Mutex, t: Tid, since: map<Tid, int>, n: int)
    requires Ranked(m, since, n) && t !in m.waiters
    ensures Ranked(m, since[t := n], n + 1)
  {
    if m.flag.Fifo? {
      SameLined(m.waiters, Fifo, _ => 0, since, t, n);
    }
  }

  lemma StepRanked(s: Sys, e: Event, j: Mid, since: map<Tid, int>, n: int)
    requires Core(s) && Enabled(s, e) && j < |s.mutexes| && Ranked(s.mutexes[j], since, n)
    ensures Ranked(Step(s, e).mutexes[j], since[e.t := n], n + 1)
  {
    hide Lined, Earlier, Place, Removed, Unique;
    var m, t := s.mutexes[j], e.t;
    assert CoreMutex(s, j) && CoreThread(s, t);
    match e
    case Take(_, i, time) =>
      SameRanked(m, t, since, n);
      if i == j && !Free(m, t) && time != 0 {
        TakeRanked(m, t, Of(Boosted(s.prio, m.owner, t)), since, n);
      }
    case Release(_, i) =>
      SameRanked(m, t, since, n);
      if i == j && m.waiters != [] {
        TailRanked(m, t, since, n);
      }
    case Expire(_) =>
      if s.phase[t].on == j {
        RemovedMembers(m.waiters, t);
        LeaveRanked(m, t, since, n);
      } else {
        SameRanked(m, t, since, n);
      }
    case Return(_) => SameRanked(m, t, since, n);
  }

  lemma TakeRanked(m: Mutex, t: Tid, f: Tid -> int, since: map<Tid, int>, n: int)
    requires Ranked(m, since, n) && t !in m.waiters && Unique(m.waiters)
    ensures Ranked(m.(waiters := Suspended(m.waiters, t, f, m.flag)), since[t := n], n + 1)
  {
    SuspendedMembers(m.waiters, t, f, m.flag);
    if m.flag.Fifo? {
      SuspendedLined(m.waiters, t, Fifo, _ => 0, since, n);
      assert Suspended(m.waiters, t, f, Fifo) == Suspended(m.waiters, t, _ => 0, Fifo);
    }
  }

  lemma TailRanked(m: Mutex, t: Tid, since: map<Tid, int>, n: int)
    requires Ranked(m, since, n) && t !in m.waiters && m.waiters != []
    ensures forall m': Mutex :: m'.flag == m.flag && m'.waiters == m.waiters[1..] ==> Ranked(m', since[t := n], n + 1)
  {
    assert t !in m.waiters[1..];
    if m.flag.Fifo? {
      TailLined(m.waiters, Fifo, _ => 0, since, t, n);
    }
  }

  lemma LeaveRanked(m: Mutex, t: Tid, since: map<Tid, int>, n: int)
    requires Ranked(m, since, n) && t !in Removed(m.waiters, t)
    requires forall x :: x in Removed(m.waiters, t) ==> x in m.waiters
    ensures Ranked(m.(waiters := Removed(m.waiters, t)), since[t := n], n + 1)
  {
    if m.flag.Fifo? {
      RemovedLined(m.waiters, Fifo, _ => 0, since, t);
      SameLined(Removed(m.waiters, t), Fifo, _ => 0, since, t, n);
    }
  }

  ghost predicate AllRanked(s: Sys, since: map<Tid, int>, n: int) {
    forall j :: 0 <= j < |s.mutexes| ==> Ranked(s.mutexes[j], since, n)
  }

  lemma {:induction false} RunRanked(s: Sys, events: seq<Event>, s': Sys, since: map<Tid, int>, n: int)
    requires Core(s) && RunsTo(s, events, s') && AllRanked(s, since, n)
    ensures AllRanked(s', Since(since, n, events), n + |events|)
    decreases |events|
  {
    hide Core, Ranked, Enabled;
    if events != [] {
      var e := events[0];
      SameCount(s, e);
      forall j | 0 <= j < |s.mutexes| ensures Ranked(Step(s, e).mutexes[j], since[e.t := n], n + 1) {
        StepRanked(s, e, j, since, n);
      }
      CoreStep(s, e);
      hide Step;
      RunRanked(Step(s, e), events[1..], s', since[e.t := n], n + 1);
    }
  }

  lemma SameCount(s: Sys, e: Event)
    requires Enabled(s, e)
    ensures |Step(s, e).mutexes| == |s.mutexes|
  {
  }

  /** In every run the waiters of a FIFO mutex wait in the order in which they came, and the first gets it next. */
  lemma FifoInOrder(flags: seq<Flag>, base: map<Tid, int>, events: seq<Event>, s: Sys, j: Mid)
    requires RunsTo(Fresh(flags, base), events, s) && j < |s.mutexes| && s.mutexes[j].flag.Fifo?
    ensures Lined(s.mutexes[j].waiters, Fifo, _ => 0, Since(map[], 0, events))
  {
    FreshCore(flags, base);
    RunRanked(Fresh(flags, base), events, s, map[], 0);
  }

  // ---------------------------------------------------------------- inheritance, event by event

  /** Mutex j is as inheritance wants it: waiters by priority, and an owner as urgent as all of them. */
  ghost predicate Kept(s: Sys, j: Mid)
    requires j < |s.mutexes|
  {
    Sorted(s.mutexes[j].waiters, Of(s.prio)) && Urgent(s, j)
  }

  /** The take waits, and makes the owner of the mutex more urgent. */
  predicate Boosts(s: Sys, t: Tid, i: Mid, time: int)
    requires i < |s.mutexes|
  {
    && !Free(s.mutexes[i], t) && time != 0 && s.mutexes[i].owner.Thread?
    && Of(s.prio)(t) < Of(s.prio)(s.mutexes[i].owner.id)
  }

  /** No waiter before o in the list is less urgent than p. */
  ghost predicate NoneBefore(list: seq<Tid>, f: Tid -> int, o: Tid, p: int) {
    forall k :: 0 <= k < |list| && list[k] == o ==> k == 0 || f(list[k - 1]) <= p
  }

  /** Raising one member of a sorted list keeps it sorted exactly if its neighbour before it is not passed. */
  lemma RaiseSorted(list: seq<Tid>, f: Tid -> int, g: Tid -> int, o: Tid, p: int)
    requires Unique(list) && Sorted(list, f) && o in list && p < f(o) && g(o) == p
    requires forall x :: x != o ==> g(x) == f(x)
    ensures Sorted(list, g) <==> NoneBefore(list, f, o, p)
  {
    var k :| 0 <= k < |list| && list[k] == o;
    if NoneBefore(list, f, o, p) {
      forall x, y | 0 <= x < y < |list| ensures g(list[x]) <= g(list[y]) {
        assert f(list[x]) <= f(list[y]) && (y == k && x < k - 1 ==> f(list[x]) <= f(list[k - 1]));
      }
    }
  }

  /**
   A thread t that waits for mutex i makes its owner o more urgent.  If o itself waits for mutex j, that list and
   its owner do not notice: inheritance stays right for j exactly if the owner of j was already as urgent as t,
   and the list exactly if o need not move up in it.
   */
  lemma SleepingOwner(s: Sys, t: Tid, i: Mid, time: int, j: Mid)
    requires Core(s) && Enabled(s, Take(t, i, time)) && Boosts(s, t, i, time)
    requires j < |s.mutexes| && j != i && Kept(s, j)
    ensures var o, list, f := s.mutexes[i].owner.id, s.mutexes[j].waiters, Of(s.prio);
            var s' := TakeStep(s, t, i, time);
            && (Urgent(s', j) <==> o !in list || (s.mutexes[j].owner.Thread? && f(s.mutexes[j].owner.id) <= f(t)))
            && (Sorted(list, Of(s'.prio)) <==> o !in list || NoneBefore(list, f, o, f(t)))
  {
    hide Sorted, NoneBefore, Unique, Suspended;
    var o, list, s' := s.mutexes[i].owner.id, s.mutexes[j].waiters, TakeStep(s, t, i, time);
    assert CoreMutex(s, i) && CoreMutex(s, j) && CoreThread(s, t) && CoreThread(s, o);
    assert s'.mutexes[j] == s.mutexes[j];
    assert Of(s'.prio)(o) == Of(s.prio)(t) && forall x :: x != o ==> Of(s'.prio)(x) == Of(s.prio)(x);
    if o in list {
      RaiseSorted(list, Of(s.prio), Of(s'.prio), o, Of(s.prio)(t));
    } else {
      SortedSame(list, Of(s.prio), Of(s'.prio));
    }
  }

  /** A waiting take keeps inheritance right for the mutex itself. */
  lemma WaitKept(s: Sys, t: Tid, i: Mid, time: int)
    requires Core(s) && Enabled(s, Take(t, i, time)) && !Free(s.mutexes[i], t) && time != 0
    requires s.mutexes[i].flag.Prio? && Kept(s, i)
    ensures Kept(TakeStep(s, t, i, time), i)
  {
    hide Sorted, Unique, Suspended;
    CoreTakeWait(s, t, i, time);
    var m, s' := s.mutexes[i], TakeStep(s, t, i, time);
    assert CoreMutex(s, i) && CoreThread(s, t) && CoreThread(s, m.owner.id);
    SortedSame(m.waiters, Of(s.prio), Of(s'.prio));
    SuspendedSorted(m.waiters, t, Of(s'.prio));
  }

  /** The final release keeps inheritance right for the mutex itself. */
  lemma HandOverKept(s: Sys, t: Tid, i: Mid)
    requires Core(s) && Enabled(s, Release(t, i)) && Owns(s, t, i) && Final(s.mutexes[i]) && Kept(s, i)
    ensures Kept(ReleaseStep(s, t, i), i)
  {
    hide Sorted, Unique;
    var m, s' := s.mutexes[i], ReleaseStep(s, t, i);
    assert CoreMutex(s, i) && CoreThread(s, t);
    SortedSame(m.waiters, Of(s.prio), Of(s'.prio));
    if m.waiters != [] {
      TailOf(m.waiters, Of(s'.prio));
    }
  }

  /** A release of mutex i, seen from another mutex. */
  lemma ReleaseKept(s: Sys, t: Tid, i: Mid, j: Mid)
    requires Core(s) && Enabled(s, Release(t, i)) && j < |s.mutexes| && j != i && Kept(s, j)
    ensures Kept(ReleaseStep(s, t, i), j) <==>
            || !Owns(s, t, i) || !Final(s.mutexes[i]) || !Owns(s, t, j) || s.mutexes[j].waiters == []
            || s.mutexes[i].original <= Of(s.prio)(s.mutexes[j].waiters[0])
  {
    hide Sorted, Unique;
    var s' := ReleaseStep(s, t, i);
    assert CoreMutex(s, j) && CoreThread(s, t);
    SortedSame(s.mutexes[j].waiters, Of(s.prio), Of(s'.prio));
    if Owns(s, t, i) && Final(s.mutexes[i]) && Owns(s, t, j) {
      NestedRelease(s, t, i, j);
    }
  }

  lemma ExpireKept(s: Sys, t: Tid, j: Mid)
    requires Core(s) && Enabled(s, Expire(t)) && j < |s.mutexes| && Kept(s, j)
    ensures Kept(Step(s, Expire(t)), j)
  {
    hide Sorted, Unique, Removed;
    assert CoreMutex(s, j);
    RemovedMembers(s.mutexes[j].waiters, t);
    RemovedSorted(s.mutexes[j].waiters, t, Of(s.prio));
  }

  /** What an event must not do to mutex j. */
  ghost predicate Harmless(s: Sys, e: Event, j: Mid)
    requires j < |s.mutexes| && Enabled(s, e)
  {
    match e
    case Take(t, i, time) =>
      || i == j || !Boosts(s, t, i, time) || s.mutexes[i].owner.id !in s.mutexes[j].waiters
      || (&& s.mutexes[j].owner.Thread? && Of(s.prio)(s.mutexes[j].owner.id) <= Of(s.prio)(t)
          && NoneBefore(s.mutexes[j].waiters, Of(s.prio), s.mutexes[i].owner.id, Of(s.prio)(t)))
    case Release(t, i) =>
      || i == j || !Owns(s, t, i) || !Final(s.mutexes[i]) || !Owns(s, t, j) || s.mutexes[j].waiters == []
      || s.mutexes[i].original <= Of(s.prio)(s.mutexes[j].waiters[0])
    case _ => true
  }

  /** For every event and every PRIO mutex: inheritance stays right exactly if the event is harmless. */
  lemma KeptExactly(s: Sys, e: Event, j: Mid)
    requires Core(s) && Enabled(s, e) && j < |s.mutexes| && s.mutexes[j].flag.Prio? && Kept(s, j)
    ensures Kept(Step(s, e), j) <==> Harmless(s, e, j)
  {
    match e
    case Take(t, i, time) => TakeKept(s, t, i, time, j);
    case Release(t, i) =>
      if i != j {
        ReleaseKept(s, t, i, j);
      } else if Owns(s, t, i) && Final(s.mutexes[i]) {
        HandOverKept(s, t, i);
      }
    case Expire(t) => ExpireKept(s, t, j);
    case Return(t) =>
  }

  lemma TakeKept(s: Sys, t: Tid, i: Mid, time: int, j: Mid)
    requires Core(s) && Enabled(s, Take(t, i, time)) && j < |s.mutexes| && s.mutexes[j].flag.Prio? && Kept(s, j)
    ensures Kept(TakeStep(s, t, i, time), j) <==> Harmless(s, Take(t, i, time), j)
  {
    hide Sorted, NoneBefore, Suspended, Unique;
    assert CoreMutex(s, i) && CoreMutex(s, j);
    if Free(s.mutexes[i], t) || time == 0 {
      assert TakeStep(s, t, i, time).mutexes[j].waiters == s.mutexes[j].waiters;
    } else if i == j {
      WaitKept(s, t, i, time);
    } else if Boosts(s, t, i, time) {
      SleepingOwner(s, t, i, time, j);
    } else {
      assert TakeStep(s, t, i, time).prio == s.prio;
    }
  }

  // ---------------------------------------------------------------- urgency without any order

  /** No waiter of mutex j is more urgent than p. */
  ghost predicate AllBehind(s: Sys, j: Mid, p: int)
    requires j < |s.mutexes|
  {
    forall w :: w in s.mutexes[j].waiters ==> p <= Of(s.prio)(w)
  }

  /** What an event must not do to the owner of mutex j, in whatever order its waiters are. */
  ghost predicate Sparing(s: Sys, e: Event, j: Mid)
    requires j < |s.mutexes| && Enabled(s, e)
  {
    match e
    case Take(t, i, time) =>
      || i == j || !Boosts(s, t, i, time) || s.mutexes[i].owner.id !in s.mutexes[j].waiters
      || (s.mutexes[j].owner.Thread? && Of(s.prio)(s.mutexes[j].owner.id) <= Of(s.prio)(t))
    case Release(t, i) =>
      || !Owns(s, t, i) || !Final(s.mutexes[i]) || s.mutexes[j].waiters == []
      || (if i == j then AllBehind(s, j, Of(s.prio)(s.mutexes[j].waiters[0]))
          else !Owns(s, t, j) || AllBehind(s, j, s.mutexes[i].original))
    case _ => true
  }

  /** For every event and every mutex, FIFO or PRIO: the owner stays urgent enough exactly if it is spared. */
  lemma UrgentExactly(s: Sys, e: Event, j: Mid)
    requires Core(s) && Enabled(s, e) && j < |s.mutexes| && Urgent(s, j)
    ensures Urgent(Step(s, e), j) <==> Sparing(s, e, j)
  {
    hide Core, Sparing, Urgent;
    match e
    case Take(t, i, time) => TakeUrgent(s, t, i, time, j);
    case Release(t, i) => ReleaseUrgent(s, t, i, j);
    case Expire(t) => ExpireUrgent(s, t, j);
    case Return(t) => ReturnUrgent(s, t, j);
  }

  lemma TakeUrgent(s: Sys, t: Tid, i: Mid, time: int, j: Mid)
    requires Core(s) && Enabled(s, Take(t, i, time)) && j < |s.mutexes| && Urgent(s, j)
    ensures Urgent(TakeStep(s, t, i, time), j) <==> Sparing(s, Take(t, i, time), j)
  {
    hide Suspended, Unique;
    var s' := TakeStep(s, t, i, time);
    assert CoreMutex(s, i) && CoreMutex(s, j) && CoreThread(s, t);
    if Free(s.mutexes[i], t) || time == 0 {
      assert s'.mutexes[j].waiters == s.mutexes[j].waiters && s'.prio == s.prio;
    } else {
      var o := s.mutexes[i].owner.id;
      assert CoreThread(s, o);
      CoreTakeWait(s, t, i, time);
      assert forall x :: x != o ==> Of(s'.prio)(x) == Of(s.prio)(x);
    }
  }

  lemma ReleaseUrgent(s: Sys, t: Tid, i: Mid, j: Mid)
    requires Core(s) && Enabled(s, Release(t, i)) && j < |s.mutexes| && Urgent(s, j)
    ensures Urgent(ReleaseStep(s, t, i), j) <==> Sparing(s, Release(t, i), j)
  {
    hide Unique;
    var m, s' := s.mutexes[i], ReleaseStep(s, t, i);
    assert CoreMutex(s, i) && CoreMutex(s, j) && CoreThread(s, t);
    assert forall x :: x != t ==> Of(s'.prio)(x) == Of(s.prio)(x);
    if Owns(s, t, i) && Final(m) && m.waiters != [] {
      TailUnique(m.waiters);
    }
  }

  lemma ExpireUrgent(s: Sys, t: Tid, j: Mid)
    requires Core(s) && Enabled(s, Expire(t)) && j < |s.mutexes| && Urgent(s, j)
    ensures Urgent(Step(s, Expire(t)), j) && Sparing(s, Expire(t), j)
  {
    hide Unique, Removed;
    assert CoreMutex(s, j);
    RemovedMembers(s.mutexes[j].waiters, t);
  }

  lemma ReturnUrgent(s: Sys, t: Tid, j: Mid)
    requires Enabled(s, Return(t)) && j < |s.mutexes| && Urgent(s, j)
    ensures Urgent(Step(s, Return(t)), j) && Sparing(s, Return(t), j)
  {
  }

  /**
   A thread that owns mutexes i and j gives up i: it stays urgent enough for j
   exactly if the priority it had when it took i is urgent enough for j's first waiter.
   */
  lemma NestedRelease(s: Sys, t: Tid, i: Mid, j: Mid)
    requires Enabled(s, Release(t, i)) && Owns(s, t, i) && Owns(s, t, j) && i != j && Final(s.mutexes[i])
    requires t in s.prio && t !in s.mutexes[j].waiters && Sorted(s.mutexes[j].waiters, Of(s.prio))
    ensures Urgent(ReleaseStep(s, t, i), j) <==>
            s.mutexes[j].waiters == [] || s.mutexes[i].original <= Of(s.prio)(s.mutexes[j].waiters[0])
  {
    var list, s' := s.mutexes[j].waiters, ReleaseStep(s, t, i);
    assert s'.mutexes[j] == s.mutexes[j];
    assert Of(s'.prio)(t) == s.mutexes[i].original && forall w :: w in list ==> Of(s'.prio)(w) == Of(s.prio)(w);
    if list != [] {
      assert list[0] in list;
    }
  }

  /** The order of two mutexes decides: the boost for the first one is lost with the second. */
  lemma NestedInversion()
    ensures exists events, s ::
      RunsTo(Fresh([Prio, Prio], map[1 := 20, 2 := 5]), events, s) && |s.mutexes| == 2 && !Urgent(s, 0)
  {
    hide RunsTo, Step, TakeMutex, TakePrio;
    var s0 := Fresh([Prio, Prio], map[1 := 20, 2 := 5]);
    TakeShape(s0, 1, 0);
    var s1 := Step(s0, Take(1, 0, -1));
    TakeShape(s1, 1, 1);
    var s2 := Step(s1, Take(1, 1, -1));
    WaitShape(s2, 2, 0);
    var s3 := Step(s2, Take(2, 0, -1));
    assert [] + [2] == [2];
    assert s2.mutexes == [Mutex(Prio, 0, 1, Thread(1), 20, []), Mutex(Prio, 0, 1, Thread(1), 20, [])];
    assert s3.mutexes == [Mutex(Prio, 0, 1, Thread(1), 20, [2]), Mutex(Prio, 0, 1, Thread(1), 20, [])];
    SecondRelease(s3);
    var s4 := Step(s3, Release(1, 1));
    FourRuns(s0, Take(1, 0, -1), Take(1, 1, -1), Take(2, 0, -1), Release(1, 1), s1, s2, s3, s4);
  }

  lemma SecondRelease(s: Sys)
    requires Enabled(s, Release(1, 1))
    requires s.mutexes == [Mutex(Prio, 0, 1, Thread(1), 20, [2]), Mutex(Prio, 0, 1, Thread(1), 20, [])]
    requires s.prio == map[1 := 5, 2 := 5]
    ensures var s' := Step(s, Release(1, 1)); |s'.mutexes| == 2 && !Urgent(s', 0)
  {
    NestedRelease(s, 1, 1, 0);
  }

  /** The other way to lose it: thread 3 wants what thread 2 holds, which waits for what thread 1 holds. */
  lemma SleepingInversion()
    ensures exists events, s ::
      RunsTo(Fresh([Prio, Prio], map[1 := 20, 2 := 15, 3 := 5]), events, s) && |s.mutexes| == 2 && !Urgent(s, 1)
  {
    hide RunsTo, Step, TakeMutex, TakePrio;
    var s0 := Fresh([Prio, Prio], map[1 := 20, 2 := 15, 3 := 5]);
    TakeShape(s0, 1, 1);
    var s1 := Step(s0, Take(1, 1, -1));
    TakeShape(s1, 2, 0);
    var s2 := Step(s1, Take(2, 0, -1));
    WaitShape(s2, 2, 1);
    var s3 := Step(s2, Take(2, 1, -1));
    assert [] + [2] == [2];
    assert s3.mutexes == [Mutex(Prio, 0, 1, Thread(2), 15, []), Mutex(Prio, 0, 1, Thread(1), 20, [2])];
    WaitShape(s3, 3, 0);
    var s4 := Step(s3, Take(3, 0, -1));
    assert s4.mutexes[1] == s3.mutexes[1] && s4.prio == map[1 := 15, 2 := 5, 3 := 5];
    assert 2 in s4.mutexes[1].waiters;
    FourRuns(s0, Take(1, 1, -1), Take(2, 0, -1), Take(2, 1, -1), Take(3, 0, -1), s1, s2, s3, s4);
  }

  lemma FourRuns(s0: Sys, e1: Event, e2: Event, e3: Event, e4: Event, s1: Sys, s2: Sys, s3: Sys, s4: Sys)
    requires Enabled(s0, e1) && Shallow(s0, e1) && Step(s0, e1) == s1
    requires Enabled(s1, e2) && Shallow(s1, e2) && Step(s1, e2) == s2
    requires Enabled(s2, e3) && Shallow(s2, e3) && Step(s2, e3) == s3
    requires Enabled(s3, e4) && Shallow(s3, e4) && Step(s3, e4) == s4
    ensures RunsTo(s0, [e1, e2, e3, e4], s4)
  {
    hide Enabled, Step, Shallow;
    assert RunsTo(s4, [], s4);
    assert [e1, e2, e3, e4][1..] == [e2, e3, e4] && [e2, e3, e4][1..] == [e3, e4];
    assert [e3, e4][1..] == [e4] && [e4][1..] == [];
    assert RunsTo(s3, [e4], s4);
    assert RunsTo(s2, [e3, e4], s4);
    assert RunsTo(s1, [e2, e3, e4], s4);
  }
}
