/**
 Hard timers (src/timer.c, src/clock.c) as an alarm clock that counts time
 without ever wrapping.

 The queue holds the running timers in the order in which they will fire; a
 timer's deadline is an absolute time.  The kernel's own tick is the low
 32 bits of that time: TimerTicks says exactly when it does the same, and
 TimerWheel that the skip list does.
 */
module TimerSpec {

  import opened IpcList

  type Timer = Tid

  const WORD: int := 0x1_0000_0000  // rt_tick_t is 32 bits wide
  const HALF: int := 0x7FFF_FFFF    // RT_TICK_MAX / 2

  /** `flags` are the timers whose ACTIVATED flag is set. */
  datatype Alarm = Alarm(now: nat, queue: seq<Timer>, due: map<Timer, int>, init: map<Timer, nat>,
                         periodic: set<Timer>, flags: set<Timer>)

  /** Deadlines as a total function. */
  function Due(due: map<Timer, int>): Timer -> int {
    (t: Timer) => if t in due then due[t] else 0
  }

  function InitOf(init: map<Timer, nat>, t: Timer): nat {
    if t in init then init[t] else 0
  }

  // ---------------------------------------------------------------- operations

  /** The locked section of rt_timer_stop: the timer leaves the list. */
  function Remove(a: Alarm, t: Timer): Alarm {
    a.(queue := Removed(a.queue, t))
  }

  /** The last, unlocked part of rt_timer_stop. */
  function Clear(a: Alarm, t: Timer): Alarm {
    a.(flags := a.flags - {t})
  }

  /** rt_timer_stop without anything in between; it does nothing if the flag is not set. */
  function Stop(a: Alarm, t: Timer): Alarm {
    if t in a.flags then Clear(Remove(a, t), t) else a
  }

  /** The first section of rt_timer_start. */
  function Drop(a: Alarm, t: Timer): Alarm {
    Clear(Remove(a, t), t)
  }

  /** The unlocked part of rt_timer_start: the deadline is set from the current tick. */
  function Read(a: Alarm, t: Timer): Alarm {
    a.(due := a.due[t := a.now + InitOf(a.init, t)])
  }

  /** The second section of rt_timer_start: behind all timers with the same or an earlier deadline. */
  function Insert(a: Alarm, t: Timer): Alarm {
    a.(queue := Suspended(a.queue, t, Due(a.due), Prio), flags := a.flags + {t})
  }

  /** rt_timer_start without anything in between, as a tick or a caller with disabled interrupts does it. */
  function Start(a: Alarm, t: Timer): Alarm {
    Insert(Read(Drop(a, t), t), t)
  }

  /** rt_timer_control: the next period, and whether the timer restarts. */
  function Control(a: Alarm, t: Timer, ticks: nat, again: bool): Alarm {
    a.(init := a.init[t := ticks], periodic := if again then a.periodic + {t} else a.periodic - {t})
  }

  /** The timer restarts when it fires: this takes the flag. */
  predicate Again(a: Alarm, t: Timer) {
    t in a.periodic && t in a.flags
  }

  /** One round of rt_timer_check: the first timer fires. */
  function Fire(a: Alarm): Alarm
    requires a.queue != []
  {
    var t := a.queue[0];
    if Again(a, t) then Start(a, t) else Drop(a, t)
  }

  /** How many timers are due: they come first in the queue. */
  function Overdue(a: Alarm): (n: nat)
    ensures n <= |a.queue|
  {
    Place(a.queue, Due(a.due), a.now)
  }

  /** n rounds of rt_timer_check */
  function Rounds(a: Alarm, n: nat): Alarm
    decreases n
  {
    if n == 0 || a.queue == [] then a else Rounds(Fire(a), n - 1)
  }

  /** rt_timer_check: fires the timers that are due. */
  function Check(a: Alarm): Alarm {
    Rounds(a, Overdue(a))
  }

  function Fired(a: Alarm): seq<Timer> {
    a.queue[..Overdue(a)]
  }

  /** rt_tick_increase: the tick goes up by one, then the timers are checked. */
  function Tick(a: Alarm): Alarm {
    Check(a.(now := a.now + 1))
  }

  // ---------------------------------------------------------------- the invariant

  /** The queue is in firing order and its deadlines lie before hi. */
  ghost predicate Ordered(queue: seq<Timer>, due: map<Timer, int>, hi: int) {
    && Unique(queue)
    && Sorted(queue, Due(due))
    && (forall t :: t in queue ==> t in due && due[t] < hi)
  }

  /** Periods fit into half a tick range, and what restarts by itself waits at least one tick. */
  ghost predicate Periods(queue: seq<Timer>, init: map<Timer, nat>, periodic: set<Timer>) {
    && (forall t :: InitOf(init, t) < HALF)
    && (forall t :: t in queue && t in periodic ==> InitOf(init, t) >= 1)
  }

  /** Every deadline that was ever set lies less than half a range ahead. */
  ghost predicate Near(due: map<Timer, int>, now: nat) {
    forall t :: t in due ==> due[t] < now + HALF
  }

  ghost predicate Inv(a: Alarm) {
    && Ordered(a.queue, a.due, a.now + HALF) && Near(a.due, a.now)
    && Periods(a.queue, a.init, a.periodic)
  }

  /** Nothing in the list is overdue. */
  ghost predicate Prompt(a: Alarm) {
    forall t :: t in a.queue ==> a.now <= Due(a.due)(t)
  }

  lemma OrderedRemoved(queue: seq<Timer>, due: map<Timer, int>, hi: int, t: Timer)
    requires Ordered(queue, due, hi)
    ensures Ordered(Removed(queue, t), due, hi) && t !in Removed(queue, t)
    ensures forall x :: x in Removed(queue, t) <==> x in queue && x != t
  {
    RemovedMembers(queue, t);
    RemovedSorted(queue, t, Due(due));
  }

  lemma OrderedInserted(queue: seq<Timer>, due: map<Timer, int>, hi: int, t: Timer, d: int)
    requires Ordered(queue, due, hi) && t !in queue && d < hi
    ensures Ordered(Suspended(queue, t, Due(due[t := d]), Prio), due[t := d], hi)
    ensures forall x :: x in Suspended(queue, t, Due(due[t := d]), Prio) <==> x in queue || x == t
  {
    assert Sorted(queue, Due(due[t := d]));
    SuspendedMembers(queue, t, Due(due[t := d]), Prio);
    SuspendedSorted(queue, t, Due(due[t := d]));
  }

  lemma DropKeeps(a: Alarm, t: Timer)
    requires Inv(a)
    ensures Inv(Remove(a, t)) && Inv(Drop(a, t)) && Inv(Clear(a, t))
    ensures forall x :: x in Removed(a.queue, t) <==> x in a.queue && x != t
  {
    OrderedRemoved(a.queue, a.due, a.now + HALF, t);
  }

  /** A stop takes exactly that timer, if its flag is set. */
  lemma StopKeeps(a: Alarm, t: Timer)
    requires Inv(a)
    ensures Inv(Stop(a, t))
    ensures forall x :: x in Stop(a, t).queue <==> x in a.queue && (x != t || t !in a.flags)
  {
    hide Inv, Removed;
    DropKeeps(a, t);
  }

  lemma StartKeeps(a: Alarm, t: Timer)
    requires Inv(a) && (t in a.periodic ==> InitOf(a.init, t) >= 1)
    ensures Inv(Start(a, t))
    ensures forall x :: x in Start(a, t).queue <==> x in a.queue || x == t
  {
    hide Inv, Removed, Suspended;
    DropKeeps(a, t);
    ReadKeeps(Drop(a, t), t);
    InsertKeeps(Read(Drop(a, t), t), t);
  }

  lemma ReadKeeps(a: Alarm, t: Timer)
    requires Inv(a) && t !in a.queue
    ensures Inv(Read(a, t))
  {
    assert Sorted(a.queue, Due(Read(a, t).due));
  }

  /** The insertion of a timer whose deadline was set before, however long ago. */
  lemma InsertKeeps(a: Alarm, t: Timer)
    requires Inv(a) && t in a.due && t !in a.queue
    requires t in a.periodic ==> InitOf(a.init, t) >= 1
    ensures Inv(Insert(a, t))
    ensures forall x :: x in Insert(a, t).queue <==> x in a.queue || x == t
  {
    hide Ordered, Suspended;
    OrderedInserted(a.queue, a.due, a.now + HALF, t, a.due[t]);
    assert a.due[t := a.due[t]] == a.due;
  }

  lemma FireKeeps(a: Alarm)
    requires Inv(a) && a.queue != []
    ensures Inv(Fire(a))
  {
    hide Inv, Start, Drop;
    Pop(a);
    if Again(a, a.queue[0]) {
      StartKeeps(a, a.queue[0]);
    } else {
      DropKeeps(a, a.queue[0]);
    }
  }

  // ---------------------------------------------------------------- what a check does

  /** A timer that restarts with a later deadline stays behind those that are due. */
  lemma RestartBehind(rest: seq<Timer>, t: Timer, f: Timer -> int, now: int, n: nat)
    requires n <= |rest| && (forall i :: 0 <= i < n ==> f(rest[i]) <= now) && (n < |rest| ==> now < f(rest[n]))
    requires now < f(t)
    ensures Place(Suspended(rest, t, f, Prio), f, now) == n
    ensures Suspended(rest, t, f, Prio)[..n] == rest[..n]
  {
    hide Place;
    var k := Place(rest, f, f(t));
    var q := Suspended(rest, t, f, Prio);
    assert n <= k by {
      assert forall i :: 0 <= i < n ==> f(rest[i]) < f(t);
    }
    assert forall i :: 0 <= i < k ==> q[i] == rest[i];
    assert q[k] == t;
    PlaceIs(q, f, now, n);
  }

  /** The first timer taken off the queue. */
  lemma Pop(a: Alarm)
    requires Inv(a) && a.queue != []
    ensures a.queue[0] !in a.queue[1..] && Removed(a.queue, a.queue[0]) == a.queue[1..]
    ensures a.queue[0] in a.periodic ==> InitOf(a.init, a.queue[0]) >= 1
  {
    assert a.queue[0] in a.queue;
  }

  /** The rest of the queue has one timer less that is due. */
  lemma OneLess(queue: seq<Timer>, f: Timer -> int, g: Timer -> int, now: int)
    requires Place(queue, f, now) > 0 && (forall t :: t in queue[1..] ==> f(t) == g(t))
    ensures var n, rest := Place(queue, f, now) - 1, queue[1..];
            && n <= |rest| && rest[..n] == queue[..n + 1][1..]
            && (forall i :: 0 <= i < n ==> g(rest[i]) <= now) && (n < |rest| ==> now < g(rest[n]))
  {
    hide Place;
    var n, rest := Place(queue, f, now) - 1, queue[1..];
    assert forall i :: 0 <= i < |rest| ==> rest[i] == queue[i + 1] && rest[i] in rest;
  }

  lemma RestartIs(a: Alarm)
    requires Inv(a) && a.queue != []
    ensures var t := a.queue[0];
            var due := a.due[t := a.now + InitOf(a.init, t)];
            Start(a, t) == a.(queue := Suspended(a.queue[1..], t, Due(due), Prio), due := due, flags := a.flags + {t})
  {
    hide Inv, Removed, Suspended;
    Pop(a);
    assert a.flags - {a.queue[0]} + {a.queue[0]} == a.flags + {a.queue[0]};
  }

  lemma FirePeriodic(a: Alarm)
    requires Inv(a) && Overdue(a) > 0 && Again(a, a.queue[0])
    ensures Overdue(Fire(a)) == Overdue(a) - 1 && Fired(Fire(a)) == Fired(a)[1..]
  {
    hide Place, Inv, Suspended, Start;
    var t, rest := a.queue[0], a.queue[1..];
    Pop(a);
    RestartIs(a);
    var f := Due(a.due[t := a.now + InitOf(a.init, t)]);
    assert forall x :: x in rest ==> f(x) == Due(a.due)(x);
    OneLess(a.queue, Due(a.due), f, a.now);
    RestartBehind(rest, t, f, a.now, Overdue(a) - 1);
  }

  lemma FireOneShot(a: Alarm)
    requires Inv(a) && Overdue(a) > 0 && !Again(a, a.queue[0])
    ensures Overdue(Fire(a)) == Overdue(a) - 1 && Fired(Fire(a)) == Fired(a)[1..]
  {
    hide Place, Inv, Removed;
    Pop(a);
    OneLess(a.queue, Due(a.due), Due(a.due), a.now);
    PlaceIs(a.queue[1..], Due(a.due), a.now, Overdue(a) - 1);
  }

  /** Firing the first of several due timers leaves the others due, in their order. */
  lemma FireQueue(a: Alarm)
    requires Inv(a) && Overdue(a) > 0
    ensures Overdue(Fire(a)) == Overdue(a) - 1 && Fired(Fire(a)) == Fired(a)[1..]
    ensures Fire(a).now == a.now && Fire(a).init == a.init && Fire(a).periodic == a.periodic
  {
    hide Inv, Fired, Place, Suspended, Removed;
    assert a.queue != [];
    if Again(a, a.queue[0]) {
      FirePeriodic(a);
    } else {
      FireOneShot(a);
    }
  }

  /** The timers that fire are exactly those whose deadline is not in the future, once each. */
  lemma FiredAreDue(a: Alarm, t: Timer)
    requires Inv(a)
    ensures t in Fired(a) <==> t in a.queue && a.due[t] <= a.now
    ensures Unique(Fired(a))
  {
    hide Place;
    var n := Overdue(a);
    if t in a.queue {
      var i :| 0 <= i < |a.queue| && a.queue[i] == t;
      if i < n {
        assert Fired(a)[i] == t;
      } else {
        assert a.now < Due(a.due)(a.queue[n]) <= Due(a.due)(t);
      }
    }
  }

  /** What is known about one timer: its deadline if it is running. */
  datatype Status = Stopped | Running(due: int)

  function StatusOf(a: Alarm, t: Timer): Status {
    if t in a.queue && t in a.due then Running(a.due[t]) else Stopped
  }

  lemma FireStatus(a: Alarm, t: Timer)
    requires Inv(a) && a.queue != []
    ensures StatusOf(Fire(a), t) ==
            if t != a.queue[0] then StatusOf(a, t)
            else if Again(a, t) then Running(a.now + InitOf(a.init, t)) else Stopped
    ensures t in Fire(a).flags <==> if t == a.queue[0] then Again(a, t) else t in a.flags
  {
    hide Inv;
    Pop(a);
    if Again(a, a.queue[0]) {
      StartKeeps(a, a.queue[0]);
    } else {
      DropKeeps(a, a.queue[0]);
    }
  }

  /** A check restarts or stops each timer that is due and leaves all the others alone. */
  lemma {:induction false} CheckStatus(a: Alarm, t: Timer)
    requires Inv(a)
    ensures Inv(Check(a)) && Check(a).now == a.now
    ensures Check(a).init == a.init && Check(a).periodic == a.periodic
    ensures StatusOf(Check(a), t) ==
            if t !in Fired(a) then StatusOf(a, t)
            else if Again(a, t) then Running(a.now + InitOf(a.init, t)) else Stopped
    ensures t in Check(a).flags <==> if t in Fired(a) then Again(a, t) else t in a.flags
    decreases Overdue(a)
  {
    hide Place, Fire, StatusOf, Inv;
    if Overdue(a) > 0 {
      FireKeeps(a);
      FireQueue(a);
      FireStatus(a, t);
      Once(a);
      assert Fired(a) == [a.queue[0]] + Fired(Fire(a));
      assert Check(a) == Check(Fire(a));
      CheckStatus(Fire(a), t);
    }
  }

  lemma Once(a: Alarm)
    requires Inv(a) && Overdue(a) > 0
    ensures a.queue[0] !in Fired(a)[1..]
  {
    hide Place;
    Pop(a);
    assert forall t :: t in Fired(a)[1..] ==> t in a.queue[1..];
  }

  /** After a check nothing in the list is due. */
  lemma CheckPrompt(a: Alarm)
    requires Inv(a)
    ensures Prompt(Check(a)) && forall t :: t in Check(a).queue ==> a.now < Due(Check(a).due)(t)
  {
    hide Place, Rounds, Fired, Inv;
    CheckStatus(a, 0);
    forall t | t in Check(a).queue ensures a.now < Due(Check(a).due)(t) {
      CheckStatus(a, t);
      FiredAreDue(a, t);
      QueuedHaveDue(Check(a), t);
      QueuedHaveDue(a, t);
    }
  }

  lemma QueuedHaveDue(a: Alarm, t: Timer)
    requires Inv(a)
    ensures t in a.queue ==> t in a.due && Due(a.due)(t) == a.due[t]
    ensures t in a.queue && t in a.periodic ==> InitOf(a.init, t) >= 1
  {
  }

  // ---------------------------------------------------------------- comparisons of 32-bit ticks

  /** The low 32 bits of a time, or of a difference of times. */
  function Low(x: int): (r: int)
    ensures 0 <= r < WORD && (0 <= x < WORD ==> r == x)
  {
    x % WORD
  }

  /** The comparison in the search is right for a listed timer with deadline x and a new one with deadline y. */
  predicate Comparable(x: int, y: int) {
    if x <= y then Low(y - x) <= WORD - HALF else 0 < Low(x - y) < HALF
  }

  /** All comparisons are right that a search along the list makes before it ends at the place of t. */
  predicate Placed(a: Alarm, t: Timer) {
    var f := Due(a.due);
    forall i :: 0 <= i < |a.queue| && i <= Place(a.queue, f, f(t)) ==> Comparable(f(a.queue[i]), f(t))
  }

  /** The deadline that timer t gets now compares rightly with every overdue one. */
  predicate Reaches(a: Alarm, t: Timer) {
    forall x :: x in a.queue && x != t && Due(a.due)(x) <= a.now ==>
      Low(a.now + InitOf(a.init, t) - Due(a.due)(x)) <= WORD - HALF
  }

  /** Every due timer tests as due, and its restart compares rightly with those that are due after it. */
  predicate Checkable(a: Alarm) {
    var q, f, n := a.queue, Due(a.due), Overdue(a);
    && (forall i :: 0 <= i < n ==> Low(a.now - f(q[i])) < HALF)
    && forall i, j :: 0 <= i < j < n && Again(a, q[i]) ==>
         Low(a.now + InitOf(a.init, q[i]) - f(q[j])) <= WORD - HALF
  }

  // ---------------------------------------------------------------- whole runs

  datatype Event =
    | DoStart(t: Timer)
    | DoStop(t: Timer)
    | DoDrop(t: Timer)
    | DoRead(t: Timer)
    | DoInsert(t: Timer)
    | DoRemove(t: Timer)
    | DoClear(t: Timer)
    | DoControl(t: Timer, ticks: nat, again: bool)
    | DoTick

  function Step(a: Alarm, e: Event): Alarm {
    match e
    case DoStart(t) => Start(a, t)
    case DoStop(t) => Stop(a, t)
    case DoDrop(t) => Drop(a, t)
    case DoRead(t) => Read(a, t)
    case DoInsert(t) => Insert(a, t)
    case DoRemove(t) => Remove(a, t)
    case DoClear(t) => Clear(a, t)
    case DoControl(t, ticks, again) => Control(a, t, ticks, again)
    case DoTick => Tick(a)
  }

  /**
   What the callers must see to.  Periods are below half the tick range, and a periodic timer that runs has a
   period of at least 1.  The parts of a split start come in their order: the timer is not in the list, and its
   deadline is set.
   */
  predicate Proper(a: Alarm, e: Event) {
    match e
    case DoStart(t) => t in a.periodic ==> InitOf(a.init, t) >= 1
    case DoRead(t) => t !in a.queue
    case DoInsert(t) => t !in a.queue && t in a.due && (t in a.periodic ==> InitOf(a.init, t) >= 1)
    case DoControl(t, ticks, again) => ticks < HALF && (again && t in a.queue ==> ticks >= 1)
    case _ => true
  }

  /** 32-bit ticks suffice for this step: TimerTicks shows that this is exact. */
  predicate Right(a: Alarm, e: Event) {
    match e
    case DoStart(t) => Reaches(a, t)
    case DoInsert(t) => Placed(a, t)
    case DoTick => Checkable(a.(now := a.now + 1))
    case _ => true
  }

  predicate Legal(a: Alarm, e: Event) {
    Proper(a, e) && Right(a, e)
  }

  predicate LegalRun(a: Alarm, events: seq<Event>)
    decreases |events|
  {
    events == [] || (Legal(a, events[0]) && LegalRun(Step(a, events[0]), events[1..]))
  }

  predicate Touches(e: Event, t: Timer) {
    !e.DoTick? && e.t == t
  }

  ghost predicate LeavesAlone(events: seq<Event>, t: Timer) {
    forall i :: 0 <= i < |events| ==> !Touches(events[i], t)
  }

  function Ticks(events: seq<Event>): nat {
    if events == [] then 0 else (if events[0].DoTick? then 1 else 0) + Ticks(events[1..])
  }

  /** The state after a run. */
  function Run(a: Alarm, events: seq<Event>): Alarm
    decreases |events|
  {
    if events == [] then a else Run(Step(a, events[0]), events[1..])
  }

  /** The timers that an event fires, in order. */
  function FiredBy(a: Alarm, e: Event): seq<Timer> {
    if e.DoTick? then Fired(a.(now := a.now + 1)) else []
  }

  /** The times at which timer t fires during a run. */
  function FireTimes(a: Alarm, events: seq<Event>, t: Timer): seq<int>
    decreases |events|
  {
    if events == [] then []
    else (if t in FiredBy(a, events[0]) then [a.now + 1] else []) + FireTimes(Step(a, events[0]), events[1..], t)
  }

  /** d, d + n, d + 2n, ... up to the time end. */
  function Series(d: int, n: nat, end: int): seq<int>
    requires n >= 1
    decreases end - d
  {
    if d > end then [] else [d] + Series(d + n, n, end)
  }

  /** When a running timer fires next: at its deadline, or at the next tick if that has passed. */
  function Next(d: int, now: int): int {
    if d > now then d else now + 1
  }

  /** The check of the next tick, seen from the state before it. */
  lemma NextTick(a: Alarm, t: Timer)
    requires Inv(a)
    ensures Inv(Tick(a)) && Tick(a).now == a.now + 1 && Tick(a).init == a.init && Tick(a).periodic == a.periodic
    ensures t in FiredBy(a, DoTick) <==> StatusOf(a, t).Running? && StatusOf(a, t).due <= a.now + 1
    ensures StatusOf(Tick(a), t) ==
            if t !in FiredBy(a, DoTick) then StatusOf(a, t)
            else if Again(a, t) then Running(a.now + 1 + InitOf(a.init, t)) else Stopped
    ensures t in Tick(a).flags <==> if t in FiredBy(a, DoTick) then Again(a, t) else t in a.flags
  {
    hide Inv, Place, Rounds, Fired;
    TickPasses(a);
    FiredAreDue(a.(now := a.now + 1), t);
    CheckStatus(a.(now := a.now + 1), t);
    QueuedHaveDue(a, t);
  }

  lemma TickPasses(a: Alarm)
    requires Inv(a)
    ensures Inv(a.(now := a.now + 1))
  {
  }

  /** Every proper event keeps the invariant, and only events on t itself and ticks concern t. */
  lemma StepKeeps(a: Alarm, e: Event, t: Timer)
    requires Inv(a) && Proper(a, e)
    ensures Inv(Step(a, e)) && Step(a, e).now == a.now + if e.DoTick? then 1 else 0
    ensures !e.DoTick? && !Touches(e, t) ==>
              && StatusOf(Step(a, e), t) == StatusOf(a, t)
              && InitOf(Step(a, e).init, t) == InitOf(a.init, t)
              && (t in Step(a, e).periodic <==> t in a.periodic)
              && (t in Step(a, e).flags <==> t in a.flags)
  {
    hide Inv, Place, Removed, Suspended, Tick;
    match e {
      case DoStart(x) => StartKeeps(a, x);
      case DoStop(x) => StopKeeps(a, x);
      case DoDrop(x) => DropKeeps(a, x);
      case DoRead(x) => ReadKeeps(a, x);
      case DoInsert(x) => InsertKeeps(a, x);
      case DoRemove(x) => DropKeeps(a, x);
      case DoClear(x) => DropKeeps(a, x);
      case DoControl(x, ticks, again) => ControlKeeps(a, x, ticks, again);
      case DoTick => NextTick(a, t);
    }
  }

  lemma ControlKeeps(a: Alarm, t: Timer, ticks: nat, again: bool)
    requires Inv(a) && Proper(a, DoControl(t, ticks, again))
    ensures Inv(Control(a, t, ticks, again))
  {
    var b := Control(a, t, ticks, again);
    forall x ensures InitOf(b.init, x) < HALF {
      assert x != t ==> InitOf(b.init, x) == InitOf(a.init, x);
    }
    forall x | x in b.queue && x in b.periodic ensures InitOf(b.init, x) >= 1 {
      assert x != t ==> InitOf(b.init, x) == InitOf(a.init, x);
    }
  }

  /** A timer that is not running never fires until somebody starts it. */
  lemma {:induction false} StoppedIsSilent(a: Alarm, events: seq<Event>, t: Timer)
    requires Inv(a) && LegalRun(a, events) && LeavesAlone(events, t) && StatusOf(a, t).Stopped?
    ensures FireTimes(a, events, t) == []
    decreases |events|
  {
    hide Inv, Step, StatusOf, Fired, Tick, Proper, Right;
    if events != [] {
      assert !Touches(events[0], t);
      StepKeeps(a, events[0], t);
      StepIsTick(a, events[0]);
      NextTick(a, t);
      StoppedIsSilent(Step(a, events[0]), events[1..], t);
    }
  }

  lemma StepIsTick(a: Alarm, e: Event)
    ensures e.DoTick? ==> Step(a, e) == Tick(a)
  {
  }

  /**
   A timer that does not restart and is left alone fires exactly once, at its deadline (or at the next tick, if
   that has passed), whatever the other timers do and however long the run is.  A periodic timer without its flag
   is one of these.
   */
  lemma {:induction false} OneShotExact(a: Alarm, events: seq<Event>, t: Timer)
    requires Inv(a) && LegalRun(a, events) && LeavesAlone(events, t)
    requires StatusOf(a, t).Running? && !Again(a, t)
    ensures var first := Next(StatusOf(a, t).due, a.now);
            FireTimes(a, events, t) == if first <= a.now + Ticks(events) then [first] else []
    decreases |events|
  {
    hide Inv, Step, StatusOf, Fired, Tick, Proper, Right;
    if events != [] {
      assert !Touches(events[0], t);
      StepKeeps(a, events[0], t);
      StepIsTick(a, events[0]);
      NextTick(a, t);
      if t in FiredBy(a, events[0]) {
        StoppedIsSilent(Tick(a), events[1..], t);
      } else {
        OneShotExact(Step(a, events[0]), events[1..], t);
      }
    }
  }

  /** A periodic timer that is left alone fires at its deadline and then once in every period, exactly. */
  lemma {:induction false} PeriodicExact(a: Alarm, events: seq<Event>, t: Timer)
    requires Inv(a) && LegalRun(a, events) && LeavesAlone(events, t)
    requires StatusOf(a, t).Running? && Again(a, t) && InitOf(a.init, t) >= 1
    ensures FireTimes(a, events, t) == Series(Next(StatusOf(a, t).due, a.now), InitOf(a.init, t), a.now + Ticks(events))
    decreases |events|
  {
    hide Inv, Step, StatusOf, Fired, Tick, Proper, Right, InitOf;
    if events != [] {
      assert !Touches(events[0], t);
      StepKeeps(a, events[0], t);
      StepIsTick(a, events[0]);
      NextTick(a, t);
      PeriodicExact(Step(a, events[0]), events[1..], t);
    }
  }

  /** The times at which a timer fires up to `end` if it fires first at `first`. */
  function Times(first: int, again: bool, n: nat, end: int): seq<int> {
    if again && n >= 1 then Series(first, n, end) else if first <= end then [first] else []
  }

  lemma RunningExact(a: Alarm, events: seq<Event>, t: Timer)
    requires Inv(a) && LegalRun(a, events) && LeavesAlone(events, t) && StatusOf(a, t).Running?
    ensures FireTimes(a, events, t) ==
            Times(Next(StatusOf(a, t).due, a.now), Again(a, t), InitOf(a.init, t), a.now + Ticks(events))
  {
    hide Inv, FireTimes, LegalRun, Ticks, InitOf, Series, LeavesAlone;
    QueuedHaveDue(a, t);
    if Again(a, t) {
      PeriodicExact(a, events, t);
    } else {
      OneShotExact(a, events, t);
    }
  }

  // ---------------------------------------------------------------- the flag and the list

  predicate Agrees(a: Alarm, t: Timer) {
    t in a.flags <==> t in a.queue
  }

  /** For every event and every state: when the flag of t tells afterwards whether t is in the list. */
  lemma FlagExactly(a: Alarm, e: Event, t: Timer)
    requires Inv(a) && Legal(a, e)
    ensures Agrees(Step(a, e), t) <==>
            match e
            case DoTick => t in FiredBy(a, DoTick) || Agrees(a, t)
            case DoStart(x) => x == t || Agrees(a, t)
            case DoDrop(x) => x == t || Agrees(a, t)
            case DoInsert(x) => x == t || Agrees(a, t)
            case DoStop(x) => if x == t then t in a.flags || t !in a.queue else Agrees(a, t)
            case DoRemove(x) => if x == t then t !in a.flags else Agrees(a, t)
            case DoClear(x) => if x == t then t !in a.queue else Agrees(a, t)
            case DoRead(_) => Agrees(a, t)
            case DoControl(_, _, _) => Agrees(a, t)
  {
    hide Inv, Place, Removed, Suspended, Tick, FiredBy, Right;
    match e {
      case DoStart(x) => StartKeeps(a, x);
      case DoStop(x) => DropKeeps(a, x);
      case DoDrop(x) => DropKeeps(a, x);
      case DoRead(x) =>
      case DoInsert(x) => InsertKeeps(a, x);
      case DoRemove(x) => DropKeeps(a, x);
      case DoClear(x) =>
      case DoControl(x, ticks, again) =>
      case DoTick =>
        NextTick(a, t);
        QueuedHaveDue(a, t);
        QueuedHaveDue(Tick(a), t);
    }
  }

  /**
   A start between the two parts of a stop: the timer runs without its flag.  It cannot be stopped, and even a
   periodic one fires once and never again.
   */
  lemma LostFlag(a: Alarm, t: Timer, events: seq<Event>)
    requires Inv(a) && Legal(Remove(a, t), DoStart(t)) && InitOf(a.init, t) >= 1
    requires var b := Run(a, [DoRemove(t), DoStart(t), DoClear(t)]); LegalRun(b, events) && LeavesAlone(events, t)
    ensures var b := Run(a, [DoRemove(t), DoStart(t), DoClear(t)]);
            && t in b.queue && t !in b.flags && Stop(b, t) == b
            && FireTimes(b, events, t) == Times(a.now + InitOf(a.init, t), false, 0, a.now + Ticks(events))
  {
    hide Inv, InitOf, FireTimes, LegalRun, LeavesAlone, Ticks, Remove, Start, Clear;
    var es := [DoRemove(t), DoStart(t), DoClear(t)];
    assert es[1..] == [DoStart(t), DoClear(t)] && es[1..][1..] == [DoClear(t)] && [DoClear(t)][1..] == [];
    var a1 := Remove(a, t);
    var a2 := Start(a1, t);
    var b := Clear(a2, t);
    assert Run(a, es) == Run(a1, es[1..]) == Run(a2, [DoClear(t)]) == Run(b, []);
    DropKeeps(a, t);
    SameInit(a, t);
    StartStatus(a1, t);
    DropKeeps(a2, t);
    ClearStatus(a2, t);
    RunningExact(b, events, t);
  }

  lemma SameInit(a: Alarm, t: Timer)
    ensures Remove(a, t).init == a.init && Remove(a, t).periodic == a.periodic && Remove(a, t).now == a.now
  {
  }

  lemma ClearStatus(a: Alarm, t: Timer)
    ensures var b := Clear(a, t);
            && b.init == a.init && b.now == a.now && b.queue == a.queue && b.due == a.due
            && t !in b.flags && StatusOf(b, t) == StatusOf(a, t)
  {
  }

  // ---------------------------------------------------------------- a start in its parts

  /** What other timers do leaves a timer that is not in the list out of it, with its deadline. */
  lemma AwayKeeps(a: Alarm, e: Event, t: Timer)
    requires t !in a.queue && !Touches(e, t)
    ensures t !in Step(a, e).queue
    ensures t in a.due ==> t in Step(a, e).due && Step(a, e).due[t] == a.due[t]
  {
    hide Place, Suspended, Removed, Rounds;
    match e
    case DoStart(x) => NotIn(a, x, t);
    case DoStop(x) => NotIn(a, x, t);
    case DoDrop(x) => NotIn(a, x, t);
    case DoRead(x) =>
    case DoInsert(x) => NotInserted(a, x, t);
    case DoRemove(x) => NotIn(a, x, t);
    case DoClear(x) =>
    case DoControl(x, ticks, again) =>
    case DoTick => RoundsAway(a.(now := a.now + 1), Overdue(a.(now := a.now + 1)), t);
  }

  lemma NotIn(a: Alarm, x: Timer, t: Timer)
    requires t !in a.queue
    ensures t !in Remove(a, x).queue && (t != x ==> t !in Start(a, x).queue)
  {
    hide Place;
    RemovedSubset(a.queue, x);
  }

  lemma NotInserted(a: Alarm, x: Timer, t: Timer)
    requires t !in a.queue && t != x
    ensures t !in Insert(a, x).queue
  {
    hide Place;
  }

  lemma {:induction false} RemovedSubset(list: seq<Timer>, x: Timer)
    ensures forall t :: t in Removed(list, x) ==> t in list
  {
    if list != [] {
      RemovedSubset(list[1..], x);
    }
  }

  lemma {:induction false} RoundsAway(a: Alarm, n: nat, t: Timer)
    requires t !in a.queue
    ensures t !in Rounds(a, n).queue
    ensures t in a.due ==> t in Rounds(a, n).due && Rounds(a, n).due[t] == a.due[t]
    decreases n
  {
    hide Place, Suspended, Removed;
    if n > 0 && a.queue != [] {
      NotIn(a, a.queue[0], t);
      RoundsAway(Fire(a), n - 1, t);
    }
  }

  /** A whole run of others: the timer stays out of the list and keeps what was set. */
  lemma {:induction false} RunAway(a: Alarm, events: seq<Event>, t: Timer)
    requires Inv(a) && LegalRun(a, events) && LeavesAlone(events, t) && t !in a.queue && t in a.due
    ensures var b := Run(a, events);
            && Inv(b) && b.now == a.now + Ticks(events) && t !in b.queue && t in b.due && b.due[t] == a.due[t]
            && InitOf(b.init, t) == InitOf(a.init, t) && (t in b.periodic <==> t in a.periodic)
    ensures FireTimes(a, events, t) == []
    decreases |events|
  {
    hide Inv, Step, Fired, Tick, Proper, Right;
    if events != [] {
      assert !Touches(events[0], t);
      StepKeeps(a, events[0], t);
      StepIsTick(a, events[0]);
      NextTick(a, t);
      AwayKeeps(a, events[0], t);
      RunAway(Step(a, events[0]), events[1..], t);
    }
  }

  lemma {:induction false} RunSplit(a: Alarm, xs: seq<Event>, ys: seq<Event>, t: Timer)
    ensures FireTimes(a, xs + ys, t) == FireTimes(a, xs, t) + FireTimes(Run(a, xs), ys, t)
    ensures LegalRun(a, xs + ys) <==> LegalRun(a, xs) && LegalRun(Run(a, xs), ys)
    ensures Ticks(xs + ys) == Ticks(xs) + Ticks(ys)
    decreases |xs|
  {
    hide Step, FiredBy, Legal;
    if xs == [] {
      assert xs + ys == ys;
    } else {
      assert (xs + ys)[1..] == xs[1..] + ys && (xs + ys)[0] == xs[0];
      RunSplit(Step(a, xs[0]), xs[1..], ys, t);
    }
  }

  /**
   rt_timer_start as it is: the tick is read at time T = a.now, others run and k ticks pass, then the timer is
   inserted.  It fires first at T + init_tick if fewer than init_tick ticks have passed by then, and otherwise at
   the first tick after the insertion; a periodic one goes on from there.
   */
  lemma SplitStartExact(a: Alarm, between: seq<Event>, after: seq<Event>, t: Timer)
    requires Inv(a) && LegalRun(a, [DoRead(t)] + between + [DoInsert(t)] + after)
    requires LeavesAlone(between, t) && LeavesAlone(after, t)
    ensures var k, n := Ticks(between), InitOf(a.init, t);
            var end := a.now + k + Ticks(after);
            FireTimes(a, [DoRead(t)] + between + [DoInsert(t)] + after, t) ==
            Times(if k < n then a.now + n else a.now + k + 1, t in a.periodic, n, end)
  {
    hide Inv, Run, FireTimes, LegalRun, Ticks, Times, InitOf, StatusOf, LeavesAlone, Suspended;
    var xs, ys := [DoRead(t)] + between, [DoInsert(t)] + after;
    assert xs + ys == [DoRead(t)] + between + [DoInsert(t)] + after;
    RunSplit(a, xs, ys, t);
    ReadPart(a, between, t);
    InsertPart(Run(a, xs), after, t);
  }

  lemma ReadPart(a: Alarm, between: seq<Event>, t: Timer)
    requires Inv(a) && LegalRun(a, [DoRead(t)] + between) && LeavesAlone(between, t)
    ensures FireTimes(a, [DoRead(t)] + between, t) == []
    ensures var c := Run(a, [DoRead(t)] + between);
            && Inv(c) && c.now == a.now + Ticks(between) && t in c.due && c.due[t] == a.now + InitOf(a.init, t)
            && InitOf(c.init, t) == InitOf(a.init, t) && (t in c.periodic <==> t in a.periodic)
    ensures Ticks([DoRead(t)] + between) == Ticks(between)
  {
    hide Inv, Run, FireTimes, LegalRun, Ticks, InitOf, LeavesAlone;
    RunSplit(a, [DoRead(t)], between, t);
    OneEvent(a, DoRead(t), t);
    StepKeeps(a, DoRead(t), t);
    RunAway(Read(a, t), between, t);
    RunOver(a, [DoRead(t)], between);
  }

  lemma InsertPart(a: Alarm, after: seq<Event>, t: Timer)
    requires Inv(a) && LegalRun(a, [DoInsert(t)] + after) && LeavesAlone(after, t)
    ensures t in a.due
    ensures FireTimes(a, [DoInsert(t)] + after, t) ==
            Times(Next(a.due[t], a.now), t in a.periodic, InitOf(a.init, t), a.now + Ticks(after))
  {
    hide Inv, Run, FireTimes, LegalRun, Ticks, Times, InitOf, LeavesAlone, StatusOf, Suspended, Place, Comparable;
    RunSplit(a, [DoInsert(t)], after, t);
    OneEvent(a, DoInsert(t), t);
    InsertStatus(a, t);
    RunningExact(Insert(a, t), after, t);
  }

  lemma {:induction false} RunOver(a: Alarm, xs: seq<Event>, ys: seq<Event>)
    ensures Run(a, xs + ys) == Run(Run(a, xs), ys)
    decreases |xs|
  {
    hide Step;
    if xs == [] {
      assert xs + ys == ys;
    } else {
      assert (xs + ys)[1..] == xs[1..] + ys && (xs + ys)[0] == xs[0];
      RunOver(Step(a, xs[0]), xs[1..], ys);
    }
  }

  lemma OneEvent(a: Alarm, e: Event, t: Timer)
    requires !e.DoTick?
    ensures FireTimes(a, [e], t) == [] && Run(a, [e]) == Step(a, e) && (LegalRun(a, [e]) <==> Legal(a, e))
    ensures Ticks([e]) == 0
  {
    hide Step, Legal, Fired;
    assert [e][1..] == [];
  }

  lemma InsertStatus(a: Alarm, t: Timer)
    requires Inv(a) && Proper(a, DoInsert(t))
    ensures Inv(Insert(a, t)) && StatusOf(Insert(a, t), t) == Running(a.due[t])
    ensures Again(Insert(a, t), t) <==> t in a.periodic
  {
    hide Suspended, Inv;
    InsertKeeps(a, t);
  }

  /** The promised time is met if and only if fewer than init_tick ticks pass between the reading and the insertion. */
  lemma OnTime(a: Alarm, between: seq<Event>, after: seq<Event>, t: Timer)
    requires Inv(a) && LegalRun(a, [DoRead(t)] + between + [DoInsert(t)] + after)
    requires LeavesAlone(between, t) && LeavesAlone(after, t)
    requires InitOf(a.init, t) <= Ticks(between) + Ticks(after)
    ensures a.now + InitOf(a.init, t) in FireTimes(a, [DoRead(t)] + between + [DoInsert(t)] + after, t) <==>
            Ticks(between) < InitOf(a.init, t)
  {
    hide Inv, FireTimes, LegalRun, Ticks, InitOf, Series;
    SplitStartExact(a, between, after, t);
    var k, n := Ticks(between), InitOf(a.init, t);
    if t in a.periodic && n >= 1 {
      SeriesFrom(if k < n then a.now + n else a.now + k + 1, n, a.now + k + Ticks(after));
    }
  }

  lemma {:induction false} SeriesFrom(d: int, n: nat, end: int)
    requires n >= 1
    ensures forall x :: x in Series(d, n, end) ==> x >= d
    ensures d <= end ==> d in Series(d, n, end)
    decreases end - d
  {
    if d <= end {
      SeriesFrom(d + n, n, end);
    }
  }

  /** From an undisturbed rt_timer_start on: after exactly InitOf ticks, and after every further period if periodic. */
  lemma StartFiresExactly(a: Alarm, events: seq<Event>, t: Timer)
    requires Inv(a) && Legal(a, DoStart(t)) && LegalRun(Start(a, t), events) && LeavesAlone(events, t)
    requires InitOf(a.init, t) >= 1
    ensures FireTimes(Start(a, t), events, t) ==
            Times(a.now + InitOf(a.init, t), t in a.periodic, InitOf(a.init, t), a.now + Ticks(events))
  {
    hide Inv, Start, InitOf, FireTimes, LegalRun, Times, LeavesAlone, Ticks;
    StartStatus(a, t);
    RunningExact(Start(a, t), events, t);
  }

  lemma StartStatus(a: Alarm, t: Timer)
    requires Inv(a) && Proper(a, DoStart(t))
    ensures Inv(Start(a, t)) && StatusOf(Start(a, t), t) == Running(a.now + InitOf(a.init, t))
    ensures Start(a, t).now == a.now && Start(a, t).init == a.init && Start(a, t).periodic == a.periodic
    ensures Again(Start(a, t), t) <==> t in a.periodic
  {
    hide Suspended, Removed, Inv;
    StartKeeps(a, t);
  }

  /**
   rt_timer_control: a running timer keeps its deadline, and after that goes by the new kind and the new period; the
   next start goes by them at once.
   */
  lemma ControlFires(a: Alarm, t: Timer, ticks: nat, again: bool, events: seq<Event>)
    requires Inv(a) && Legal(a, DoControl(t, ticks, again)) && LeavesAlone(events, t)
    ensures var b := Control(a, t, ticks, again);
            && (StatusOf(a, t).Running? && t in a.flags && LegalRun(b, events) ==>
                  FireTimes(b, events, t) ==
                  Times(Next(StatusOf(a, t).due, a.now), again, ticks, a.now + Ticks(events)))
            && (ticks >= 1 && Legal(b, DoStart(t)) && LegalRun(Start(b, t), events) ==>
                  FireTimes(Start(b, t), events, t) == Times(a.now + ticks, again, ticks, a.now + Ticks(events)))
  {
    hide Inv, FireTimes, LegalRun, Ticks, Series, Start, LeavesAlone, Times, Reaches;
    var b := Control(a, t, ticks, again);
    ControlKeeps(a, t, ticks, again);
    ControlIs(a, t, ticks, again);
    if StatusOf(a, t).Running? && t in a.flags && LegalRun(b, events) {
      RunningExact(b, events, t);
    }
    if ticks >= 1 && Legal(b, DoStart(t)) && LegalRun(Start(b, t), events) {
      StartFiresExactly(b, events, t);
    }
  }

  lemma ControlIs(a: Alarm, t: Timer, ticks: nat, again: bool)
    ensures var b := Control(a, t, ticks, again);
            && InitOf(b.init, t) == ticks && (t in b.periodic <==> again) && StatusOf(b, t) == StatusOf(a, t)
            && b.now == a.now && b.flags == a.flags
  {
  }

  /** A one-shot timer started with 0 ticks fires at the next tick, not at the current one. */
  lemma ZeroFiresNext(a: Alarm, t: Timer)
    requires Inv(a) && t !in a.periodic && InitOf(a.init, t) == 0 && LegalRun(a, [DoStart(t), DoTick])
    ensures FireTimes(Start(a, t), [DoTick], t) == [a.now + 1]
  {
    hide Inv, Start, StatusOf, InitOf, Fired, Tick, Place;
    StartStatus(a, t);
    NextTick(Start(a, t), t);
    assert [DoTick][1..] == [];
  }

  // ---------------------------------------------------------------- when 32 bits are enough

  /** As long as nothing overdue is listed, 32 bits are enough for every step that is not a late insertion. */
  lemma PromptRight(a: Alarm, e: Event)
    requires Inv(a) && Prompt(a) && Proper(a, e) && (e.DoInsert? ==> a.now <= a.due[e.t])
    ensures Right(a, e) && Prompt(Step(a, e))
  {
    hide Place, Removed, Suspended, Inv;
    match e {
      case DoStart(t) => StartPrompt(a, t);
      case DoStop(t) => DropKeeps(a, t);
      case DoDrop(t) => DropKeeps(a, t);
      case DoRead(t) =>
      case DoInsert(t) => InsertPrompt(a, t);
      case DoRemove(t) => DropKeeps(a, t);
      case DoClear(t) =>
      case DoControl(t, ticks, again) =>
      case DoTick => TickPrompt(a);
    }
  }

  lemma StartPrompt(a: Alarm, t: Timer)
    requires Inv(a) && Prompt(a) && Proper(a, DoStart(t))
    ensures Reaches(a, t) && Prompt(Start(a, t))
  {
    hide Place, Removed, Suspended, Ordered;
    StartKeeps(a, t);
  }

  lemma InsertPrompt(a: Alarm, t: Timer)
    requires Inv(a) && Prompt(a) && Proper(a, DoInsert(t)) && a.now <= a.due[t]
    ensures Placed(a, t) && Prompt(Insert(a, t))
  {
    hide Place, Suspended;
    InsertKeeps(a, t);
    forall x | x in a.queue ensures Comparable(Due(a.due)(x), a.due[t]) {
      Near2(a, x, t);
    }
  }

  lemma Near2(a: Alarm, x: Timer, t: Timer)
    requires Inv(a) && Prompt(a) && x in a.queue && t in a.due && a.now <= a.due[t]
    ensures Comparable(Due(a.due)(x), a.due[t])
  {
  }

  lemma TickPrompt(a: Alarm)
    requires Inv(a) && Prompt(a)
    ensures Checkable(a.(now := a.now + 1)) && Prompt(Tick(a))
  {
    hide Place, Rounds;
    var b := a.(now := a.now + 1);
    TickPasses(a);
    CheckPrompt(b);
    forall i | 0 <= i < Overdue(b) ensures b.now - 1 <= Due(b.due)(b.queue[i]) <= b.now {
      assert b.queue[i] in b.queue;
    }
    assert forall t :: InitOf(b.init, t) < HALF;
  }

  predicate ProperRun(a: Alarm, events: seq<Event>)
    decreases |events|
  {
    events == [] || (Proper(a, events[0]) && ProperRun(Step(a, events[0]), events[1..]))
  }

  /** No timer is inserted after its deadline. */
  predicate TimelyRun(a: Alarm, events: seq<Event>)
    decreases |events|
  {
    events != [] ==>
      && (events[0].DoInsert? ==> a.now <= Due(a.due)(events[0].t))
      && TimelyRun(Step(a, events[0]), events[1..])
  }

  /** Without late insertions every run of proper calls is legal, however long it is. */
  lemma {:induction false} TimelyIsLegal(a: Alarm, events: seq<Event>)
    requires Inv(a) && Prompt(a) && ProperRun(a, events) && TimelyRun(a, events)
    ensures LegalRun(a, events)
    decreases |events|
  {
    hide Inv, Prompt, Step, Right, Due;
    if events != [] {
      DueIs(a, events[0]);
      PromptRight(a, events[0]);
      StepKeeps(a, events[0], 0);
      TimelyIsLegal(Step(a, events[0]), events[1..]);
    }
  }

  lemma DueIs(a: Alarm, e: Event)
    ensures e.DoInsert? && Proper(a, e) ==> Due(a.due)(e.t) == a.due[e.t]
  {
  }

  /** No listed timer is overdue by more than late ticks, and no period is longer than WORD - HALF - late. */
  ghost predicate Close(a: Alarm, late: int) {
    && 0 <= late < HALF
    && (forall x :: x in a.queue ==> a.now - late <= Due(a.due)(x))
    && (forall t :: InitOf(a.init, t) + late <= WORD - HALF)
  }

  /** With late insertions, starts and checks are right as long as lateness and period together stay in the range. */
  lemma CloseRight(a: Alarm, late: int, t: Timer)
    requires Inv(a)
    ensures Close(a, late) ==> Reaches(a, t)
    ensures Close(a.(now := a.now + 1), late) ==> Checkable(a.(now := a.now + 1))
  {
    hide Place, Low, Inv;
    var b := a.(now := a.now + 1);
    if Close(b, late) {
      CloseCheck(b, late);
    }
  }

  lemma CloseCheck(b: Alarm, late: int)
    requires Close(b, late)
    ensures Checkable(b)
  {
    hide Place, Low;
    var q, f := b.queue, Due(b.due);
    forall i | 0 <= i < Overdue(b) ensures q[i] in q && 0 <= b.now - f(q[i]) <= late {
    }
  }

  /** A late insertion is right if everything listed lies in the range around its deadline. */
  lemma CloseInsert(a: Alarm, t: Timer)
    requires Inv(a) && t in a.due
    requires forall x :: x in a.queue ==> -(WORD - HALF) <= Due(a.due)(x) - a.due[t] < HALF
    ensures Placed(a, t)
  {
    hide Place;
  }

  // ---------------------------------------------------------------- periods of no ticks

  /** A timer t with a period of 0 ticks is due, and the queue is in order. */
  ghost predicate Stuck(a: Alarm, t: Timer) {
    && Ordered(a.queue, a.due, a.now + HALF) && (forall x :: InitOf(a.init, x) < HALF)
    && t in a.queue && Again(a, t) && InitOf(a.init, t) == 0 && a.due[t] <= a.now
  }

  /**
   That is why a periodic timer needs a period of at least 1: with 0 the check never ends.  After any number of
   rounds the first timer of the queue is still due.
   */
  lemma {:induction false} ZeroPeriodNeverEnds(a: Alarm, t: Timer, n: nat)
    requires Stuck(a, t)
    ensures Overdue(Rounds(a, n)) > 0
    decreases n
  {
    hide Place, Fire, Stuck, Overdue;
    FirstIsDue(a, t);
    if n > 0 {
      FireStuck(a, t);
      ZeroPeriodNeverEnds(Fire(a), t, n - 1);
    }
  }

  lemma FirstIsDue(a: Alarm, t: Timer)
    requires Stuck(a, t)
    ensures a.queue != [] && Overdue(a) > 0
  {
    hide Place;
    var i :| 0 <= i < |a.queue| && a.queue[i] == t;
    assert Due(a.due)(a.queue[0]) <= Due(a.due)(a.queue[i]);
  }

  lemma FireStuck(a: Alarm, t: Timer)
    requires Stuck(a, t) && a.queue != []
    ensures Stuck(Fire(a), t)
  {
    hide Ordered, Removed, Suspended;
    var x, d := a.queue[0], a.now + InitOf(a.init, a.queue[0]);
    OrderedRemoved(a.queue, a.due, a.now + HALF, x);
    OrderedInserted(Removed(a.queue, x), a.due, a.now + HALF, x, d);
  }
}
