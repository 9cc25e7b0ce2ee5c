/**
 The list of hard timers in 32-bit ticks, as src/timer.c keeps it with one row:
 deadlines wrap, and what is earlier is decided by differences.

 For every event this module says exactly when the kernel does what the alarm
 clock of TimerSpec does, and it shows what happens otherwise.
 */
module TimerTicks {

  import opened IpcList
  import opened SkipList
  import opened TimerSpec

  /** The test that ends the search: the tick x is later than y by less than half the range. */
  predicate Later(x: int, y: int) {
    0 < Low(x - y) < HALF
  }

  /** The test of rt_timer_check: the tick x is not later than the current tick y. */
  predicate Reached(x: int, y: int) {
    Low(y - x) < HALF
  }

  lemma LowDifference(x: int, y: int)
    ensures Low(Low(x) - Low(y)) == Low(x - y)
  {
    var p, q := x / WORD, y / WORD;
    assert Low(x) - Low(y) == x - y - WORD * (p - q);
  }

  lemma LowSum(x: int, n: int)
    ensures Low(Low(x) + n) == Low(x + n)
  {
    assert Low(x) + n == x + n - WORD * (x / WORD);
  }

  lemma LowNegative(x: int)
    ensures Low(-x) == if Low(x) == 0 then 0 else WORD - Low(x)
  {
  }

  /** The comparison of two wrapped deadlines is right exactly if they are comparable. */
  lemma LaterExactly(x: int, y: int)
    ensures (Later(Low(x), Low(y)) <==> x > y) <==> Comparable(x, y)
  {
    LowDifference(x, y);
    LowNegative(x - y);
    hide Low;
  }

  /** The test on a deadline that is less than half a range ahead is right exactly if it is not that far behind. */
  lemma ReachedExactly(x: int, now: int)
    requires x < now + HALF
    ensures (Reached(Low(x), Low(now)) <==> x <= now) <==> (x <= now ==> Low(now - x) < HALF)
  {
    LowDifference(now, x);
    LowNegative(x - now);
    hide Low;
  }

  function TickOf(ticks: map<Timer, int>, t: Timer): int {
    if t in ticks then ticks[t] else 0
  }

  /** Where the search along a row ends. */
  function Scan(list: seq<Timer>, ticks: map<Timer, int>, timeout: int): (k: nat)
    ensures k <= |list|
    ensures forall i :: 0 <= i < k ==> !Later(TickOf(ticks, list[i]), timeout)
    ensures k < |list| ==> Later(TickOf(ticks, list[k]), timeout)
  {
    if list == [] || Later(TickOf(ticks, list[0]), timeout) then 0 else 1 + Scan(list[1..], ticks, timeout)
  }

  lemma ScanIs(list: seq<Timer>, ticks: map<Timer, int>, timeout: int, k: nat)
    requires k <= |list| && forall i :: 0 <= i < k ==> !Later(TickOf(ticks, list[i]), timeout)
    requires k < |list| ==> Later(TickOf(ticks, list[k]), timeout)
    ensures Scan(list, ticks, timeout) == k
  {
    hide Later, TickOf;
    var s := Scan(list, ticks, timeout);
    assert s < k ==> false;
    assert k < s ==> false;
  }

  // ---------------------------------------------------------------- the operations

  datatype Clock = Clock(tick: int, list: seq<Timer>, ticks: map<Timer, int>, init: map<Timer, nat>,
                         periodic: set<Timer>, flags: set<Timer>)

  /** What the kernel has of an alarm clock. */
  function Image(a: Alarm): Clock {
    Clock(Low(a.now), a.queue, map t | t in a.due :: Low(a.due[t]), a.init, a.periodic, a.flags)
  }

  function ClockRemove(c: Clock, t: Timer): Clock {
    c.(list := Removed(c.list, t))
  }

  function ClockClear(c: Clock, t: Timer): Clock {
    c.(flags := c.flags - {t})
  }

  function ClockDrop(c: Clock, t: Timer): Clock {
    ClockClear(ClockRemove(c, t), t)
  }

  function ClockStop(c: Clock, t: Timer): Clock {
    if t in c.flags then ClockDrop(c, t) else c
  }

  function ClockRead(c: Clock, t: Timer): Clock {
    c.(ticks := c.ticks[t := Low(c.tick + InitOf(c.init, t))])
  }

  function ClockInsert(c: Clock, t: Timer): Clock {
    var k := Scan(c.list, c.ticks, TickOf(c.ticks, t));
    c.(list := Inserted(c.list, k, t), flags := c.flags + {t})
  }

  function ClockStart(c: Clock, t: Timer): Clock {
    ClockInsert(ClockRead(ClockDrop(c, t), t), t)
  }

  function ClockControl(c: Clock, t: Timer, ticks: nat, again: bool): Clock {
    c.(init := c.init[t := ticks], periodic := if again then c.periodic + {t} else c.periodic - {t})
  }

  /** The first timer of the list tests as due. */
  predicate Ready(c: Clock) {
    c.list != [] && Reached(TickOf(c.ticks, c.list[0]), c.tick)
  }

  function ClockFire(c: Clock): Clock
    requires c.list != []
  {
    var t := c.list[0];
    if t in c.periodic && t in c.flags then ClockStart(c, t) else ClockDrop(c, t)
  }

  /** The loop of rt_timer_check, up to n rounds. */
  function ClockRounds(c: Clock, n: nat): Clock
    decreases n
  {
    if n == 0 || !Ready(c) then c else ClockRounds(ClockFire(c), n - 1)
  }

  /** The timers that fire in it. */
  function ClockFires(c: Clock, n: nat): seq<Timer>
    decreases n
  {
    if n == 0 || !Ready(c) then [] else [c.list[0]] + ClockFires(ClockFire(c), n - 1)
  }

  function NextClock(c: Clock): Clock {
    c.(tick := Low(c.tick + 1))
  }

  /** One round for every timer of the list is enough: ChecksEnd. */
  function ClockStep(c: Clock, e: Event): Clock {
    match e
    case DoStart(t) => ClockStart(c, t)
    case DoStop(t) => ClockStop(c, t)
    case DoDrop(t) => ClockDrop(c, t)
    case DoRead(t) => ClockRead(c, t)
    case DoInsert(t) => ClockInsert(c, t)
    case DoRemove(t) => ClockRemove(c, t)
    case DoClear(t) => ClockClear(c, t)
    case DoControl(t, ticks, again) => ClockControl(c, t, ticks, again)
    case DoTick => ClockRounds(NextClock(c), |c.list|)
  }

  function ClockFiredBy(c: Clock, e: Event): seq<Timer> {
    if e.DoTick? then ClockFires(NextClock(c), |c.list|) else []
  }

  // ---------------------------------------------------------------- the check ends

  /** How many timers of the list test as due. */
  function Hits(list: seq<Timer>, ticks: map<Timer, int>, tick: int): nat {
    if list == [] then 0
    else (if Reached(TickOf(ticks, list[0]), tick) then 1 else 0) + Hits(list[1..], ticks, tick)
  }

  lemma {:induction false} HitsJoin(xs: seq<Timer>, ys: seq<Timer>, ticks: map<Timer, int>, tick: int)
    ensures Hits(xs + ys, ticks, tick) == Hits(xs, ticks, tick) + Hits(ys, ticks, tick)
  {
    hide Reached;
    if xs == [] {
      assert xs + ys == ys;
    } else {
      assert (xs + ys)[1..] == xs[1..] + ys && (xs + ys)[0] == xs[0];
      HitsJoin(xs[1..], ys, ticks, tick);
    }
  }

  lemma {:induction false} HitsSame(list: seq<Timer>, ticks: map<Timer, int>, tick: int, t: Timer, x: int)
    requires t !in list
    ensures Hits(list, ticks[t := x], tick) == Hits(list, ticks, tick)
    ensures Hits(list, ticks, tick) <= |list|
  {
    hide Reached;
    if list != [] {
      HitsSame(list[1..], ticks, tick, t, x);
    }
  }

  /** The list is without repetition, and what restarts waits at least one tick and less than half a range. */
  ghost predicate Sane(c: Clock) {
    Unique(c.list) && forall t :: t in c.list && t in c.periodic ==> 1 <= InitOf(c.init, t) < HALF
  }

  lemma RestartNotReached(tick: int, n: nat)
    requires 1 <= n < HALF
    ensures !Reached(Low(tick + n), tick)
  {
    LowDifference(tick, tick + n);
    LowSum(tick, -Low(tick + n));
    LowNegative(n);
    hide Low;
  }

  lemma InsertHits(list: seq<Timer>, ticks: map<Timer, int>, tick: int, t: Timer, x: int, k: nat)
    requires t !in list && !Reached(x, tick) && k <= |list|
    ensures Hits(Inserted(list, k, t), ticks[t := x], tick) == Hits(list, ticks, tick)
  {
    hide Reached, Hits;
    var ticks' := ticks[t := x];
    HitsSame(list, ticks, tick, t, x);
    assert list == list[..k] + list[k..];
    HitsJoin(list[..k], list[k..], ticks', tick);
    HitsJoin(list[..k] + [t], list[k..], ticks', tick);
    HitsJoin(list[..k], [t], ticks', tick);
    HitsOne(t, ticks', tick);
  }

  /** What a round does to the list. */
  lemma FireIs(c: Clock)
    requires Unique(c.list) && c.list != []
    ensures c.list[0] !in c.list[1..] && Unique(c.list[1..])
    ensures ClockDrop(c, c.list[0]) == c.(list := c.list[1..], flags := c.flags - {c.list[0]})
    ensures var t, x := c.list[0], Low(c.tick + InitOf(c.init, c.list[0]));
            var k := Scan(c.list[1..], c.ticks[t := x], x);
            ClockStart(c, t) ==
            c.(list := Inserted(c.list[1..], k, t), ticks := c.ticks[t := x], flags := c.flags + {t})
  {
    hide Scan, Low, Inserted;
    TailUnique(c.list);
    assert Removed(c.list, c.list[0]) == c.list[1..];
    assert c.flags - {c.list[0]} + {c.list[0]} == c.flags + {c.list[0]};
  }

  /** A round takes one timer that tests as due, and leaves the others. */
  lemma FireHits(c: Clock)
    requires Sane(c) && Ready(c)
    ensures Sane(ClockFire(c)) && ClockFire(c).tick == c.tick
    ensures Hits(ClockFire(c).list, ClockFire(c).ticks, c.tick) == Hits(c.list, c.ticks, c.tick) - 1
  {
    hide Reached, Low, Hits, Scan, ClockStart, ClockDrop, Unique, Inserted;
    var t, rest := c.list[0], c.list[1..];
    FireIs(c);
    assert c.list == [t] + rest;
    HitsJoin([t], rest, c.ticks, c.tick);
    HitsOne(t, c.ticks, c.tick);
    if t in c.periodic && t in c.flags {
      var x := Low(c.tick + InitOf(c.init, t));
      RestartNotReached(c.tick, InitOf(c.init, t));
      var k := Scan(rest, c.ticks[t := x], x);
      InsertHits(rest, c.ticks, c.tick, t, x, k);
      InsertUnique(rest, t, k);
    }
  }

  lemma HitsOne(t: Timer, ticks: map<Timer, int>, tick: int)
    ensures Hits([t], ticks, tick) == if Reached(TickOf(ticks, t), tick) then 1 else 0
  {
    assert [t][1..] == [];
  }

  lemma InsertUnique(list: seq<Timer>, t: Timer, k: nat)
    requires Unique(list) && t !in list && k <= |list|
    ensures Unique(Inserted(list, k, t)) && forall x :: x in Inserted(list, k, t) <==> x in list || x == t
  {
  }

  /** Whatever the order of the list is: after as many rounds as it has timers the check has ended. */
  lemma {:induction false} ChecksEnd(c: Clock, n: nat)
    requires Sane(c) && Hits(c.list, c.ticks, c.tick) <= n
    ensures !Ready(ClockRounds(c, n))
    decreases n
  {
    hide Reached, Sane, ClockFire;
    if Ready(c) {
      FirstHit(c);
      FireHits(c);
      ChecksEnd(ClockFire(c), n - 1);
    }
  }

  lemma FirstHit(c: Clock)
    requires Ready(c)
    ensures Hits(c.list, c.ticks, c.tick) > 0
  {
  }

  // ---------------------------------------------------------------- when the kernel does what the clock does

  lemma TickOfImage(a: Alarm, t: Timer)
    requires t in a.due
    ensures TickOf(Image(a).ticks, t) == Low(Due(a.due)(t))
  {
  }

  /** The search along any row ends at the place of the deadline exactly if the comparisons up to there are right. */
  lemma ScanExactly(row: seq<Timer>, due: map<Timer, int>, ticks: map<Timer, int>, d: int)
    requires forall x :: x in row ==> TickOf(ticks, x) == Low(Due(due)(x))
    ensures var f := Due(due);
            var k := Place(row, f, d);
            Scan(row, ticks, Low(d)) == k <==> forall i :: 0 <= i < |row| && i <= k ==> Comparable(f(row[i]), d)
  {
    hide Place, Scan, Later, Comparable, Low, TickOf;
    var f, k, s := Due(due), Place(row, Due(due), d), Scan(row, ticks, Low(d));
    forall i | 0 <= i < |row|
      ensures (Later(TickOf(ticks, row[i]), Low(d)) <==> f(row[i]) > d) <==> Comparable(f(row[i]), d)
    {
      LaterExactly(f(row[i]), d);
    }
    if forall i :: 0 <= i < |row| && i <= k ==> Comparable(f(row[i]), d) {
      ScanIs(row, ticks, Low(d), k);
    }
  }

  /** The insertion of a timer, late or not. */
  lemma InsertExactly(a: Alarm, t: Timer)
    requires Inv(a) && t in a.due && t !in a.queue
    ensures ClockInsert(Image(a), t) == Image(Insert(a, t)) <==> Placed(a, t)
  {
    hide Place, Scan, Comparable, Low;
    var c, f := Image(a), Due(a.due);
    forall x | x in a.queue ensures TickOf(c.ticks, x) == Low(f(x)) {
      TickOfImage(a, x);
    }
    TickOfImage(a, t);
    ScanExactly(a.queue, a.due, c.ticks, f(t));
    var k, s := Place(a.queue, f, f(t)), Scan(a.queue, c.ticks, Low(f(t)));
    if k != s {
      SamePlace(a.queue, t, k, s);
    }
  }

  lemma SamePlace(list: seq<Timer>, t: Timer, k: nat, s: nat)
    requires t !in list && k <= |list| && s <= |list| && k != s
    ensures Inserted(list, k, t) != Inserted(list, s, t)
  {
    var x, y := Inserted(list, k, t), Inserted(list, s, t);
    assert x[k] == t && (if k < s then y[k] == list[k] else y[k] == list[k - 1]);
  }

  /** The search in every row of every skip list over the queue is right exactly if all deadlines are comparable. */
  lemma RowsExactly(a: Alarm, t: Timer)
    requires Inv(a) && t in a.due
    ensures (forall x :: x in a.queue ==> Comparable(Due(a.due)(x), a.due[t])) <==>
            forall row: seq<Timer> :: (forall x :: x in row ==> x in a.queue) ==>
              Scan(row, Image(a).ticks, Low(a.due[t])) == Place(row, Due(a.due), a.due[t])
  {
    hide Place, Scan, Comparable, Low;
    var c, f, d := Image(a), Due(a.due), a.due[t];
    if forall x :: x in a.queue ==> Comparable(f(x), d) {
      forall row: seq<Timer> | forall x :: x in row ==> x in a.queue
        ensures Scan(row, c.ticks, Low(d)) == Place(row, f, d)
      {
        RowExactly(a, row, d);
      }
    } else {
      var x :| x in a.queue && !Comparable(f(x), d);
      RowExactly(a, [x], d);
      assert [x][0] == x;
    }
  }

  lemma RowExactly(a: Alarm, row: seq<Timer>, d: int)
    requires Inv(a) && forall x :: x in row ==> x in a.queue
    ensures var f := Due(a.due);
            var k := Place(row, f, d);
            Scan(row, Image(a).ticks, Low(d)) == k <==>
            forall i :: 0 <= i < |row| && i <= k ==> Comparable(f(row[i]), d)
  {
    hide Place, Scan, Comparable, Low;
    forall x | x in row ensures TickOf(Image(a).ticks, x) == Low(Due(a.due)(x)) {
      TickOfImage(a, x);
    }
    ScanExactly(row, a.due, Image(a).ticks, d);
  }

  lemma DropImage(a: Alarm, t: Timer)
    ensures ClockDrop(Image(a), t) == Image(Drop(a, t))
  {
  }

  lemma ReadImage(a: Alarm, t: Timer)
    ensures ClockRead(Image(a), t) == Image(Read(a, t))
  {
    hide Low;
    LowSum(a.now, InitOf(a.init, t));
    var x, y := ClockRead(Image(a), t).ticks, Image(Read(a, t)).ticks;
    assert forall z :: z in x <==> z in y;
    assert x == y;
  }

  /** A start that nothing disturbs: exactly if every overdue timer in the list is in reach of the new deadline. */
  lemma StartExactly(a: Alarm, t: Timer)
    requires Inv(a)
    ensures ClockStart(Image(a), t) == Image(Start(a, t)) <==> Reaches(a, t)
  {
    hide Inv, Placed, Reaches, Image, ClockDrop, ClockRead, ClockInsert, Read, Insert, Drop;
    DropKeeps(a, t);
    DropImage(a, t);
    ReadImage(Drop(a, t), t);
    StartQueue(a, t);
    ReadKeeps(Drop(a, t), t);
    InsertExactly(Read(Drop(a, t), t), t);
    StartPlaced(a, t);
  }

  lemma StartQueue(a: Alarm, t: Timer)
    requires Inv(a)
    ensures var b := Read(Drop(a, t), t);
            && t !in Drop(a, t).queue && t !in b.queue && t in b.due && b.due[t] == a.now + InitOf(a.init, t)
            && (forall x :: x in b.queue <==> x in a.queue && x != t)
            && (forall x :: x in b.queue ==> Due(b.due)(x) == Due(a.due)(x))
            && b.now == a.now
  {
    hide Inv, Removed;
    DropKeeps(a, t);
  }

  /** What lies ahead is always in reach, so that only the overdue timers matter. */
  lemma AheadIsRight(q: seq<Timer>, f: Timer -> int, now: int, d: int)
    requires Sorted(q, f) && (forall x :: x in q ==> f(x) < now + HALF) && now <= d < now + HALF
    ensures (forall i :: 0 <= i < |q| && i <= Place(q, f, d) ==> Comparable(f(q[i]), d)) <==>
            forall x :: x in q && f(x) <= now ==> Low(d - f(x)) <= WORD - HALF
  {
    hide Place, Low;
    var k := Place(q, f, d);
    forall i | 0 <= i < |q|
      ensures f(q[i]) <= now ==> i <= k && (Comparable(f(q[i]), d) <==> Low(d - f(q[i])) <= WORD - HALF)
      ensures f(q[i]) > now ==> Comparable(f(q[i]), d)
    {
      assert q[i] in q;
      assert k < i ==> f(q[k]) <= f(q[i]);
    }
  }

  lemma StartPlaced(a: Alarm, t: Timer)
    requires Inv(a)
    ensures Placed(Read(Drop(a, t), t), t) <==> Reaches(a, t)
  {
    hide Place, Low, Read, Drop, Inv, Comparable, Sorted, Due, InitOf, Reaches;
    var b, d := Read(Drop(a, t), t), a.now + InitOf(a.init, t);
    StartQueue(a, t);
    DropKeeps(a, t);
    ReadKeeps(Drop(a, t), t);
    SmallPeriod(a, t);
    InOrder(b);
    DueOf(b, t);
    AheadIsRight(b.queue, Due(b.due), a.now, d);
    ReachesIs(a, b, t);
  }

  lemma ReachesIs(a: Alarm, b: Alarm, t: Timer)
    requires forall x :: x in b.queue <==> x in a.queue && x != t
    requires forall x :: x in b.queue ==> Due(b.due)(x) == Due(a.due)(x)
    ensures Reaches(a, t) <==>
            forall x :: x in b.queue && Due(b.due)(x) <= a.now ==>
              Low(a.now + InitOf(a.init, t) - Due(b.due)(x)) <= WORD - HALF
  {
    hide Low, Due, InitOf;
  }

  lemma DueOf(a: Alarm, t: Timer)
    requires t in a.due
    ensures Due(a.due)(t) == a.due[t]
  {
  }

  lemma InOrder(a: Alarm)
    requires Inv(a)
    ensures Sorted(a.queue, Due(a.due)) && forall x :: x in a.queue ==> Due(a.due)(x) < a.now + HALF
  {
  }

  lemma SmallPeriod(a: Alarm, t: Timer)
    requires Inv(a)
    ensures InitOf(a.init, t) < HALF
  {
  }

  // ---------------------------------------------------------------- checks

  /** One round, if the first timer is due. */
  lemma FireExactly(a: Alarm)
    requires Inv(a) && a.queue != []
    ensures var t := a.queue[0];
            ClockFire(Image(a)) == Image(Fire(a)) <==> (Again(a, t) ==> Reaches(a, t))
  {
    hide Inv, Reaches, ClockStart, Start, Drop, ClockDrop;
    StartExactly(a, a.queue[0]);
    DropImage(a, a.queue[0]);
  }

  lemma ReadyExactly(a: Alarm)
    requires Inv(a)
    ensures Overdue(a) == 0 ==> !Ready(Image(a))
    ensures Overdue(a) > 0 ==> (Ready(Image(a)) <==> Low(a.now - Due(a.due)(a.queue[0])) < HALF)
  {
    hide Place, Low, Reached;
    if a.queue != [] {
      assert a.queue[0] in a.queue;
      TickOfImage(a, a.queue[0]);
      ReachedExactly(a.due[a.queue[0]], a.now);
    }
  }

  /** What a check demands of its first round and of the rest. */
  lemma CheckableStep(a: Alarm)
    requires Inv(a) && Overdue(a) > 0
    ensures Checkable(a) <==>
            && Low(a.now - Due(a.due)(a.queue[0])) < HALF && (Again(a, a.queue[0]) ==> Reaches(a, a.queue[0]))
            && Checkable(Fire(a))
  {
    hide Overdue, Low, Inv, Fire, Reaches, Again, Checkable, Shifted;
    FireShifts(a);
    ReachesRest(a);
    CheckableParts(a, Fire(a), Overdue(a));
  }

  lemma FireShifts(a: Alarm)
    requires Inv(a) && Overdue(a) > 0
    ensures Shifted(a, Fire(a), Overdue(a))
  {
    hide Place, Inv, Fire, Again;
    var q, n, b := a.queue, Overdue(a), Fire(a);
    FireQueue(a);
    Once(a);
    forall i | 0 <= i < n - 1
      ensures b.queue[i] == q[i + 1] && Due(b.due)(b.queue[i]) == Due(a.due)(q[i + 1])
      ensures Again(b, b.queue[i]) <==> Again(a, q[i + 1])
    {
      assert b.queue[i] == Fired(b)[i] == Fired(a)[1..][i] == q[i + 1];
      OtherKept(a, q[i + 1]);
    }
  }

  lemma OtherKept(a: Alarm, x: Timer)
    requires Inv(a) && a.queue != [] && x != a.queue[0]
    ensures Due(Fire(a).due)(x) == Due(a.due)(x) && (Again(Fire(a), x) <==> Again(a, x))
  {
    hide Inv, Suspended, Removed;
  }

  lemma ReachesRest(a: Alarm)
    requires Inv(a) && Overdue(a) > 0
    ensures Reaches(a, a.queue[0]) <==>
            forall j :: 0 < j < Overdue(a) ==>
              Low(a.now + InitOf(a.init, a.queue[0]) - Due(a.due)(a.queue[j])) <= WORD - HALF
  {
    hide Inv, Overdue, Low, Reaches;
    var q, n, f, d := a.queue, Overdue(a), Due(a.due), a.now + InitOf(a.init, a.queue[0]);
    if Reaches(a, q[0]) {
      forall j | 0 < j < n ensures Low(d - f(q[j])) <= WORD - HALF {
        NthDue(a, j);
        ReachesOne(a, q[0], q[j]);
      }
    }
    if forall j :: 0 < j < n ==> Low(d - f(q[j])) <= WORD - HALF {
      forall x | x in q && x != q[0] && f(x) <= a.now ensures Low(d - f(x)) <= WORD - HALF {
        QueuedHaveDue(a, x);
        FiredAreDue(a, x);
        var j :| 0 <= j < n && Fired(a)[j] == x;
        assert q[j] == x;
      }
      AllReached(a, q[0]);
    }
  }

  lemma NthDue(a: Alarm, j: nat)
    requires Inv(a) && 0 < j < Overdue(a)
    ensures a.queue[j] in a.queue && a.queue[j] != a.queue[0] && Due(a.due)(a.queue[j]) <= a.now
  {
    hide Place;
  }

  lemma ReachesOne(a: Alarm, t: Timer, x: Timer)
    requires Reaches(a, t) && x in a.queue && x != t && Due(a.due)(x) <= a.now
    ensures Low(a.now + InitOf(a.init, t) - Due(a.due)(x)) <= WORD - HALF
  {
    hide Low;
  }

  lemma AllReached(a: Alarm, t: Timer)
    requires forall x :: x in a.queue && x != t && Due(a.due)(x) <= a.now ==>
               Low(a.now + InitOf(a.init, t) - Due(a.due)(x)) <= WORD - HALF
    ensures Reaches(a, t)
  {
    hide Low;
  }

  /** b is due what a is due, but for the first timer. */
  ghost predicate Shifted(a: Alarm, b: Alarm, n: nat) {
    && n == Overdue(a) > 0 && Overdue(b) == n - 1 && b.now == a.now && b.init == a.init
    && forall i :: 0 <= i < n - 1 ==>
         && b.queue[i] == a.queue[i + 1] && Due(b.due)(b.queue[i]) == Due(a.due)(a.queue[i + 1])
         && (Again(b, b.queue[i]) <==> Again(a, a.queue[i + 1]))
  }

  /** The demands on the first round. */
  ghost predicate FirstRight(a: Alarm) {
    var q, f := a.queue, Due(a.due);
    Overdue(a) > 0 ==>
      && Low(a.now - f(q[0])) < HALF
      && (Again(a, q[0]) ==> forall j :: 0 < j < Overdue(a) ==>
            Low(a.now + InitOf(a.init, q[0]) - f(q[j])) <= WORD - HALF)
  }

  lemma CheckableParts(a: Alarm, b: Alarm, n: nat)
    requires Shifted(a, b, n)
    ensures Checkable(a) <==> FirstRight(a) && Checkable(b)
  {
    hide Place, Low, Again, Due, InitOf;
    if Checkable(a) {
      CheckableTail(a, b, n);
    } else if Checkable(b) {
      CheckableHead(a, b, n);
    }
  }

  lemma CheckableTail(a: Alarm, b: Alarm, n: nat)
    requires Shifted(a, b, n)
    requires Checkable(a)
    ensures Checkable(b)
  {
    hide Place, Low, Again, Due, InitOf;
    forall i, j | 0 <= i < j < n - 1 && Again(b, b.queue[i])
      ensures Low(b.now + InitOf(b.init, b.queue[i]) - Due(b.due)(b.queue[j])) <= WORD - HALF
    {
      assert Again(a, a.queue[i + 1]) && 0 <= i + 1 < j + 1 < n;
    }
  }

  lemma CheckableHead(a: Alarm, b: Alarm, n: nat)
    requires Shifted(a, b, n)
    requires Checkable(b)
    ensures FirstRight(a) ==> Checkable(a)
  {
    hide Place, Low, Again, Due, InitOf;
    var q, f := a.queue, Due(a.due);
    if FirstRight(a) {
      forall i | 0 <= i < n ensures Low(a.now - f(q[i])) < HALF {
        assert i > 0 ==> b.queue[i - 1] == q[i];
      }
      forall i, j | 0 <= i < j < n && Again(a, q[i])
        ensures Low(a.now + InitOf(a.init, q[i]) - f(q[j])) <= WORD - HALF
      {
        assert i > 0 ==> b.queue[i - 1] == q[i] && b.queue[j - 1] == q[j] && Again(b, b.queue[i - 1]);
      }
    }
  }

  ghost predicate Behind(list: seq<Timer>, h: Timer, x: Timer) {
    exists i, m :: 0 <= i < m < |list| && list[i] == h && list[m] == x
  }

  lemma BehindTail(list: seq<Timer>, h: Timer, x: Timer)
    requires Unique(list) && Behind(list, h, x) && list[0] != h
    ensures Behind(list[1..], h, x) && x != list[0]
  {
    var i, m :| 0 <= i < m < |list| && list[i] == h && list[m] == x;
    assert list[1..][i - 1] == h && list[1..][m - 1] == x;
  }

  lemma BehindInserted(list: seq<Timer>, t: Timer, k: nat, h: Timer, x: Timer)
    requires k <= |list| && Behind(list, h, x)
    ensures Behind(Inserted(list, k, t), h, x)
  {
    var r := Inserted(list, k, t);
    var i, m :| 0 <= i < m < |list| && list[i] == h && list[m] == x;
    var i', m' := if i < k then i else i + 1, if m < k then m else m + 1;
    assert r[i'] == h && r[m'] == x;
  }

  lemma StaysBehind(c: Clock, h: Timer, x: Timer)
    requires Unique(c.list) && c.list != [] && Behind(c.list, h, x) && c.list[0] != h
    ensures var d := ClockFire(c);
            Behind(d.list, h, x) && x != c.list[0] && TickOf(d.ticks, h) == TickOf(c.ticks, h)
  {
    hide Scan, ClockStart, ClockDrop, Low, Behind, Unique, Inserted;
    FireIs(c);
    BehindTail(c.list, h, x);
    var t, rest := c.list[0], c.list[1..];
    if t in c.periodic && t in c.flags {
      var y := Low(c.tick + InitOf(c.init, t));
      BehindInserted(rest, t, Scan(rest, c.ticks[t := y], y), h, x);
    }
  }

  /** A timer behind one that does not test as due does not fire, however the rest of the list looks. */
  lemma {:induction false} BlockedIsSilent(c: Clock, n: nat, h: Timer, x: Timer)
    requires Sane(c) && Behind(c.list, h, x) && !Reached(TickOf(c.ticks, h), c.tick)
    ensures x !in ClockFires(c, n)
    decreases n
  {
    hide Reached, ClockFire, Behind;
    if n > 0 && Ready(c) {
      FireHits(c);
      StaysBehind(c, h, x);
      BlockedIsSilent(ClockFire(c), n - 1, h, x);
    }
  }

  lemma ImageSane(a: Alarm)
    requires Inv(a)
    ensures Sane(Image(a))
  {
  }

  /** A restart that is out of reach of an overdue timer goes in front of one. */
  lemma InFront(a: Alarm) returns (x: Timer)
    requires Inv(a) && a.queue != [] && Again(a, a.queue[0]) && !Reaches(a, a.queue[0])
    ensures x in a.queue && x != a.queue[0] && Due(a.due)(x) <= a.now
    ensures Behind(ClockFire(Image(a)).list, a.queue[0], x)
    ensures TickOf(ClockFire(Image(a)).ticks, a.queue[0]) == Low(Low(a.now) + InitOf(a.init, a.queue[0]))
  {
    hide Low, Scan, ClockStart, ClockDrop, Inv, Later, Behind, Inserted;
    var c, h, d := Image(a), a.queue[0], a.now + InitOf(a.init, a.queue[0]);
    x :| x in a.queue && x != h && Due(a.due)(x) <= a.now && Low(d - Due(a.due)(x)) > WORD - HALF;
    ImageSane(a);
    FireIs(c);
    QueuedHaveDue(a, x);
    TickOfImage(a, x);
    LaterExactly(Due(a.due)(x), d);
    LowSum(a.now, InitOf(a.init, h));
    BeforeLater(a.queue[1..], c.ticks[h := Low(d)], Low(d), h, x);
  }

  lemma BeforeLater(list: seq<Timer>, ticks: map<Timer, int>, timeout: int, h: Timer, x: Timer)
    requires x in list && Later(TickOf(ticks, x), timeout)
    ensures Behind(Inserted(list, Scan(list, ticks, timeout), h), h, x)
  {
    hide Scan, Later, TickOf;
    var m :| 0 <= m < |list| && list[m] == x;
    var k := Scan(list, ticks, timeout);
    var r := Inserted(list, k, h);
    assert r[k] == h && r[m + 1] == x;
  }

  /** A check: the kernel fires the same timers and leaves the same list exactly if it is checkable. */
  lemma {:induction false} CheckExactly(a: Alarm, n: nat)
    requires Inv(a) && Overdue(a) <= n
    ensures ClockRounds(Image(a), n) == Image(Check(a)) && ClockFires(Image(a), n) == Fired(a) <==> Checkable(a)
    decreases n
  {
    hide Inv, Place, Fire, ClockFire, Ready, Reaches, Low, Image, Sane, Behind, Reached;
    ReadyExactly(a);
    if Overdue(a) > 0 {
      CheckableStep(a);
      if Ready(Image(a)) {
        FireKeeps(a);
        FireQueue(a);
        FireExactly(a);
        FirstFires(a, n);
        if Again(a, a.queue[0]) && !Reaches(a, a.queue[0]) {
          var x := InFront(a);
          Misfires(a, n, x);
        } else {
          CheckExactly(Fire(a), n - 1);
        }
      } else {
        hide Checkable;
        assert |Fired(a)| > 0;
      }
    }
  }

  lemma FirstFires(a: Alarm, n: nat)
    requires Inv(a) && 0 < Overdue(a) <= n && Ready(Image(a))
    ensures Check(a) == Check(Fire(a)) && Fired(a) == [a.queue[0]] + Fired(Fire(a))
    ensures ClockRounds(Image(a), n) == ClockRounds(ClockFire(Image(a)), n - 1)
    ensures ClockFires(Image(a), n) == [a.queue[0]] + ClockFires(ClockFire(Image(a)), n - 1)
  {
    hide Inv, Place, Fire, ClockFire, Ready;
    FireQueue(a);
  }

  lemma Misfires(a: Alarm, n: nat, x: Timer)
    requires Inv(a) && 0 < Overdue(a) <= n && Ready(Image(a)) && a.queue[0] in a.periodic
    requires x in a.queue && x != a.queue[0] && Due(a.due)(x) <= a.now
    requires Behind(ClockFire(Image(a)).list, a.queue[0], x)
    requires TickOf(ClockFire(Image(a)).ticks, a.queue[0]) == Low(Low(a.now) + InitOf(a.init, a.queue[0]))
    ensures ClockFires(Image(a), n) != Fired(a)
  {
    hide Inv, Place, Fire, ClockFire, Low, Behind, Reached, Fired;
    ImageSane(a);
    FireHits(Image(a));
    Pop(a);
    SmallPeriod(a, a.queue[0]);
    RestartNotReached(Low(a.now), InitOf(a.init, a.queue[0]));
    BlockedIsSilent(ClockFire(Image(a)), n - 1, a.queue[0], x);
    QueuedHaveDue(a, x);
    FiredAreDue(a, x);
  }

  // ---------------------------------------------------------------- steps and runs

  /** Every event: the kernel does what the alarm clock does exactly if the step is right. */
  lemma StepExactly(a: Alarm, e: Event)
    requires Inv(a) && Proper(a, e)
    ensures ClockStep(Image(a), e) == Image(Step(a, e)) && ClockFiredBy(Image(a), e) == FiredBy(a, e) <==> Right(a, e)
  {
    hide Inv, Place, Low, ClockStart, Start, Insert, ClockInsert, ClockDrop, Drop, ClockRead, Read, Placed, Reaches;
    hide Check, Checkable, ClockRounds, ClockFires, Fired;
    match e {
      case DoStart(t) => StartExactly(a, t);
      case DoStop(t) => StopImage(a, t);
      case DoDrop(t) => DropImage(a, t);
      case DoRead(t) => ReadImage(a, t);
      case DoInsert(t) => InsertExactly(a, t);
      case DoRemove(t) =>
      case DoClear(t) =>
      case DoControl(t, ticks, again) =>
      case DoTick =>
        TickPasses(a);
        LowSum(a.now, 1);
        assert NextClock(Image(a)) == Image(a.(now := a.now + 1));
        CheckExactly(a.(now := a.now + 1), |a.queue|);
    }
  }

  lemma StopImage(a: Alarm, t: Timer)
    ensures ClockStop(Image(a), t) == Image(Stop(a, t))
  {
    hide Low;
  }

  /** The kernel and the alarm clock agree in every state of the run and fire the same timers. */
  ghost predicate LockStep(c: Clock, a: Alarm, events: seq<Event>)
    decreases |events|
  {
    && c == Image(a)
    && (events != [] ==>
          && ClockFiredBy(c, events[0]) == FiredBy(a, events[0])
          && LockStep(ClockStep(c, events[0]), Step(a, events[0]), events[1..]))
  }

  /** So the legal runs are exactly those in which 32 bits are enough. */
  lemma {:induction false} RunExactly(a: Alarm, events: seq<Event>)
    requires Inv(a) && ProperRun(a, events)
    ensures LockStep(Image(a), a, events) <==> LegalRun(a, events)
    decreases |events|
  {
    hide Inv, Step, ClockStep, FiredBy, ClockFiredBy, Image, Proper, Right;
    if events != [] {
      StepExactly(a, events[0]);
      StepKeeps(a, events[0], 0);
      RunExactly(Step(a, events[0]), events[1..]);
    }
  }

  function ClockRun(c: Clock, events: seq<Event>): Clock
    decreases |events|
  {
    if events == [] then c else ClockRun(ClockStep(c, events[0]), events[1..])
  }

  /** The times at which the kernel fires timer t during a run that begins at time now. */
  function ClockTimes(c: Clock, events: seq<Event>, t: Timer, now: int): seq<int>
    decreases |events|
  {
    if events == [] then []
    else
      (if t in ClockFiredBy(c, events[0]) then [now + 1] else [])
      + ClockTimes(ClockStep(c, events[0]), events[1..], t, if events[0].DoTick? then now + 1 else now)
  }

  /** Over every legal run the kernel fires every timer when the alarm clock does. */
  lemma {:induction false} KernelTimes(a: Alarm, events: seq<Event>, t: Timer)
    requires Inv(a) && LegalRun(a, events)
    ensures ClockTimes(Image(a), events, t, a.now) == FireTimes(a, events, t)
    ensures ClockRun(Image(a), events) == Image(Run(a, events))
    decreases |events|
  {
    hide Inv, Step, ClockStep, FiredBy, ClockFiredBy, Image, Proper, Right;
    if events != [] {
      StepExactly(a, events[0]);
      StepKeeps(a, events[0], t);
      KernelTimes(Step(a, events[0]), events[1..], t);
    }
  }

  /** The kernel's start, in its parts, and with whatever happens between and after them. */
  lemma KernelStart(a: Alarm, between: seq<Event>, after: seq<Event>, t: Timer)
    requires Inv(a) && LegalRun(a, [DoRead(t)] + between + [DoInsert(t)] + after)
    requires LeavesAlone(between, t) && LeavesAlone(after, t)
    ensures var k, n := Ticks(between), InitOf(a.init, t);
            ClockTimes(Image(a), [DoRead(t)] + between + [DoInsert(t)] + after, t, a.now) ==
            Times(if k < n then a.now + n else a.now + k + 1, t in a.periodic, n, a.now + k + Ticks(after))
  {
    hide Inv, FireTimes, LegalRun, Ticks, Times, InitOf, LeavesAlone, ClockTimes, Image;
    SplitStartExact(a, between, after, t);
    KernelTimes(a, [DoRead(t)] + between + [DoInsert(t)] + after, t);
  }

  // ---------------------------------------------------------------- what happens otherwise

  /** When a new timer goes in front of the first one of the list, whichever of the two is overdue. */
  lemma FirstPlace(a: Alarm, t: Timer)
    requires Inv(a) && a.queue != [] && t in a.due
    ensures var x, y := Due(a.due)(a.queue[0]), a.due[t];
            Scan(a.queue, Image(a).ticks, Low(y)) == 0 <==>
            if x <= y then Low(y - x) > WORD - HALF else 0 < Low(x - y) < HALF
  {
    hide Low, Scan, Later;
    assert a.queue[0] in a.queue;
    TickOfImage(a, a.queue[0]);
    LaterExactly(a.due[a.queue[0]], a.due[t]);
  }

  /** n ticks. */
  function Wait(n: nat): seq<Event> {
    if n == 0 then [] else [DoTick] + Wait(n - 1)
  }

  lemma {:induction false} Idle(a: Alarm, n: nat)
    requires a.queue == []
    ensures LegalRun(a, Wait(n)) && Run(a, Wait(n)) == a.(now := a.now + n)
    decreases n
  {
    if n > 0 {
      var b := a.(now := a.now + 1);
      assert Overdue(b) == 0 && Tick(a) == b;
      assert Wait(n)[0] == DoTick && Wait(n)[1..] == Wait(n - 1);
      Idle(b, n - 1);
    }
  }

  lemma {:induction false} WaitIsProper(a: Alarm, n: nat)
    ensures ProperRun(a, Wait(n))
    decreases n
  {
    hide Step;
    if n > 0 {
      assert Wait(n)[0] == DoTick && Wait(n)[1..] == Wait(n - 1);
      WaitIsProper(Step(a, DoTick), n - 1);
    }
  }

  /** Timer 1 has a period of 1 tick; its tick was read at time 0, and k ticks have passed since. */
  function LateAlarm(k: nat): Alarm {
    Alarm(k, [], map[1 := 1], map[1 := 1, 2 := HALF - 1], {}, {})
  }

  lemma LateReached(k: nat)
    ensures var a := Alarm(0, [], map[], map[1 := 1, 2 := HALF - 1], {}, {});
            Inv(a) && LegalRun(a, [DoRead(1)] + Wait(k)) && Run(a, [DoRead(1)] + Wait(k)) == LateAlarm(k)
  {
    var a := Alarm(0, [], map[], map[1 := 1, 2 := HALF - 1], {}, {});
    var es := [DoRead(1)] + Wait(k);
    assert es[0] == DoRead(1) && es[1..] == Wait(k);
    assert Read(a, 1) == LateAlarm(0);
    Idle(LateAlarm(0), k);
  }

  /** The kernel at time n, after timer 1 was inserted and timer 2 was started in front of it at time k. */
  function Overtaken(k: nat, n: nat): Clock {
    Clock(Low(n), if n < k + HALF - 1 then [2, 1] else [1], map[1 := 1, 2 := k + HALF - 1],
          map[1 := 1, 2 := HALF - 1], {}, if n < k + HALF - 1 then {1, 2} else {1})
  }

  lemma OvertakenCalls(k: nat)
    requires 5 <= k < HALF
    ensures var a := LateAlarm(k);
            Legal(a, DoInsert(1)) && Proper(Insert(a, 1), DoStart(2)) && !Right(Insert(a, 1), DoStart(2))
  {
    var b := Insert(LateAlarm(k), 1);
    assert b.queue == [1];
    assert Due(b.due)(1) == 1 && 1 in b.queue;
  }

  lemma LateImage(k: nat)
    requires k < WORD
    ensures Image(LateAlarm(k)) == Clock(k, [], map[1 := 1], map[1 := 1, 2 := HALF - 1], {}, {})
  {
    hide Low;
    assert Image(LateAlarm(k)).ticks == map[1 := 1];
  }

  lemma EmptyInsert(c: Clock, t: Timer)
    requires c.list == []
    ensures ClockInsert(c, t) == c.(list := [t], flags := c.flags + {t})
  {
    assert Inserted([], 0, t) == [t];
  }

  /** A new timer goes in front of the only one. */
  lemma InsertBefore(c: Clock, t: Timer, x: Timer)
    requires c.list == [x] && x != t && Later(TickOf(c.ticks, x), Low(c.tick + InitOf(c.init, t)))
    ensures ClockStart(c, t) ==
            c.(list := [t, x], ticks := c.ticks[t := Low(c.tick + InitOf(c.init, t))], flags := c.flags + {t})
  {
    hide Low, Later;
    var y := Low(c.tick + InitOf(c.init, t));
    RemovedAbsent(c.list, t);
    ScanIs([x], c.ticks[t := y], y, 0);
    assert Inserted([x], 0, t) == [t, x];
    assert c.flags - {t} + {t} == c.flags + {t};
  }

  lemma OvertakenNow(k: nat)
    requires 5 <= k < HALF
    ensures ClockStart(ClockInsert(Image(LateAlarm(k)), 1), 2) == Overtaken(k, k)
  {
    hide ClockStart, ClockInsert, Image, LateAlarm;
    LateImage(k);
    EmptyInsert(Image(LateAlarm(k)), 1);
    var c := ClockInsert(Image(LateAlarm(k)), 1);
    LowNegative(k + HALF - 2);
    hide Low;
    assert InitOf(c.init, 2) == HALF - 1 && TickOf(c.ticks, 1) == 1;
    InsertBefore(c, 2, 1);
    assert {1} + {2} == {1, 2};
  }

  lemma OvertakenStep(k: nat, n: nat)
    requires 5 <= k < HALF && k <= n < WORD
    ensures ClockStep(Overtaken(k, n), DoTick) == Overtaken(k, n + 1)
    ensures 1 !in ClockFiredBy(Overtaken(k, n), DoTick)
  {
    var c := NextClock(Overtaken(k, n));
    LowSum(n, 1);
    LowDifference(n + 1, 1);
    LowDifference(n + 1, k + HALF - 1);
    LowNegative(k + HALF - 1 - (n + 1));
    assert c.tick == Low(n + 1);
    hide Low;
    if n < k + HALF - 1 {
      assert Reached(k + HALF - 1, c.tick) <==> n + 1 == k + HALF - 1;
      if n + 1 == k + HALF - 1 {
        assert ClockFire(c) == Overtaken(k, n + 1);
        assert !Ready(Overtaken(k, n + 1));
        assert ClockRounds(c, 2) == ClockRounds(ClockFire(c), 1);
      }
    }
  }

  /**
   A timer that was due at tick 1 is inserted late, and a long one is started before the next tick: it goes in
   front, and the first one does not fire until the tick has gone round.
   */
  lemma {:induction false} OvertakenTimer(k: nat, n: nat, m: nat)
    requires 5 <= k < HALF && k <= n && n + m <= WORD
    ensures ClockTimes(Overtaken(k, n), Wait(m), 1, n) == []
    decreases m
  {
    hide ClockStep, ClockFiredBy, Overtaken;
    if m > 0 {
      assert Wait(m)[0] == DoTick && Wait(m)[1..] == Wait(m - 1);
      OvertakenStep(k, n);
      OvertakenTimer(k, n + 1, m - 1);
    }
  }

  /** As a run: proper calls, one of them not right, and a timer that is lost. */
  lemma LostTimer(k: nat, m: nat)
    requires 5 <= k < HALF && k + m <= WORD
    ensures var a, es := LateAlarm(k), [DoInsert(1), DoStart(2)] + Wait(m);
            && ProperRun(a, es) && Legal(a, DoInsert(1)) && !Right(Insert(a, 1), DoStart(2))
            && ClockTimes(Image(a), es, 1, k) == []
  {
    hide Overtaken, Image, Right, LateAlarm, ClockStart, ClockInsert, Start, Insert;
    var a, es := LateAlarm(k), [DoInsert(1), DoStart(2)] + Wait(m);
    OvertakenCalls(k);
    OvertakenNow(k);
    OvertakenTimer(k, k, m);
    assert es[0] == DoInsert(1) && es[1..][0] == DoStart(2) && es[1..][1..] == Wait(m);
    WaitIsProper(Start(Insert(a, 1), 2), m);
  }

  /** Timer 1 was read at time 0 with 0 ticks; almost half a range later timer 2 is due at the next tick. */
  function CrowdedAlarm(): Alarm {
    Alarm(HALF - 1, [2], map[1 := 0, 2 := HALF], map[1 := 0, 2 := 1, 3 := 2], {}, {2})
  }

  lemma CrowdedReached()
    ensures var a, es := Alarm(0, [], map[], map[1 := 0, 2 := 1, 3 := 2], {}, {}), [DoRead(1)] + Wait(HALF - 1);
            && Inv(a) && LegalRun(a, es) && Legal(Run(a, es), DoStart(2)) && Start(Run(a, es), 2) == CrowdedAlarm()
  {
    hide Wait, Inv, Low, Legal;
    var init := map[1 := 0, 2 := 1, 3 := 2];
    var a, es := Alarm(0, [], map[], init, {}, {}), [DoRead(1)] + Wait(HALF - 1);
    assert es[0] == DoRead(1) && es[1..] == Wait(HALF - 1);
    assert Read(a, 1) == Alarm(0, [], map[1 := 0], init, {}, {});
    Idle(Read(a, 1), HALF - 1);
    assert Run(a, es) == Alarm(HALF - 1, [], map[1 := 0], init, {}, {});
    CrowdedInit(init);
    CrowdedStart(init);
  }

  lemma CrowdedInit(init: map<Timer, nat>)
    requires init == map[1 := 0, 2 := 1, 3 := 2]
    ensures Inv(Alarm(0, [], map[], init, {}, {})) && Legal(Alarm(0, [], map[], init, {}, {}), DoRead(1))
    ensures Legal(Alarm(HALF - 1, [], map[1 := 0], init, {}, {}), DoStart(2))
  {
    hide Low;
  }

  lemma CrowdedStart(init: map<Timer, nat>)
    requires init == map[1 := 0, 2 := 1, 3 := 2]
    ensures Start(Alarm(HALF - 1, [], map[1 := 0], init, {}, {}), 2) == CrowdedAlarm()
  {
    hide Start;
    var b := Alarm(HALF - 1, [], map[1 := 0], init, {}, {});
    EmptyStart(b, 2);
    assert InitOf(init, 2) == 1;
    assert b.due[2 := HALF] == map[1 := 0, 2 := HALF] && {} + {2} == {2};
  }

  lemma EmptyStart(a: Alarm, t: Timer)
    requires a.queue == []
    ensures Start(a, t) ==
            a.(queue := [t], due := a.due[t := a.now + InitOf(a.init, t)], flags := a.flags + {t})
  {
    hide InitOf;
    assert a.flags - {t} + {t} == a.flags + {t};
  }

  lemma CrowdedCalls()
    ensures var a := CrowdedAlarm();
            && Proper(a, DoInsert(1)) && !Right(a, DoInsert(1)) && Legal(Insert(a, 1), DoStart(3))
  {
    var a := CrowdedAlarm();
    assert Place(a.queue, Due(a.due), 0) == 0 && !Comparable(HALF, 0);
    assert Due(a.due)(a.queue[0]) == HALF && Due(a.due)(1) == 0;
    var b := Insert(a, 1);
    assert b.queue == [1, 2];
    assert Due(b.due)(1) == 0 && Due(b.due)(2) == HALF;
  }

  /** The kernel after the insertion of timer 1, behind timer 2, and the start of timer 3. */
  function Crowded(now: nat): Clock {
    Clock(Low(now), if now < HALF then [2, 1, 3] else [1, 3], map[1 := 0, 2 := HALF, 3 := HALF + 1],
          map[1 := 0, 2 := 1, 3 := 2], {}, if now < HALF then {1, 2, 3} else {1, 3})
  }

  lemma CrowdedNow()
    ensures ClockStart(ClockInsert(Image(CrowdedAlarm()), 1), 3) == Crowded(HALF - 1)
  {
    var c := Image(CrowdedAlarm());
    assert c.ticks == map[1 := 0, 2 := HALF];
    assert !Later(HALF, 0);
    ScanIs([2], c.ticks, 0, 1);
    var d := ClockInsert(c, 1);
    assert d.list == [2, 1];
    var e := ClockRead(ClockDrop(d, 3), 3);
    assert e.list == [2, 1] && e.ticks == map[1 := 0, 2 := HALF, 3 := HALF + 1];
    assert !Later(HALF, HALF + 1) && !Later(0, HALF + 1);
    ScanIs([2, 1], e.ticks, HALF + 1, 2);
  }

  lemma CrowdedTicks()
    ensures ClockStep(Crowded(HALF - 1), DoTick) == Crowded(HALF) && ClockFiredBy(Crowded(HALF - 1), DoTick) == [2]
    ensures ClockFiredBy(Crowded(HALF), DoTick) == []
  {
    var c := NextClock(Crowded(HALF - 1));
    assert Ready(c) && ClockFire(c) == Crowded(HALF);
    assert !Ready(Crowded(HALF));
    assert ClockRounds(c, 3) == ClockRounds(ClockFire(c), 2) == ClockFire(c);
    assert ClockFires(c, 3) == [2] + ClockFires(ClockFire(c), 2);
    assert !Ready(NextClock(Crowded(HALF)));
  }

  /**
   A late insertion that is not right harms others: timer 3 is started for 2 ticks, undisturbed and by a call that
   is right, and does not fire at its time, because timer 1 blocks the list.
   */
  lemma BlockedTimer()
    ensures var a, es := CrowdedAlarm(), [DoInsert(1), DoStart(3), DoTick, DoTick];
            && ProperRun(a, es) && !Right(a, DoInsert(1)) && Legal(Insert(a, 1), DoStart(3))
            && ClockTimes(Image(a), es, 3, a.now) == []
  {
    hide Image, Right, Crowded, ClockStart, ClockInsert, Start, Insert, Tick, ClockFires, ClockRounds;
    var a, es := CrowdedAlarm(), [DoInsert(1), DoStart(3), DoTick, DoTick];
    CrowdedCalls();
    CrowdedNow();
    CrowdedTicks();
    assert es[1..] == [DoStart(3), DoTick, DoTick] && es[1..][1..] == [DoTick, DoTick];
    assert [DoTick, DoTick][1..] == [DoTick] && [DoTick][1..] == [];
    var c := Image(a);
    assert ClockTimes(Crowded(HALF), [DoTick], 3, HALF) == [];
    assert ClockTimes(Crowded(HALF - 1), [DoTick, DoTick], 3, HALF - 1) == [];
    assert ClockTimes(ClockInsert(c, 1), es[1..], 3, a.now) ==
           ClockTimes(Crowded(HALF - 1), [DoTick, DoTick], 3, a.now);
  }
}
