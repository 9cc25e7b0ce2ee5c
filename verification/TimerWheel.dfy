/**
 Hard timers as src/timer.c keeps them: a skip list searched from the sparsest
 row down, 32-bit ticks that wrap, and comparisons of tick differences.

 Every method is proved against TimerSpec, where time never wraps.  With one
 row the insertion is that of TimerTicks in any order of the list.
 */
module TimerWheel {

  import opened IpcList
  import opened SkipList
  import opened TimerSpec
  import opened TimerTicks

  /** The rows that a new timer gets into, counted from the last one: two bits of the insert counter each. */
  function Height(counter: nat, levels: nat): (h: nat)
    requires levels >= 1
    ensures 1 <= h <= levels
  {
    if levels == 1 || counter % 4 != 0 then 1 else 1 + Height(counter / 4, levels - 1)
  }

  lemma HeightStep(counter: nat, levels: nat)
    requires levels >= 1
    ensures levels >= 2 && counter % 4 == 0 ==> Height(counter, levels) == 1 + Height(counter / 4, levels - 1)
    ensures levels == 1 || counter % 4 != 0 ==> Height(counter, levels) == 1
  {
  }

  function RemovedRows(rows: Rows, t: Timer): Rows {
    seq(|rows|, i requires 0 <= i < |rows| => Removed(rows[i], t))
  }

  lemma RemovedRowsOk(rows: Rows, t: Timer)
    requires RowsOk(rows)
    ensures RowsOk(RemovedRows(rows, t))
    ensures forall i :: 0 <= i < |rows| ==> t !in RemovedRows(rows, t)[i]
  {
    hide SubRow;
    forall i | 0 <= i < |rows| ensures Unique(RemovedRows(rows, t)[i]) && t !in RemovedRows(rows, t)[i] {
      RemovedMembers(rows[i], t);
    }
    forall i | 0 <= i < |rows| - 1 ensures SubRow(RemovedRows(rows, t)[i], RemovedRows(rows, t)[i + 1]) {
      SubRowRemoved(rows[i], rows[i + 1], t);
    }
  }

  /** The rows with t put into the last h of them, at the given places. */
  function InsertedRows(rows: Rows, heads: seq<nat>, t: Timer, h: nat): (r: Rows)
    requires |heads| == |rows| && forall i :: 0 <= i < |rows| ==> heads[i] <= |rows[i]|
    ensures |r| == |rows|
  {
    seq(|rows|, i requires 0 <= i < |rows| => if i + h >= |rows| then Inserted(rows[i], heads[i], t) else rows[i])
  }

  /** Every head is the place of deadline d in its row. */
  ghost predicate AtPlaces(rows: Rows, heads: seq<nat>, f: Timer -> int, d: int) {
    |heads| == |rows| && forall i :: 0 <= i < |rows| ==> heads[i] == Place(rows[i], f, d)
  }

  lemma InsertedRowsOk(rows: Rows, heads: seq<nat>, t: Timer, f: Timer -> int, h: nat)
    requires RowsOk(rows) && 1 <= h <= |rows| && |heads| == |rows|
    requires forall i :: 0 <= i < |rows| ==> t !in rows[i] && heads[i] <= |rows[i]|
    requires |rows| > 1 ==> AtPlaces(rows, heads, f, f(t)) && Sorted(rows[|rows| - 1], f)
    ensures RowsOk(InsertedRows(rows, heads, t, h))
  {
    hide SubRow, Place, Sorted, Inserted;
    var r := InsertedRows(rows, heads, t, h);
    forall i | 0 <= i < |rows| ensures Unique(r[i]) {
      if i + h >= |rows| {
        InsertUnique(rows[i], t, heads[i]);
      }
    }
    forall i | 0 <= i < |rows| - 1 ensures SubRow(r[i], r[i + 1]) {
      assert SubRow(rows[i], rows[i + 1]);
      if i + h >= |rows| {
        AllSorted(rows, f, i + 1);
        SubRowInserted(rows[i], rows[i + 1], t, f, f(t));
      } else if i + 1 + h >= |rows| {
        SubRowBelow(rows[i], rows[i + 1], t, heads[i + 1]);
      }
    }
  }

  /** The position of a node in a row. */
  function NodeIn(row: seq<Tid>, x: Tid): (k: nat)
    requires x in row
    ensures k < |row| && row[k] == x
  {
    if row[0] == x then 0 else 1 + NodeIn(row[1..], x)
  }

  /** Stepping down one row from a node before the place never overshoots the place below. */
  lemma StepDown(a: seq<Tid>, b: seq<Tid>, f: Tid -> int, d: int, k: nat)
    requires SubRow(a, b) && Sorted(b, f) && k == Place(a, f, d)
    ensures k > 0 ==> a[k - 1] in b && forall i :: 0 <= i <= NodeIn(b, a[k - 1]) ==> f(b[i]) <= d
  {
    hide Place;
    SubRowMembers(a, b);
    if k > 0 {
      assert a[k - 1] in a;
    }
  }

  /** The search in every row of a skip list is right: see TimerTicks.RowsExactly. */
  ghost predicate Spread(a: Alarm, t: Timer) {
    forall x :: x in a.queue ==> Comparable(Due(a.due)(x), Due(a.due)(t))
  }

  class Wheel {
    const levels: nat
    var rows: Rows
    var timeoutTick: map<Timer, int>
    var initTick: map<Timer, nat>
    var periodic: set<Timer>
    var activated: set<Timer>
    var tick: int
    var randomNr: nat
    ghost var now: nat
    ghost var due: map<Timer, int>

    ghost function A(): Alarm
      requires |rows| >= 1
      reads this
    {
      Alarm(now, rows[|rows| - 1], due, initTick, periodic, activated)
    }

    /** The last row, in 32-bit ticks. */
    function C(): Clock
      requires |rows| >= 1
      reads this
    {
      Clock(tick, rows[|rows| - 1], timeoutTick, initTick, periodic, activated)
    }

    ghost predicate Shaped()
      reads this
    {
      levels >= 1 && |rows| == levels && randomNr < WORD && RowsOk(rows)
    }

    /** The wrapped ticks belong to the real times, and the list is in order. */
    ghost predicate Valid()
      reads this
    {
      Shaped() && C() == Image(A()) && Inv(A())
    }

    /** rt_system_timer_init */
    constructor (n: nat)
      requires n >= 1
      ensures Valid() && levels == n && A() == Alarm(0, [], map[], map[], {}, {})
    {
      levels := n;
      rows := seq(n, i => []);
      timeoutTick, initTick, periodic, activated := map[], map[], {}, {};
      tick, randomNr, now, due := 0, 0, 0, map[];
    }

    /** _rt_timer_remove */
    method Remove(t: Timer)
      modifies this`rows
      ensures rows == RemovedRows(old(rows), t)
    {
      for i := 0 to |rows|
        invariant |rows| == |old(rows)|
        invariant forall j :: 0 <= j < i ==> rows[j] == Removed(old(rows)[j], t)
        invariant forall j :: i <= j < |rows| ==> rows[j] == old(rows)[j]
      {
        rows := rows[i := Removed(rows[i], t)];
      }
    }

    /** All comparisons with the nodes of the list are right. */
    ghost predicate AllRight(timeout: int, f: Timer -> int, d: int)
      requires |rows| >= 1
      reads this
    {
      && Sorted(rows[|rows| - 1], f)
      && forall x :: x in rows[|rows| - 1] ==> (Later(TickOf(timeoutTick, x), timeout) <==> f(x) > d)
    }

    /** The search of rt_timer_start: how many nodes of each row stay before the timer. */
    method Search(timeout: int, ghost f: Timer -> int, ghost d: int) returns (heads: seq<nat>)
      requires |rows| == levels >= 1 && RowsOk(rows) && (levels > 1 ==> AllRight(timeout, f, d))
      ensures |heads| == levels && forall i :: 0 <= i < levels ==> heads[i] <= |rows[i]|
      ensures heads[levels - 1] == Scan(rows[levels - 1], timeoutTick, timeout)
      ensures levels > 1 ==> AtPlaces(rows, heads, f, d)
    {
      hide Place, Scan, Later, SubRow;
      heads := [];
      var k: nat := 0;
      for lvl := 0 to levels
        invariant |heads| == lvl && forall i :: 0 <= i < lvl ==> heads[i] <= |rows[i]|
        invariant levels > 1 ==> forall i :: 0 <= i < lvl ==> heads[i] == Place(rows[i], f, d)
        invariant lvl < levels ==> k <= |rows[lvl]|
        invariant lvl < levels && levels > 1 ==> forall i :: 0 <= i < k ==> f(rows[lvl][i]) <= d
        invariant lvl == 0 ==> k == 0
        invariant lvl == levels ==> heads[levels - 1] == Scan(rows[levels - 1], timeoutTick, timeout)
      {
        ghost var start := k;
        k := SearchRow(lvl, k, timeout);
        heads := heads + [k];
        RowSearched(this, lvl, start, k, timeout, f, d);
        if lvl != levels - 1 {
          AllSorted(rows, f, lvl + 1);
          assert SubRow(rows[lvl], rows[lvl + 1]);
          StepDown(rows[lvl], rows[lvl + 1], f, d, k);
          k := if k == 0 then 0 else NodeIn(rows[lvl + 1], rows[lvl][k - 1]) + 1;
        }
      }
    }

    /** The inner loop of the search, from any node on. */
    method SearchRow(lvl: nat, start: nat, timeout: int) returns (k: nat)
      requires lvl < |rows| && start <= |rows[lvl]|
      ensures k == start + Scan(rows[lvl][start..], timeoutTick, timeout)
    {
      hide Later, Scan;
      k := start;
      while k < |rows[lvl]|
        invariant start <= k <= |rows[lvl]|
        invariant forall i :: start <= i < k ==> !Later(TickOf(timeoutTick, rows[lvl][i]), timeout)
      {
        if Later(TickOf(timeoutTick, rows[lvl][k]), timeout) {
          break;
        }
        k := k + 1;
      }
      ScanIs(rows[lvl][start..], timeoutTick, timeout, k - start);
    }

    /** The insertions of rt_timer_start: the last row, and further rows while two bits of the counter are zero. */
    method InsertRows(t: Timer, heads: seq<nat>)
      requires |rows| == levels >= 1 && |heads| == levels && forall i :: 0 <= i < levels ==> heads[i] <= |rows[i]|
      modifies this`rows
      ensures rows == InsertedRows(old(rows), heads, t, Height(randomNr, levels))
    {
      hide Height, Inserted;
      var tst := randomNr;
      rows := rows[levels - 1 := Inserted(rows[levels - 1], heads[levels - 1], t)];
      var lvl := 2;
      while lvl <= levels
        invariant 2 <= lvl <= levels + 1 && |rows| == levels
        invariant forall i :: 0 <= i < levels ==>
          rows[i] == if i + lvl - 1 >= levels then Inserted(old(rows)[i], heads[i], t) else old(rows)[i]
        invariant Height(randomNr, levels) == lvl - 2 + Height(tst, levels - lvl + 2)
      {
        HeightStep(tst, levels - lvl + 2);
        if tst % 4 != 0 {
          break;
        }
        rows := rows[levels - lvl := Inserted(rows[levels - lvl], heads[levels - lvl], t)];
        tst := tst / 4;
        lvl := lvl + 1;
      }
      HeightStep(tst, levels - lvl + 2);
    }

    /** The second half of rt_timer_start: search and insert.  With one row nothing is asked of the order. */
    method Link(t: Timer, timeout: int, ghost f: Timer -> int)
      requires Shaped() && (levels > 1 ==> AllRight(timeout, f, f(t)))
      requires forall i :: 0 <= i < levels ==> t !in rows[i]
      modifies this`rows, this`randomNr
      ensures Shaped()
      ensures rows[levels - 1] == Inserted(old(rows)[levels - 1], Scan(old(rows)[levels - 1], timeoutTick, timeout), t)
    {
      hide RowsOk, Place, Height, Later, Sorted, Scan, Inserted, AtPlaces;
      var heads := Search(timeout, f, f(t));
      randomNr := (randomNr + 1) % WORD;
      InsertedRowsOk(rows, heads, t, f, Height(randomNr, levels));
      InsertRows(t, heads);
    }

    /** rt_timer_start, undisturbed. */
    method Start(t: Timer)
      requires Valid() && Legal(A(), DoStart(t))
      modifies this
      ensures Valid() && A() == TimerSpec.Start(old(A()), t) && tick == old(tick)
    {
      hide RowsOk, Inv, Image, TimerSpec.Drop, Read, Insert, Reaches, Placed, Spread;
      ghost var a := A();
      StartFacts(a, t);
      DropTimer(t);
      ReadTick(t);
      InsertTimer(t);
    }

    /** The first section of rt_timer_start. */
    method DropTimer(t: Timer)
      requires Valid()
      modifies this`rows, this`activated
      ensures Valid() && A() == TimerSpec.Drop(old(A()), t)
    {
      hide Inv, RowsOk;
      RemovedRowsOk(rows, t);
      DropKeeps(A(), t);
      Remove(t);
      activated := activated - {t};
    }

    /** The unlocked part of rt_timer_start. */
    method ReadTick(t: Timer)
      requires Valid() && t !in rows[levels - 1]
      modifies this`timeoutTick, this`due
      ensures Valid() && A() == Read(old(A()), t)
    {
      hide RowsOk, Inv, Image, Low;
      ReadKeeps(A(), t);
      ReadImage(A(), t);
      timeoutTick := timeoutTick[t := Low(tick + InitOf(initTick, t))];
      due := due[t := now + InitOf(initTick, t)];
    }

    /** The second section of rt_timer_start, with the deadline that was set before. */
    method InsertTimer(t: Timer)
      requires Valid() && Legal(A(), DoInsert(t)) && (levels > 1 ==> Spread(A(), t))
      modifies this`rows, this`randomNr, this`activated
      ensures Valid() && A() == Insert(old(A()), t)
    {
      hide RowsOk, Inv, Image, Suspended, Sorted, Later, Due, Scan, Placed, Spread, Inserted;
      ghost var a := A();
      InsertKeeps(a, t);
      InsertExactly(a, t);
      InsertFacts(a, rows, t, levels);
      Link(t, TickOf(timeoutTick, t), Due(due));
      activated := activated + {t};
      ImageQueue(Insert(a, t));
    }

    /** The test at the beginning of rt_timer_stop. */
    method IsActivated(t: Timer) returns (ok: bool)
      requires |rows| >= 1
      ensures ok == (t in A().flags)
    {
      ok := t in activated;
    }

    /** The locked section of rt_timer_stop. */
    method RemoveTimer(t: Timer)
      requires Valid()
      modifies this`rows
      ensures Valid() && A() == TimerSpec.Remove(old(A()), t)
    {
      hide Inv, RowsOk;
      RemovedRowsOk(rows, t);
      DropKeeps(A(), t);
      Remove(t);
    }

    /** The end of rt_timer_stop, unlocked again. */
    method ClearFlag(t: Timer)
      requires Valid()
      modifies this`activated
      ensures Valid() && A() == TimerSpec.Clear(old(A()), t)
    {
      hide Inv, RowsOk;
      DropKeeps(A(), t);
      activated := activated - {t};
    }

    /** rt_timer_stop, undisturbed; it goes by the flag, and fails without any effect if that is not set. */
    method Stop(t: Timer) returns (ok: bool)
      requires Valid()
      modifies this
      ensures Valid() && ok == (t in old(activated)) && A() == TimerSpec.Stop(old(A()), t)
    {
      hide Inv, RowsOk, Image, TimerSpec.Remove, TimerSpec.Clear;
      ok := IsActivated(t);
      if ok {
        RemoveTimer(t);
        ClearFlag(t);
      }
    }

    /** rt_timer_control: the ticks and the kind of a timer. */
    method Control(t: Timer, ticks: nat, again: bool)
      requires Valid() && Proper(A(), DoControl(t, ticks, again))
      modifies this`initTick, this`periodic
      ensures Valid() && A() == TimerSpec.Control(old(A()), t, ticks, again)
    {
      hide RowsOk, Inv;
      ControlKeeps(A(), t, ticks, again);
      initTick := initTick[t := ticks];
      periodic := if again then periodic + {t} else periodic - {t};
    }

    /** The first timer fires: it is taken out, its callback leaves timers alone, and it restarts if periodic. */
    method FireFirst(t: Timer)
      requires Valid() && rows[levels - 1] != [] && t == rows[levels - 1][0]
      requires Again(A(), t) ==> Reaches(A(), t)
      modifies this
      ensures Valid() && tick == old(tick) && A() == Fire(old(A()))
    {
      hide RowsOk, Inv, Image, TimerSpec.Remove, TimerSpec.Drop, TimerSpec.Clear, TimerSpec.Start, Reaches;
      ghost var a := A();
      RestartFacts(a, t);
      RemoveTimer(t);
      if t in periodic && t in activated {
        ClearFlag(t);
        Start(t);
      } else {
        ClearFlag(t);
      }
    }

    /**
     The same round with a callback that restarts its own timer: the timer runs,
     but the flag that is cleared after the callback says so only if it is periodic.
     */
    method FireRestarted(t: Timer)
      requires Valid() && rows[levels - 1] != [] && t == rows[levels - 1][0] && Reaches(A(), t)
      modifies this
      ensures Valid() && tick == old(tick)
      ensures var b := TimerSpec.Start(old(A()), t);
              A() == if t in periodic then b else TimerSpec.Clear(b, t)
      ensures t in A().queue && (t in A().flags <==> t in periodic) && periodic == old(periodic)
    {
      hide RowsOk, Inv, Image, TimerSpec.Remove, TimerSpec.Drop, TimerSpec.Clear, TimerSpec.Start, Reaches;
      ghost var a := A();
      RestartFacts(a, t);
      RestartTwice(a, t);
      RemoveTimer(t);
      Start(t);
      if t in periodic && t in activated {
        ClearFlag(t);
        Start(t);
      } else {
        ClearFlag(t);
      }
    }

    /** So a one-shot timer that restarts itself cannot be stopped: it runs on. */
    method StopRestarted(t: Timer) returns (ok: bool)
      requires Valid() && rows[levels - 1] != [] && t == rows[levels - 1][0] && Reaches(A(), t)
      modifies this
      ensures Valid() && ok == (t in periodic) && (t in A().queue <==> t !in periodic)
    {
      hide RowsOk, Inv, Image, TimerSpec.Start, Reaches;
      FireRestarted(t);
      StopKeeps(A(), t);
      ok := Stop(t);
    }

    /** rt_timer_check; `fired` lists the timers whose callbacks it called, in order. */
    method Check() returns (fired: seq<Timer>)
      requires Valid() && Checkable(A())
      modifies this
      ensures Valid() && now == old(now) && tick == old(tick)
      ensures A() == TimerSpec.Check(old(A())) && fired == Fired(old(A()))
    {
      hide RowsOk, Inv, Image, Reached, Overdue, Fire, Fired, TimerSpec.Check, Checkable, Reaches;
      fired := [];
      ghost var start := A();
      while rows[levels - 1] != []
        invariant Valid() && Checkable(A()) && now == start.now && tick == old(tick)
        invariant TimerSpec.Check(A()) == TimerSpec.Check(start) && fired + Fired(A()) == Fired(start)
        decreases Overdue(A())
      {
        var t := rows[levels - 1][0];
        CheckFacts(A());
        if !Reached(TickOf(timeoutTick, t), tick) {
          break;
        }
        FireFirst(t);
        fired := fired + [t];
      }
      CheckDone(A());
    }

    /** rt_tick_increase: the tick wraps, the time does not. */
    method TickIncrease() returns (fired: seq<Timer>)
      requires Valid() && Legal(A(), DoTick)
      modifies this
      ensures Valid() && A() == Tick(old(A())) && fired == FiredBy(old(A()), DoTick)
    {
      hide RowsOk, Inv, TimerSpec.Check, Fired, Low, Checkable;
      TickPasses(A());
      LowSum(now, 1);
      tick := Low(tick + 1);
      now := now + 1;
      fired := Check();
    }

    /** Any event, in the order of the source. */
    method Do(e: Event) returns (fired: seq<Timer>)
      requires Valid() && Legal(A(), e) && (e.DoInsert? && levels > 1 ==> Spread(A(), e.t))
      modifies this
      ensures Valid() && A() == Step(old(A()), e) && fired == FiredBy(old(A()), e)
    {
      hide RowsOk, Inv, Image, Reaches, Placed, Checkable, Spread, Fired, Tick;
      fired := [];
      match e
      case DoStart(t) => Start(t);
      case DoStop(t) => var ok := Stop(t);
      case DoDrop(t) => DropTimer(t);
      case DoRead(t) => ReadTick(t);
      case DoInsert(t) => InsertTimer(t);
      case DoRemove(t) => RemoveTimer(t);
      case DoClear(t) => ClearFlag(t);
      case DoControl(t, ticks, again) => Control(t, ticks, again);
      case DoTick => fired := TickIncrease();
    }
  }

  /** What fires at every event of a run. */
  function Log(a: Alarm, events: seq<Event>): seq<seq<Timer>>
    decreases |events|
  {
    if events == [] then [] else [FiredBy(a, events[0])] + Log(Step(a, events[0]), events[1..])
  }

  /** Every insertion of the run suits a skip list of any shape. */
  ghost predicate SpreadRun(a: Alarm, events: seq<Event>)
    decreases |events|
  {
    events != [] ==> (events[0].DoInsert? ==> Spread(a, events[0].t)) && SpreadRun(Step(a, events[0]), events[1..])
  }

  /** Over every legal run the skip list fires the timers that the alarm clock fires, in their order. */
  method Drive(w: Wheel, events: seq<Event>) returns (log: seq<seq<Timer>>)
    requires w.Valid() && LegalRun(w.A(), events) && (w.levels > 1 ==> SpreadRun(w.A(), events))
    modifies w
    ensures w.Valid() && log == Log(old(w.A()), events) && w.A() == Run(old(w.A()), events)
  {
    hide RowsOk, Inv, Image, Legal, Step, FiredBy, Spread;
    log := [];
    ghost var a := w.A();
    for i := 0 to |events|
      invariant w.Valid() && LegalRun(w.A(), events[i..]) && (w.levels > 1 ==> SpreadRun(w.A(), events[i..]))
      invariant log + Log(w.A(), events[i..]) == Log(a, events) && Run(w.A(), events[i..]) == Run(a, events)
    {
      assert events[i..][0] == events[i] && events[i..][1..] == events[i + 1..];
      var fired := w.Do(events[i]);
      log := log + [fired];
    }
    assert events[|events|..] == [];
  }

  /** What one row of the search gives. */
  lemma RowSearched(w: Wheel, lvl: nat, start: nat, k: nat, timeout: int, f: Timer -> int, d: int)
    requires |w.rows| == w.levels >= 1 && RowsOk(w.rows) && lvl < w.levels && start <= |w.rows[lvl]|
    requires k == start + Scan(w.rows[lvl][start..], w.timeoutTick, timeout)
    requires w.levels > 1 ==> w.AllRight(timeout, f, d) && forall i :: 0 <= i < start ==> f(w.rows[lvl][i]) <= d
    requires w.levels == 1 ==> start == 0
    ensures k <= |w.rows[lvl]| && (w.levels > 1 ==> k == Place(w.rows[lvl], f, d))
    ensures lvl == w.levels - 1 ==> k == Scan(w.rows[lvl], w.timeoutTick, timeout)
  {
    hide Scan, Later, Place, SubRow;
    var row := w.rows[lvl];
    if w.levels == 1 {
      assert row[0..] == row;
    } else {
      forall i | 0 <= i < |row| ensures Later(TickOf(w.timeoutTick, row[i]), timeout) <==> f(row[i]) > d {
        InLastRow(w.rows, lvl, row[i]);
      }
      assert forall i :: start <= i < |row| ==> row[start..][i - start] == row[i];
      PlaceIs(row, f, d, k);
      ScanIs(row, w.timeoutTick, timeout, k);
    }
  }

  /** What a start relies on in its three parts. */
  lemma StartFacts(a: Alarm, t: Timer)
    requires Inv(a) && Legal(a, DoStart(t))
    ensures var b := Drop(a, t);
            t !in b.queue && Legal(Read(b, t), DoInsert(t)) && Spread(Read(b, t), t)
  {
    hide Place, Low, Read, Drop, Inv, Comparable, Placed, Due, Reaches, InitOf;
    var b := Read(Drop(a, t), t);
    StartQueue(a, t);
    StartPlaced(a, t);
    DropKeeps(a, t);
    ReadKeeps(Drop(a, t), t);
    SameKind(a, t);
    SmallPeriod(a, t);
    DueOf(b, t);
    forall x | x in b.queue ensures Comparable(Due(b.due)(x), Due(b.due)(t)) {
      StartCompares(a, b, t, x);
    }
    AllSpread(b, t);
  }

  lemma SameKind(a: Alarm, t: Timer)
    ensures var b := Read(Drop(a, t), t); b.periodic == a.periodic && b.init == a.init
  {
  }

  lemma AllSpread(a: Alarm, t: Timer)
    requires forall x :: x in a.queue ==> Comparable(Due(a.due)(x), Due(a.due)(t))
    ensures Spread(a, t)
  {
  }

  lemma StartCompares(a: Alarm, b: Alarm, t: Timer, x: Timer)
    requires Inv(b) && Reaches(a, t) && x in a.queue && x != t && x in b.queue && b.now == a.now
    requires Due(b.due)(x) == Due(a.due)(x) && Due(b.due)(t) == a.now + InitOf(a.init, t)
    requires InitOf(a.init, t) < HALF
    ensures Comparable(Due(b.due)(x), Due(b.due)(t))
  {
    hide Low, Due, InitOf, Inv;
    InOrder(b);
  }

  lemma ImageQueue(a: Alarm)
    ensures Image(a).list == a.queue && Image(a).flags == a.flags && Image(a).init == a.init
    ensures Image(a).periodic == a.periodic
  {
  }

  /** What the insertion of a timer relies on. */
  lemma InsertFacts(a: Alarm, rows: Rows, t: Timer, levels: nat)
    requires |rows| == levels >= 1 && RowsOk(rows) && Inv(a) && a.queue == rows[levels - 1]
    requires t in a.due && t !in a.queue && (levels > 1 ==> Spread(a, t))
    ensures forall i :: 0 <= i < |rows| ==> t !in rows[i]
    ensures var f, ticks := Due(a.due), Image(a).ticks;
            levels > 1 ==>
              && Sorted(a.queue, f)
              && forall x :: x in a.queue ==> (Later(TickOf(ticks, x), TickOf(ticks, t)) <==> f(x) > f(t))
  {
    hide RowsOk, Later, Low, Comparable;
    forall i | 0 <= i < |rows| ensures t !in rows[i] {
      NotInRow(rows, i, t);
    }
    if levels > 1 {
      forall x | x in a.queue
        ensures Later(TickOf(Image(a).ticks, x), TickOf(Image(a).ticks, t)) <==> Due(a.due)(x) > Due(a.due)(t)
      {
        TickOfImage(a, x);
        TickOfImage(a, t);
        LaterExactly(Due(a.due)(x), Due(a.due)(t));
      }
    }
  }

  lemma NotInRow(rows: Rows, i: nat, t: Timer)
    requires RowsOk(rows) && i < |rows| && t !in rows[|rows| - 1]
    ensures t !in rows[i]
  {
    if t in rows[i] {
      InLastRow(rows, i, t);
    }
  }

  /** Starting a timer that was just taken out is starting it. */
  lemma RestartFacts(a: Alarm, t: Timer)
    requires Inv(a) && a.queue != [] && t == a.queue[0]
    ensures Clear(Remove(a, t), t) == Drop(a, t)
    ensures TimerSpec.Start(Drop(a, t), t) == TimerSpec.Start(a, t) == TimerSpec.Start(Remove(a, t), t)
    ensures Reaches(a, t) ==> Reaches(Drop(a, t), t) && Reaches(Remove(a, t), t)
    ensures t in a.periodic ==> InitOf(a.init, t) >= 1
    ensures var b := Remove(a, t);
            && b.init == a.init && b.periodic == a.periodic && b.flags == a.flags
            && Drop(a, t).init == a.init && Drop(a, t).periodic == a.periodic
  {
    hide Inv, Low, Suspended, Reaches, Removed;
    DropKeeps(a, t);
    Pop(a);
    FewerToReach(a, Drop(a, t), t);
    FewerToReach(a, Remove(a, t), t);
    RemovedAbsent(Removed(a.queue, t), t);
    assert a.flags - {t} - {t} == a.flags - {t};
  }

  lemma FewerToReach(a: Alarm, b: Alarm, t: Timer)
    requires b.now == a.now && b.init == a.init && b.due == a.due && forall x :: x in b.queue ==> x in a.queue
    ensures Reaches(a, t) ==> Reaches(b, t)
  {
    hide Low;
  }

  /** Starting a timer again at once changes nothing. */
  lemma RestartTwice(a: Alarm, t: Timer)
    requires Inv(a) && Proper(a, DoStart(t))
    ensures var b := TimerSpec.Start(a, t);
            && TimerSpec.Start(b, t) == b && TimerSpec.Start(Clear(b, t), t) == b
            && t in b.queue && t in b.flags && b.periodic == a.periodic && b.init == a.init
            && t in Clear(b, t).queue && t !in Clear(b, t).flags && Clear(b, t).periodic == a.periodic
            && Clear(b, t).init == a.init
            && (Reaches(a, t) ==> Reaches(b, t) && Reaches(Clear(b, t), t))
  {
    hide Inv, Suspended, Removed, Low, Unique;
    StartKeeps(a, t);
    DropKeeps(a, t);
    var rest, due := Removed(a.queue, t), a.due[t := a.now + InitOf(a.init, t)];
    RestUnique(a, t);
    SuspendThenRemove(rest, t, Due(due));
    assert due[t := a.now + InitOf(a.init, t)] == due;
    assert a.flags - {t} + {t} - {t} + {t} == a.flags - {t} + {t};
    assert a.flags - {t} + {t} - {t} - {t} + {t} == a.flags - {t} + {t};
  }

  lemma RestUnique(a: Alarm, t: Timer)
    requires Inv(a)
    ensures Unique(Removed(a.queue, t)) && t !in Removed(a.queue, t)
  {
    RemovedMembers(a.queue, t);
  }

  lemma SuspendThenRemove(list: seq<Tid>, t: Tid, f: Tid -> int)
    requires Unique(list) && t !in list
    ensures Removed(Suspended(list, t, f, Prio), t) == list
    ensures forall x :: x in Suspended(list, t, f, Prio) <==> x in list || x == t
  {
    hide Removed, Place;
    SuspendedMembers(list, t, f, Prio);
    var k := Place(list, f, f(t));
    RemovedAt(Suspended(list, t, f, Prio), t, k);
    assert list[..k] + list[k..] == list;
  }

  /** One round of the check: what the test on the first timer says, and what is left to do. */
  lemma CheckFacts(a: Alarm)
    requires Inv(a) && a.queue != [] && Checkable(a)
    ensures Ready(Image(a)) <==> Overdue(a) > 0
    ensures Overdue(a) > 0 ==>
              && (Again(a, a.queue[0]) ==> Reaches(a, a.queue[0]))
              && Checkable(Fire(a)) && Fire(a).now == a.now
              && TimerSpec.Check(Fire(a)) == TimerSpec.Check(a)
              && Overdue(Fire(a)) < Overdue(a) && [a.queue[0]] + Fired(Fire(a)) == Fired(a)
    ensures Image(a).list == a.queue
  {
    hide Inv, Place, Fire, Reaches, Ready, Checkable, Low;
    ReadyExactly(a);
    if Overdue(a) > 0 {
      CheckableStep(a);
      FireQueue(a);
    }
  }

  lemma CheckDone(a: Alarm)
    ensures Overdue(a) == 0 ==> TimerSpec.Check(a) == a && Fired(a) == []
    ensures a.queue == [] ==> Overdue(a) == 0
  {
  }

  /** Every node is in the last row. */
  lemma {:induction false} InLastRow(rows: Rows, i: nat, x: Tid)
    requires RowsOk(rows) && i < |rows| && x in rows[i]
    ensures x in rows[|rows| - 1]
    decreases |rows| - i
  {
    if i < |rows| - 1 {
      SubRowMembers(rows[i], rows[i + 1]);
      InLastRow(rows, i + 1, x);
    }
  }
}
