/**
 What the clients of an event object of src/ipc.c see: each event of the set
 by itself, the calls with what they were given and how they end, and the
 order in which threads wait.
 */
module EventStory {

  import opened IpcList
  import opened EventProtocol

  // ---------------------------------------------------------------- the set, event by event

  /** Every step, for one event m of the 32: when it is set afterwards. */
  lemma SetExactly(s: Sys, e: Event, m: bv32)
    requires Inv(s) && Enabled(s, e) && Single(m)
    ensures var s' := Step(s, e);
            Has(s'.bits, m) <==>
            match e
            case Send(bits) => (Has(s.bits, m) || Has(bits, m)) && !exists t :: TookAway(s, s', t, m)
            case Recv(t, w, _, _) =>
              Has(s.bits, m) && !(t in s'.phase && s'.phase[t].Received? && w.option.clear && Has(w.bits, m))
            case Reset => false
            case _ => Has(s.bits, m)
  {
    hide Inv, Has, Single, SendStep, RecvStep, Roused, Removed;
    match e
    case Send(bits) => SendBits(s, bits, m);
    case Recv(t, w, timeout, prio) =>
      RecvBits(s, t, w, timeout, prio, m);
      RecvAnswer(s, t, w, timeout, prio, m);
      RecvKnown(s, t, w, timeout, prio);
    case Reset => NoBits(m);
    case _ =>
  }

  lemma RecvKnown(s: Sys, t: Tid, w: Wish, timeout: int, prio: Tid -> int)
    ensures t in RecvStep(s, t, w, timeout, prio).phase
  {
  }

  // ---------------------------------------------------------------- how calls end

  datatype Call = Asks(wish: Wish, timeout: int) | TimedOut

  /** The calls that have not returned. */
  function Called(calls: map<Tid, Call>, e: Event): map<Tid, Call> {
    match e
    case Recv(t, w, timeout, _) => calls[t := Asks(w, timeout)]
    case Expire(t) => calls[t := TimedOut]
    case Return(t) => calls - {t}
    case _ => calls
  }

  /** The same from a list of events alone. */
  function Calls(calls: map<Tid, Call>, events: seq<Event>): map<Tid, Call>
    decreases |events|
  {
    if events == [] then calls else Calls(Called(calls, events[0]), events[1..])
  }

  /**
   A thread waits for what it asked for, as long as it asked for; it gets all of that or some, as it asked; it fails
   with the timeout error if its time is over or it gave none, and with the other error if it asked for nothing or was
   roused by a reset.
   */
  ghost predicate Fits(p: Phase, calls: map<Tid, Call>, t: Tid) {
    match p
    case Idle => t !in calls
    case Waiting(w, timed) =>
      t in calls && calls[t].Asks? && w == calls[t].wish && calls[t].timeout != 0 && (timed <==> calls[t].timeout > 0)
    case Received(got) =>
      && t in calls && calls[t].Asks? && Includes(calls[t].wish.bits, got)
      && (if calls[t].wish.option.and then got == calls[t].wish.bits else got != 0)
    case Leaving(error) =>
      && t in calls
      && match error
         case EOK => false
         case ETIMEOUT => calls[t].TimedOut? || calls[t].timeout == 0
         case ERROR => calls[t].Asks?
  }

  ghost predicate AllFit(phase: map<Tid, Phase>, calls: map<Tid, Call>) {
    forall t :: Fits(if t in phase then phase[t] else Idle, calls, t)
  }

  lemma SendFits(s: Sys, bits: bv32, calls: map<Tid, Call>)
    requires Inv(s) && AllFit(s.phase, calls)
    ensures AllFit(SendStep(s, bits).phase, calls)
  {
    hide Satisfied, Both, Includes, Without, Either, Walk, Woken, Unique;
    if bits != 0 {
      var start := Either(s.bits, bits);
      var r := Walk(s.waiters, s.phase, start);
      WalkMembers(s.waiters, s.phase, start);
      WokenIs(s.phase, r.woken);
      var phase' := Woken(s.phase, r.woken);
      forall t ensures Fits(if t in phase' then phase'[t] else Idle, calls, t) {
        assert Fits(if t in s.phase then s.phase[t] else Idle, calls, t);
        if t in Names(r.woken) {
          var k := NameAt(r.woken, t);
          WokenAt(s.phase, r.woken, k);
          WokenGets(s.waiters, s.phase, start, k);
          IncludesPart(r.woken[k].1, 0);
        }
      }
    }
  }

  lemma RecvFits(s: Sys, t: Tid, w: Wish, timeout: int, prio: Tid -> int, calls: map<Tid, Call>)
    requires AllFit(s.phase, calls) && (w.option.and || w.option.or)
    ensures AllFit(RecvStep(s, t, w, timeout, prio).phase, calls[t := Asks(w, timeout)])
  {
    hide Both, Includes, Without, Suspended;
    var phase' := RecvStep(s, t, w, timeout, prio).phase;
    IncludesBoth(w.bits, s.bits);
    forall x ensures Fits(if x in phase' then phase'[x] else Idle, calls[t := Asks(w, timeout)], x) {
      assert Fits(if x in s.phase then s.phase[x] else Idle, calls, x);
    }
  }

  lemma StepFits(s: Sys, e: Event, calls: map<Tid, Call>)
    requires Inv(s) && Enabled(s, e) && AllFit(s.phase, calls)
    ensures AllFit(Step(s, e).phase, Called(calls, e))
  {
    hide SendStep, RecvStep, Removed, Includes, Inv;
    match e
    case Send(bits) => SendFits(s, bits, calls);
    case Recv(t, w, timeout, prio) => RecvFits(s, t, w, timeout, prio, calls);
    case _ =>
      var phase', calls' := Step(s, e).phase, Called(calls, e);
      forall x ensures Fits(if x in phase' then phase'[x] else Idle, calls', x) {
        assert Fits(if x in s.phase then s.phase[x] else Idle, calls, x);
      }
  }

  lemma {:induction false} RunFits(s: Sys, events: seq<Event>, s': Sys, calls: map<Tid, Call>)
    requires Inv(s) && Reaches(s, events, s') && AllFit(s.phase, calls)
    ensures AllFit(s'.phase, Calls(calls, events))
    decreases |events|
  {
    hide Inv, AllFit, Step, Enabled;
    if events != [] {
      StepFits(s, events[0], calls);
      StepInv(s, events[0]);
      RunFits(Step(s, events[0]), events[1..], s', Called(calls, events[0]));
    }
  }

  /** Over every run, every call is where its own events say it is, and ends as they say. */
  lemma CallsEnd(flag: Flag, events: seq<Event>, s: Sys, t: Tid)
    requires Reaches(Sys(0, flag, [], map[]), events, s)
    ensures Fits(if t in s.phase then s.phase[t] else Idle, Calls(map[], events), t)
  {
    RunFits(Sys(0, flag, [], map[]), events, s, map[]);
  }

  // ---------------------------------------------------------------- who waits before whom

  function Since(since: map<Tid, int>, n: int, events: seq<Event>): map<Tid, int>
    decreases |events|
  {
    if events == [] then since
    else Since(if events[0].Recv? then since[events[0].t := n] else since, n + 1, events[1..])
  }

  /** The threads have these priorities throughout. */
  ghost predicate Fixed(events: seq<Event>, prio: Tid -> int) {
    forall e :: e in events && e.Recv? ==> e.prio == prio
  }

  ghost predicate Ranked(s: Sys, prio: Tid -> int, since: map<Tid, int>, n: int) {
    Lined(s.waiters, s.flag, prio, since) && Earlier(s.waiters, since, n)
  }

  /** Those who stay keep their order. */
  lemma {:induction false} WalkLined(list: seq<Tid>, phase: map<Tid, Phase>, bits: bv32, flag: Flag, prio: Tid -> int,
                                     since: map<Tid, int>)
    requires Lined(list, flag, prio, since)
    ensures var r := Walk(list, phase, bits).waiters;
            Lined(r, flag, prio, since) && forall x :: x in r ==> x in list
  {
    hide Satisfied, EventProtocol.Left, Got, Lined;
    if list != [] {
      var t, w, rest := list[0], WishOf(phase, list[0]), list[1..];
      RestLined(list, flag, prio, since);
      WalkLined(rest, phase, if Satisfied(w, bits) then EventProtocol.Left(w, bits) else bits, flag, prio, since);
      if !Satisfied(w, bits) {
        FrontLined(list, Walk(rest, phase, bits).waiters, flag, prio, since);
      }
    }
  }

  lemma RestLined(list: seq<Tid>, flag: Flag, prio: Tid -> int, since: map<Tid, int>)
    requires Lined(list, flag, prio, since) && list != []
    ensures Lined(list[1..], flag, prio, since)
  {
    var rest := list[1..];
    forall i, j | 0 <= i < j < |rest| ensures Before(rest[i], rest[j], flag, prio, since) {
      assert Before(list[i + 1], list[j + 1], flag, prio, since);
    }
  }

  lemma FrontLined(list: seq<Tid>, r: seq<Tid>, flag: Flag, prio: Tid -> int, since: map<Tid, int>)
    requires Lined(list, flag, prio, since) && list != []
    requires Lined(r, flag, prio, since) && forall x :: x in r ==> x in list[1..]
    ensures Lined([list[0]] + r, flag, prio, since)
  {
    hide Before;
    var r' := [list[0]] + r;
    forall i, j | 0 <= i < j < |r'| ensures Before(r'[i], r'[j], flag, prio, since) {
      if i == 0 {
        assert r'[j] == r[j - 1] && r[j - 1] in r;
        var k :| 0 <= k < |list[1..]| && list[1..][k] == r'[j];
        assert list[k + 1] == r'[j];
      }
    }
  }

  lemma StepRanked(s: Sys, e: Event, prio: Tid -> int, since: map<Tid, int>, n: int)
    requires Inv(s) && Enabled(s, e) && Ranked(s, prio, since, n) && Fixed([e], prio)
    ensures Ranked(Step(s, e), prio, Since(since, n, [e]), n + 1) && Step(s, e).flag == s.flag
  {
    hide Walk, Woken, Removed, Suspended, Lined, Satisfied, Both, Either, Without;
    assert [e][1..] == [] && e in [e];
    match e
    case Send(bits) => WalkLined(s.waiters, s.phase, Either(s.bits, bits), s.flag, prio, since);
    case Recv(t, w, timeout, _) =>
      SameLined(s.waiters, s.flag, prio, since, t, n);
      SuspendedLined(s.waiters, t, s.flag, prio, since, n);
    case Expire(t) => RemovedLined(s.waiters, s.flag, prio, since, t);
    case Return(t) =>
    case Reset => NobodyLined(s.flag, prio, since, n + 1);
  }

  lemma {:induction false} RunRanked(
    s: Sys, events: seq<Event>, s': Sys, prio: Tid -> int, since: map<Tid, int>, n: int)
    requires Inv(s) && Reaches(s, events, s') && Ranked(s, prio, since, n) && Fixed(events, prio)
    ensures Ranked(s', prio, Since(since, n, events), n + |events|) && s'.flag == s.flag
    decreases |events|
  {
    hide Inv, Ranked, Step, Enabled;
    if events != [] {
      var e := events[0];
      assert [e][1..] == [] && e in events;
      StepRanked(s, e, prio, since, n);
      StepInv(s, e);
      RunRanked(Step(s, e), events[1..], s', prio, Since(since, n, [e]), n + 1);
    }
  }

  /** The threads wait in the order that the flag promises, which is the order in which a send looks at them. */
  lemma WaitersInOrder(flag: Flag, events: seq<Event>, s: Sys, prio: Tid -> int)
    requires Reaches(Sys(0, flag, [], map[]), events, s) && Fixed(events, prio)
    ensures Lined(s.waiters, flag, prio, Since(map[], 0, events))
  {
    RunRanked(Sys(0, flag, [], map[]), events, s, prio, map[], 0);
  }
}
