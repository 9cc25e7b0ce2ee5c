/**
 The event object of src/ipc.c as a protocol between threads: a set of 32
 events, and threads that wait for all or any of some of them.
 */
module EventProtocol {

  import opened IpcList

  datatype Error = EOK | ETIMEOUT | ERROR

  /** RT_EVENT_FLAG_AND, RT_EVENT_FLAG_OR and RT_EVENT_FLAG_CLEAR */
  datatype Option = Option(and: bool, or: bool, clear: bool)

  /** What a waiting thread keeps in event_set and event_info. */
  datatype Wish = Wish(bits: bv32, option: Option)

  datatype Phase = Idle | Waiting(wish: Wish, timed: bool) | Received(got: bv32) | Leaving(error: Error)

  datatype Sys = Sys(bits: bv32, flag: Flag, waiters: seq<Tid>, phase: map<Tid, Phase>)

  // ---------------------------------------------------------------- sets of events

  function Both(x: bv32, y: bv32): bv32 {
    x & y
  }

  function Either(x: bv32, y: bv32): bv32 {
    x | y
  }

  function Without(x: bv32, y: bv32): bv32 {
    x & !y
  }

  /** All events of y are in x. */
  predicate Includes(x: bv32, y: bv32) {
    x & y == y
  }

  lemma IncludesPart(bits: bv32, x: bv32)
    ensures Includes(bits, Without(bits, x)) && Includes(bits, bits)
  {
  }

  lemma IncludesTrans(a: bv32, b: bv32, c: bv32)
    requires Includes(a, b) && Includes(b, c)
    ensures Includes(a, c)
  {
  }

  lemma IncludesBoth(w: bv32, bits: bv32)
    ensures Includes(bits, Both(w, bits)) && Includes(w, Both(w, bits))
  {
  }

  lemma Apart(x: bv32, bits: bv32, y: bv32)
    requires Includes(Without(bits, x), y)
    ensures Both(x, y) == 0
  {
  }

  // ---------------------------------------------------------------- wishes

  /** The condition of a wish; AND goes before OR. */
  predicate Satisfied(w: Wish, bits: bv32) {
    if w.option.and then Both(w.bits, bits) == w.bits else w.option.or && Both(w.bits, bits) != 0
  }

  /** What the thread receives. */
  function Got(w: Wish, bits: bv32): bv32 {
    Both(w.bits, bits)
  }

  function Left(w: Wish, bits: bv32): bv32 {
    if w.option.clear then Without(bits, Got(w, bits)) else bits
  }

  function WishOf(phase: map<Tid, Phase>, t: Tid): Wish {
    if t in phase && phase[t].Waiting? then phase[t].wish else Wish(0, Option(false, false, false))
  }

  // ---------------------------------------------------------------- the loop of rt_event_send

  /** What the walk along the waiters leaves of the set, of the list, and which threads it wakes with what. */
  datatype Walked = Walked(bits: bv32, waiters: seq<Tid>, woken: seq<(Tid, bv32)>)

  function Walk(list: seq<Tid>, phase: map<Tid, Phase>, bits: bv32): Walked {
    if list == [] then Walked(bits, [], [])
    else
      var t, w := list[0], WishOf(phase, list[0]);
      if Satisfied(w, bits) then
        var r := Walk(list[1..], phase, Left(w, bits));
        r.(woken := [(t, Got(w, bits))] + r.woken)
      else
        var r := Walk(list[1..], phase, bits);
        r.(waiters := [t] + r.waiters)
  }

  function Woken(phase: map<Tid, Phase>, woken: seq<(Tid, bv32)>): map<Tid, Phase>
    decreases |woken|
  {
    if woken == [] then phase else Woken(phase[woken[0].0 := Received(woken[0].1)], woken[1..])
  }

  // ---------------------------------------------------------------- the events

  datatype Event =
    | Send(bits: bv32)
    | Recv(t: Tid, wish: Wish, timeout: int, prio: Tid -> int)
    | Expire(t: Tid)
    | Return(t: Tid)
    | Reset

  predicate Enabled(s: Sys, e: Event) {
    match e
    case Recv(t, wish, _, _) => (t in s.phase ==> s.phase[t].Idle?) && (wish.option.and || wish.option.or)
    case Expire(t) => t in s.phase && s.phase[t].Waiting? && s.phase[t].timed
    case Return(t) => t in s.phase && (s.phase[t].Received? || s.phase[t].Leaving?)
    case _ => true
  }

  function SendStep(s: Sys, bits: bv32): Sys {
    if bits == 0 then s
    else
      var r := Walk(s.waiters, s.phase, Either(s.bits, bits));
      s.(bits := r.bits, waiters := r.waiters, phase := Woken(s.phase, r.woken))
  }

  /** What an immediately satisfied rt_event_recv leaves of the set. */
  function Taken(bits: bv32, w: Wish): bv32 {
    if w.option.clear then Without(bits, w.bits) else bits
  }

  function RecvStep(s: Sys, t: Tid, w: Wish, timeout: int, prio: Tid -> int): Sys {
    if w.bits == 0 then s.(phase := s.phase[t := Leaving(ERROR)])
    else if Satisfied(w, s.bits) then s.(bits := Taken(s.bits, w), phase := s.phase[t := Received(Got(w, s.bits))])
    else if timeout == 0 then s.(phase := s.phase[t := Leaving(ETIMEOUT)])
    else s.(waiters := Suspended(s.waiters, t, prio, s.flag), phase := s.phase[t := Waiting(w, timeout > 0)])
  }

  function Roused(phase: map<Tid, Phase>): map<Tid, Phase> {
    map t | t in phase :: if phase[t].Waiting? then Leaving(ERROR) else phase[t]
  }

  function Step(s: Sys, e: Event): Sys
    requires Enabled(s, e)
  {
    match e
    case Send(bits) => SendStep(s, bits)
    case Recv(t, w, timeout, prio) => RecvStep(s, t, w, timeout, prio)
    case Expire(t) => s.(waiters := Removed(s.waiters, t), phase := s.phase[t := Leaving(ETIMEOUT)])
    case Return(t) => s.(phase := s.phase[t := Idle])
    case Reset => s.(bits := 0, waiters := [], phase := Roused(s.phase))
  }

  /** A smaller set satisfies no more. */
  lemma SmallerSatisfiesLess(w: Wish, bits: bv32, other: bv32)
    requires Includes(bits, other) && Satisfied(w, other)
    ensures Satisfied(w, bits)
  {
  }

  lemma LeftIsPart(w: Wish, bits: bv32)
    ensures Includes(bits, Left(w, bits))
  {
    hide Both, Includes, Without;
    IncludesPart(bits, Got(w, bits));
  }

  // ---------------------------------------------------------------- what the walk does

  /** Nobody who stays in the list is satisfied by what is left, although the set shrinks on the way. */
  lemma {:induction false} WalkSettles(list: seq<Tid>, phase: map<Tid, Phase>, bits: bv32)
    ensures var r := Walk(list, phase, bits);
            Includes(bits, r.bits) && forall t :: t in r.waiters ==> !Satisfied(WishOf(phase, t), r.bits)
  {
    hide Satisfied, Left, Includes, Without, Both;
    if list == [] {
      IncludesPart(bits, 0);
    } else {
      var t, w := list[0], WishOf(phase, list[0]);
      if Satisfied(w, bits) {
        LeftIsPart(w, bits);
        WalkSettles(list[1..], phase, Left(w, bits));
        IncludesTrans(bits, Left(w, bits), Walk(list[1..], phase, Left(w, bits)).bits);
      } else {
        var r := Walk(list[1..], phase, bits);
        WalkSettles(list[1..], phase, bits);
        if Satisfied(w, r.bits) {
          SmallerSatisfiesLess(w, bits, r.bits);
        }
      }
    }
  }

  function Names(woken: seq<(Tid, bv32)>): seq<Tid> {
    if woken == [] then [] else [woken[0].0] + Names(woken[1..])
  }

  /** Every waiter either stays or is woken, and none of them twice. */
  lemma {:induction false} WalkMembers(list: seq<Tid>, phase: map<Tid, Phase>, bits: bv32)
    requires Unique(list)
    ensures var r := Walk(list, phase, bits);
            && Unique(r.waiters) && Unique(Names(r.woken))
            && forall t :: && (t in list <==> t in r.waiters || t in Names(r.woken))
                           && !(t in r.waiters && t in Names(r.woken))
  {
    hide Satisfied, Left, Got;
    if list != [] {
      var t, w, rest := list[0], WishOf(phase, list[0]), list[1..];
      assert list == [t] + rest && t !in rest;
      if Satisfied(w, bits) {
        WalkMembers(rest, phase, Left(w, bits));
        var r := Walk(rest, phase, Left(w, bits));
        assert Walk(list, phase, bits).woken == [(t, Got(w, bits))] + r.woken;
        assert ([(t, Got(w, bits))] + r.woken)[1..] == r.woken;
        FrontUnique(Names(r.woken), t);
      } else {
        WalkMembers(rest, phase, bits);
        FrontUnique(Walk(rest, phase, bits).waiters, t);
      }
    }
  }

  lemma {:induction false} WokenIs(phase: map<Tid, Phase>, woken: seq<(Tid, bv32)>)
    ensures forall t :: t !in Names(woken) ==> (t in Woken(phase, woken) <==> t in phase)
    ensures forall t :: t !in Names(woken) && t in phase ==> Woken(phase, woken)[t] == phase[t]
    ensures forall t :: t in Names(woken) ==> t in Woken(phase, woken) && Woken(phase, woken)[t].Received?
    decreases |woken|
  {
    if woken != [] {
      WokenIs(phase[woken[0].0 := Received(woken[0].1)], woken[1..]);
    }
  }

  lemma {:induction false} WokenOnce(phase: map<Tid, Phase>, gone: seq<(Tid, bv32)>, t: Tid, got: bv32)
    ensures Woken(phase, gone + [(t, got)]) == Woken(phase, gone)[t := Received(got)]
    decreases |gone|
  {
    var more := gone + [(t, got)];
    if gone == [] {
      assert more == [(t, got)] && more[1..] == [];
      assert Woken(phase[t := Received(got)], []) == phase[t := Received(got)];
    } else {
      assert more[1..] == gone[1..] + [(t, got)] && more[0] == gone[0];
      WokenOnce(phase[gone[0].0 := Received(gone[0].1)], gone[1..], t, got);
    }
  }

  // ---------------------------------------------------------------- the invariant

  /** The list holds exactly the waiting threads, and none of them waits for what is there. */
  ghost predicate Inv(s: Sys) {
    && Unique(s.waiters)
    && (forall t :: t in s.waiters <==> t in s.phase && s.phase[t].Waiting?)
    && (forall t :: t in s.waiters ==> !Satisfied(WishOf(s.phase, t), s.bits))
  }

  lemma SendInv(s: Sys, bits: bv32)
    requires Inv(s)
    ensures Inv(SendStep(s, bits))
  {
    hide Satisfied, Walk, Woken, Either, Both, Includes, Without;
    WalkSettles(s.waiters, s.phase, Either(s.bits, bits));
    WalkMembers(s.waiters, s.phase, Either(s.bits, bits));
    WokenIs(s.phase, Walk(s.waiters, s.phase, Either(s.bits, bits)).woken);
  }

  /** The set shrinks, and a thread that does not wait goes on. */
  lemma ShrinkInv(s: Sys, bits: bv32, t: Tid, p: Phase)
    requires Inv(s) && Includes(s.bits, bits) && t !in s.waiters && !p.Waiting?
    ensures Inv(s.(bits := bits, phase := s.phase[t := p]))
  {
    hide Satisfied, Includes, Unique;
    forall x | x in s.waiters ensures !Satisfied(WishOf(s.phase, x), bits) {
      if Satisfied(WishOf(s.phase, x), bits) {
        SmallerSatisfiesLess(WishOf(s.phase, x), s.bits, bits);
      }
    }
  }

  lemma WaitInv(s: Sys, t: Tid, w: Wish, timed: bool, prio: Tid -> int)
    requires Inv(s) && t !in s.waiters && !Satisfied(w, s.bits)
    ensures Inv(s.(waiters := Suspended(s.waiters, t, prio, s.flag), phase := s.phase[t := Waiting(w, timed)]))
  {
  }

  lemma RecvInv(s: Sys, t: Tid, w: Wish, timeout: int, prio: Tid -> int)
    requires Inv(s) && (t in s.phase ==> s.phase[t].Idle?)
    ensures Inv(RecvStep(s, t, w, timeout, prio))
  {
    assert t !in s.waiters;
    hide Satisfied, Includes, Without, Both, Suspended, Inv;
    IncludesPart(s.bits, w.bits);
    if w.bits != 0 && !Satisfied(w, s.bits) && timeout != 0 {
      WaitInv(s, t, w, timeout > 0, prio);
    } else {
      var s' := RecvStep(s, t, w, timeout, prio);
      ShrinkInv(s, s'.bits, t, s'.phase[t]);
    }
  }

  lemma StepInv(s: Sys, e: Event)
    requires Inv(s) && Enabled(s, e)
    ensures Inv(Step(s, e))
  {
    hide Satisfied;
    match e
    case Send(bits) => SendInv(s, bits);
    case Recv(t, w, timeout, prio) => RecvInv(s, t, w, timeout, prio);
    case Expire(t) => RemovedMembers(s.waiters, t);
    case Return(t) =>
    case Reset =>
  }

  ghost predicate Reaches(s: Sys, events: seq<Event>, s': Sys)
    decreases |events|
  {
    if events == [] then s == s' else Enabled(s, events[0]) && Reaches(Step(s, events[0]), events[1..], s')
  }

  /** In every reachable state no sleeping thread waits for something that has already happened. */
  lemma {:induction false} RunInv(s: Sys, events: seq<Event>, s': Sys)
    requires Inv(s) && Reaches(s, events, s')
    ensures Inv(s')
    decreases |events|
  {
    hide Inv, Step;
    if events != [] {
      StepInv(s, events[0]);
      RunInv(Step(s, events[0]), events[1..], s');
    }
  }

  lemma NoMissedEvent(flag: Flag, events: seq<Event>, s: Sys, t: Tid)
    requires Reaches(Sys(0, flag, [], map[]), events, s) && t in s.phase && s.phase[t].Waiting?
    ensures t in s.waiters && !Satisfied(s.phase[t].wish, s.bits)
  {
    RunInv(Sys(0, flag, [], map[]), events, s);
  }

  // ---------------------------------------------------------------- what the woken threads get

  /** Thread k of the woken ones gets all its events or some of them, as it asked, and only such as were there. */
  lemma {:induction false} WokenGets(list: seq<Tid>, phase: map<Tid, Phase>, bits: bv32, k: nat)
    requires k < |Walk(list, phase, bits).woken|
    ensures var (t, got) := Walk(list, phase, bits).woken[k];
            && t in list && Includes(bits, got)
            && (WishOf(phase, t).option.and ==> got == WishOf(phase, t).bits)
            && (!WishOf(phase, t).option.and ==> got != 0 && Includes(WishOf(phase, t).bits, got))
  {
    hide Both, Includes, Without, Either;
    var t, w := list[0], WishOf(phase, list[0]);
    if Satisfied(w, bits) {
      if k == 0 {
        IncludesBoth(w.bits, bits);
      } else {
        var got := Walk(list[1..], phase, Left(w, bits)).woken[k - 1].1;
        LeftIsPart(w, bits);
        WokenGets(list[1..], phase, Left(w, bits), k - 1);
        IncludesTrans(bits, Left(w, bits), got);
      }
    } else {
      WokenGets(list[1..], phase, bits, k);
    }
  }

  /** An event that a thread has cleared reaches nobody behind it. */
  lemma {:induction false} ClearedOnce(list: seq<Tid>, phase: map<Tid, Phase>, bits: bv32, i: nat, j: nat)
    requires i < j < |Walk(list, phase, bits).woken| && WishOf(phase, Walk(list, phase, bits).woken[i].0).option.clear
    ensures Both(Walk(list, phase, bits).woken[i].1, Walk(list, phase, bits).woken[j].1) == 0
    ensures Both(Walk(list, phase, bits).woken[i].1, Walk(list, phase, bits).bits) == 0
  {
    hide Both, Includes, Without, Either;
    var t, w := list[0], WishOf(phase, list[0]);
    if Satisfied(w, bits) {
      var r := Walk(list[1..], phase, Left(w, bits));
      if i == 0 {
        WokenGets(list[1..], phase, Left(w, bits), j - 1);
        WalkSettles(list[1..], phase, Left(w, bits));
        Apart(Got(w, bits), bits, r.woken[j - 1].1);
        Apart(Got(w, bits), bits, r.bits);
      } else {
        ClearedOnce(list[1..], phase, Left(w, bits), i - 1, j - 1);
      }
    } else {
      ClearedOnce(list[1..], phase, bits, i, j);
    }
  }

  /** The first waiter that the new set satisfies is always woken, with everything it asked for. */
  lemma {:induction false} FirstIsServed(list: seq<Tid>, phase: map<Tid, Phase>, bits: bv32, k: nat)
    requires k < |list| && Satisfied(WishOf(phase, list[k]), bits)
    requires forall i :: 0 <= i < k ==> !Satisfied(WishOf(phase, list[i]), bits)
    ensures Walk(list, phase, bits).woken != []
    ensures Walk(list, phase, bits).woken[0] == (list[k], Got(WishOf(phase, list[k]), bits))
  {
    hide Satisfied, Left, Got;
    if k > 0 {
      FirstIsServed(list[1..], phase, bits, k - 1);
    }
  }

  // ---------------------------------------------------------------- event by event

  /** m is one event. */
  predicate Single(m: bv32) {
    m != 0 && m & (m - 1) == 0
  }

  /** Event m is in the set. */
  predicate Has(x: bv32, m: bv32) {
    Both(x, m) != 0
  }

  /** What the operations on sets mean for one event, and that a set is the events in it. */
  lemma BitLaws(x: bv32, y: bv32, m: bv32)
    requires Single(m)
    ensures Has(Either(x, y), m) <==> Has(x, m) || Has(y, m)
    ensures Has(Both(x, y), m) <==> Has(x, m) && Has(y, m)
    ensures Has(Without(x, y), m) <==> Has(x, m) && !Has(y, m)
    ensures !Has(0, m)
  {
    hide Both, Either, Without, Single;
    SingleBit(x, m);
    SingleBit(y, m);
    MaskEither(x, y, m);
    MaskBoth(x, y, m);
    MaskWithout(x, y, m);
    MaskSelf(m);
  }

  lemma SingleBit(x: bv32, m: bv32)
    requires Single(m)
    ensures Both(x, m) == 0 || Both(x, m) == m
    ensures m != 0
  {
  }

  lemma MaskEither(x: bv32, y: bv32, m: bv32)
    ensures Both(Either(x, y), m) == Either(Both(x, m), Both(y, m))
  {
  }

  lemma MaskBoth(x: bv32, y: bv32, m: bv32)
    ensures Both(Both(x, y), m) == Both(Both(x, m), Both(y, m))
  {
  }

  lemma MaskWithout(x: bv32, y: bv32, m: bv32)
    ensures Both(Without(x, y), m) == Without(Both(x, m), Both(y, m))
  {
  }

  lemma MaskSelf(m: bv32)
    ensures Without(m, m) == 0 && Without(m, 0) == m && Without(0, m) == 0 && Without(0, 0) == 0
    ensures Both(m, m) == m && Both(m, 0) == 0 && Both(0, m) == 0 && Both(0, 0) == 0
    ensures Either(m, m) == m && Either(m, 0) == m && Either(0, m) == m && Either(0, 0) == 0
  {
  }

  /** A wish is satisfied: AND by all of its events, OR by one of them. */
  lemma SatisfiedIs(w: Wish, bits: bv32)
    ensures Satisfied(w, bits) <==>
            if w.option.and then forall m :: Single(m) && Has(w.bits, m) ==> Has(bits, m)
            else w.option.or && exists m :: Single(m) && Has(w.bits, m) && Has(bits, m)
  {
    var missing, common := Without(w.bits, bits), Both(w.bits, bits);
    if missing != 0 {
      var m := Lowest(missing);
      BitLaws(w.bits, bits, m);
    } else {
      MissingNone(w.bits, bits);
      forall m | Single(m) && Has(w.bits, m) ensures Has(bits, m) {
        BitLaws(w.bits, bits, m);
      }
    }
    if common != 0 {
      var m := Lowest(common);
      BitLaws(w.bits, bits, m);
    } else {
      forall m | Single(m) && Has(w.bits, m) ensures !Has(bits, m) {
        BitLaws(w.bits, bits, m);
      }
    }
    MissingSome(w.bits, bits);
  }

  lemma MissingNone(x: bv32, y: bv32)
    requires Without(x, y) == 0
    ensures Both(x, y) == x
  {
  }

  lemma MissingSome(x: bv32, y: bv32)
    ensures Without(x, y) != 0 ==> Both(x, y) != x
  {
  }

  /** The lowest event of a set that is not empty. */
  function Lowest(x: bv32): (m: bv32)
    requires x != 0
    ensures Single(m) && Has(x, m)
  {
    x & (0 - x)
  }

  /** Some thread that the walk wakes takes event m away. */
  ghost predicate Takes(woken: seq<(Tid, bv32)>, phase: map<Tid, Phase>, m: bv32) {
    exists k :: 0 <= k < |woken| && WishOf(phase, woken[k].0).option.clear && Has(woken[k].1, m)
  }

  lemma {:induction false} WalkBits(list: seq<Tid>, phase: map<Tid, Phase>, bits: bv32, m: bv32)
    requires Single(m)
    ensures var r := Walk(list, phase, bits); Has(r.bits, m) <==> Has(bits, m) && !Takes(r.woken, phase, m)
  {
    hide Both, Without, Single, Has, Satisfied;
    if list != [] {
      var t, w := list[0], WishOf(phase, list[0]);
      if Satisfied(w, bits) {
        var r := Walk(list[1..], phase, Left(w, bits));
        var woken := [(t, Got(w, bits))] + r.woken;
        WalkBits(list[1..], phase, Left(w, bits), m);
        BitLaws(bits, Got(w, bits), m);
        BitLaws(w.bits, bits, m);
        assert woken[0] == (t, Got(w, bits)) && forall k :: 0 < k < |woken| ==> woken[k] == r.woken[k - 1];
        if Takes(r.woken, phase, m) {
          var k :| 0 <= k < |r.woken| && WishOf(phase, r.woken[k].0).option.clear && Has(r.woken[k].1, m);
          assert woken[k + 1] == r.woken[k];
        }
      } else {
        WalkBits(list[1..], phase, bits, m);
      }
    }
  }

  /** What a thread has got is in its phase. */
  lemma {:induction false} WokenAt(phase: map<Tid, Phase>, woken: seq<(Tid, bv32)>, k: nat)
    requires Unique(Names(woken)) && k < |woken|
    ensures woken[k].0 in Woken(phase, woken) && Woken(phase, woken)[woken[k].0] == Received(woken[k].1)
    ensures |Names(woken)| == |woken| && Names(woken)[k] == woken[k].0
    decreases |woken|
  {
    var next := phase[woken[0].0 := Received(woken[0].1)];
    TailUnique(Names(woken));
    assert Names(woken)[1..] == Names(woken[1..]);
    if k == 0 {
      WokenIs(next, woken[1..]);
      if |woken| > 1 {
        WokenAt(next, woken[1..], 0);
      }
    } else {
      WokenAt(next, woken[1..], k - 1);
    }
  }

  /** A thread that waited has been woken by this step, with the clear option and with event m. */
  ghost predicate TookAway(s: Sys, s': Sys, t: Tid, m: bv32) {
    && t in s.waiters && t !in s'.waiters && WishOf(s.phase, t).option.clear
    && t in s'.phase && s'.phase[t].Received? && Has(s'.phase[t].got, m)
  }

  /**
   After a send an event is set if and only if it was set or was sent, and no woken thread that clears its events has
   got it.
   */
  lemma SendBits(s: Sys, bits: bv32, m: bv32)
    requires Inv(s) && Single(m)
    ensures var s' := SendStep(s, bits);
            Has(s'.bits, m) <==> (Has(s.bits, m) || Has(bits, m)) && !exists t :: TookAway(s, s', t, m)
  {
    hide Both, Without, Single, Has, Satisfied, Either, Walk, Woken;
    BitLaws(s.bits, bits, m);
    if bits == 0 {
      NoBits(m);
    } else {
      var r := Walk(s.waiters, s.phase, Either(s.bits, bits));
      WalkBits(s.waiters, s.phase, Either(s.bits, bits), m);
      WalkMembers(s.waiters, s.phase, Either(s.bits, bits));
      TakenAway(s, bits, r, m);
    }
  }

  lemma NoBits(m: bv32)
    ensures !Has(0, m)
  {
  }

  lemma TakenAway(s: Sys, bits: bv32, r: Walked, m: bv32)
    requires Inv(s) && bits != 0 && r == Walk(s.waiters, s.phase, Either(s.bits, bits))
    ensures (exists t :: TookAway(s, SendStep(s, bits), t, m)) <==> Takes(r.woken, s.phase, m)
  {
    hide Both, Without, Has, Satisfied, Either, Walk, Woken, Unique;
    var s' := SendStep(s, bits);
    WalkMembers(s.waiters, s.phase, Either(s.bits, bits));
    if Takes(r.woken, s.phase, m) {
      var k :| 0 <= k < |r.woken| && WishOf(s.phase, r.woken[k].0).option.clear && Has(r.woken[k].1, m);
      WokenAt(s.phase, r.woken, k);
      assert Names(r.woken)[k] in Names(r.woken);
      assert TookAway(s, s', r.woken[k].0, m);
    }
    if exists t :: TookAway(s, s', t, m) {
      var t :| TookAway(s, s', t, m);
      var k := NameAt(r.woken, t);
      WokenAt(s.phase, r.woken, k);
    }
  }

  lemma {:induction false} NameAt(woken: seq<(Tid, bv32)>, t: Tid) returns (k: nat)
    requires t in Names(woken)
    ensures k < |woken| && woken[k].0 == t
  {
    if woken[0].0 == t {
      k := 0;
    } else {
      k := NameAt(woken[1..], t);
      k := k + 1;
    }
  }

  /** What a receive leaves of the set, event by event: a satisfied one with the clear option takes what it asked. */
  lemma RecvBits(s: Sys, t: Tid, w: Wish, timeout: int, prio: Tid -> int, m: bv32)
    requires Single(m)
    ensures Has(RecvStep(s, t, w, timeout, prio).bits, m) <==>
            Has(s.bits, m) && !(w.bits != 0 && Satisfied(w, s.bits) && w.option.clear && Has(w.bits, m))
  {
    hide Both, Without, Single, Has, Satisfied, Suspended;
    BitLaws(s.bits, w.bits, m);
  }

  /** How a receive goes on: an empty wish is refused, a satisfied one gets its events, another one waits if it may. */
  lemma RecvAnswer(s: Sys, t: Tid, w: Wish, timeout: int, prio: Tid -> int, m: bv32)
    requires Single(m)
    ensures var p := RecvStep(s, t, w, timeout, prio).phase[t];
            && (p == Leaving(ERROR) <==> w.bits == 0)
            && (p.Received? <==> w.bits != 0 && Satisfied(w, s.bits))
            && (p.Received? ==> (Has(p.got, m) <==> Has(w.bits, m) && Has(s.bits, m)))
            && (p == Leaving(ETIMEOUT) <==> w.bits != 0 && !Satisfied(w, s.bits) && timeout == 0)
            && (p.Waiting? ==> p.wish == w && (p.timed <==> timeout > 0))
    ensures forall x :: x != t && x in s.phase ==> RecvStep(s, t, w, timeout, prio).phase[x] == s.phase[x]
  {
    hide Both, Without, Single, Has, Satisfied, Suspended;
    BitLaws(w.bits, s.bits, m);
  }
}
