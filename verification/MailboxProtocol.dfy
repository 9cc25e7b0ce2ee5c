/**
 The blocking mailbox of src/ipc.c as a protocol between threads.

 One event is one section that runs with interrupts disabled: a pass of a
 sender or receiver through its waiting loop, a timeout of a sleeping thread,
 or a reset.  Between events any other event may happen, so a thread that has
 been woken may find that somebody else was faster.
 */
module MailboxProtocol {

  import opened IpcList

  datatype Error = EOK | EFULL | ETIMEOUT | ERROR

  /** Where a thread is in its call; a timeout below zero means forever. */
  datatype Phase =
    | Idle
    | Sending(value: int, timeout: int, awake: bool)
    | Receiving(timeout: int, awake: bool)
    | Leaving(error: Error)

  datatype Box = Box(size: nat, contents: seq<int>, receivers: seq<Tid>, senders: seq<Tid>)

  /** The mailbox, the threads that use it, and the values stored and fetched since the last reset. */
  datatype Sys = Sys(box: Box, flag: Flag, phase: map<Tid, Phase>, sent: seq<int>, received: seq<int>)

  datatype Event =
    | SendCall(t: Tid, value: int, timeout: int, prio: Tid -> int)
    | SendRetry(t: Tid, delta: nat, prio: Tid -> int)
    | RecvCall(t: Tid, timeout: int, prio: Tid -> int)
    | RecvRetry(t: Tid, delta: nat, prio: Tid -> int)
    | Expire(t: Tid)
    | Return(t: Tid)
    | Reset

  function PhaseOf(s: Sys, t: Tid): Phase {
    if t in s.phase then s.phase[t] else Idle
  }

  // ---------------------------------------------------------------- the sections

  /** One pass of rt_mb_send_wait through its loop, and the store behind it. */
  function SendSection(b: Box, t: Tid, v: int, timeout: int, prio: Tid -> int, flag: Flag): Box {
    if |b.contents| == b.size then
      if timeout == 0 then b else b.(senders := Suspended(b.senders, t, prio, flag))
    else
      b.(contents := b.contents + [v], receivers := if b.receivers == [] then [] else b.receivers[1..])
  }

  /** One pass of rt_mb_recv through its loop, and the fetch behind it. */
  function RecvSection(b: Box, t: Tid, timeout: int, prio: Tid -> int, flag: Flag): Box {
    if |b.contents| == 0 then
      if timeout == 0 then b else b.(receivers := Suspended(b.receivers, t, prio, flag))
    else
      b.(contents := b.contents[1..], senders := if b.senders == [] then [] else b.senders[1..])
  }

  function ResetSection(b: Box): Box {
    b.(contents := [], receivers := [], senders := [])
  }

  /** A resumed thread sleeps no more. */
  function Wake(p: Phase): Phase {
    match p
    case Sending(v, timeout, _) => Sending(v, timeout, true)
    case Receiving(timeout, _) => Receiving(timeout, true)
    case _ => p
  }

  /** rt_ipc_list_resume: the first thread of a list is resumed, if there is one. */
  function Resume(phase: map<Tid, Phase>, list: seq<Tid>): map<Tid, Phase> {
    if list == [] || list[0] !in phase then phase else phase[list[0] := Wake(phase[list[0]])]
  }

  function Send(s: Sys, t: Tid, v: int, timeout: int, prio: Tid -> int): Sys {
    var box' := SendSection(s.box, t, v, timeout, prio, s.flag);
    if |s.box.contents| == s.box.size then
      s.(box := box', phase := s.phase[t := if timeout == 0 then Leaving(EFULL) else Sending(v, timeout, false)])
    else
      s.(box := box', phase := Resume(s.phase, s.box.receivers)[t := Leaving(EOK)], sent := s.sent + [v])
  }

  function Recv(s: Sys, t: Tid, timeout: int, prio: Tid -> int): Sys {
    var box' := RecvSection(s.box, t, timeout, prio, s.flag);
    if |s.box.contents| == 0 then
      s.(box := box', phase := s.phase[t := if timeout == 0 then Leaving(ETIMEOUT) else Receiving(timeout, false)])
    else
      s.(box := box', phase := Resume(s.phase, s.box.senders)[t := Leaving(EOK)],
         received := s.received + [s.box.contents[0]])
  }

  /** A thread in this phase sleeps (awake false) or has been woken (awake true) as a sender or a receiver. */
  predicate Is(p: Phase, sender: bool, awake: bool) {
    if sender then p.Sending? && p.awake == awake else p.Receiving? && p.awake == awake
  }

  predicate Asleep(s: Sys, t: Tid) {
    t in s.phase && (Is(s.phase[t], true, false) || Is(s.phase[t], false, false))
  }

  predicate Enabled(s: Sys, e: Event) {
    match e
    case SendCall(t, _, _, _) => PhaseOf(s, t).Idle?
    case RecvCall(t, _, _) => PhaseOf(s, t).Idle?
    case SendRetry(t, _, _) => PhaseOf(s, t).Sending? && PhaseOf(s, t).awake
    case RecvRetry(t, _, _) => PhaseOf(s, t).Receiving? && PhaseOf(s, t).awake
    case Expire(t) => Asleep(s, t) && s.phase[t].timeout > 0
    case Return(t) => PhaseOf(s, t).Leaving?
    case Reset => true
  }

  function Step(s: Sys, e: Event): Sys
    requires Enabled(s, e)
  {
    match e
    case SendCall(t, v, timeout, prio) => Send(s, t, v, timeout, prio)
    case SendRetry(t, delta, prio) => Send(s, t, s.phase[t].value, Remaining(s.phase[t].timeout, delta), prio)
    case RecvCall(t, timeout, prio) => Recv(s, t, timeout, prio)
    case RecvRetry(t, delta, prio) => Recv(s, t, Remaining(s.phase[t].timeout, delta), prio)
    case Expire(t) =>
      s.(box := s.box.(receivers := Removed(s.box.receivers, t), senders := Removed(s.box.senders, t)),
         phase := s.phase[t := Leaving(ETIMEOUT)])
    case Return(t) => s.(phase := s.phase[t := Idle])
    case Reset =>
      s.(box := ResetSection(s.box), sent := s.received,
         phase := map t | t in s.phase :: if Asleep(s, t) then Leaving(ERROR) else s.phase[t])
  }

  // ---------------------------------------------------------------- the invariant

  /** The list holds exactly the threads that sleep on it, once each. */
  ghost predicate Sleepers(list: seq<Tid>, phase: map<Tid, Phase>, sender: bool) {
    Unique(list) && forall t :: t in list <==> t in phase && Is(phase[t], sender, false)
  }

  /** The threads that have been resumed and have not run yet. */
  function WokenSet(phase: map<Tid, Phase>, sender: bool): set<Tid> {
    set t | t in phase && Is(phase[t], sender, true)
  }

  /** No value is lost, duplicated or reordered. */
  ghost predicate InOrder(s: Sys) {
    |s.box.contents| <= s.box.size && s.received + s.box.contents == s.sent
  }

  /** While somebody sleeps, everything there is for him is already promised to a woken thread. */
  ghost predicate NoLostWakeup(s: Sys) {
    && (s.box.receivers != [] ==> |s.box.contents| <= |WokenSet(s.phase, false)|)
    && (s.box.senders != [] ==> s.box.size - |s.box.contents| <= |WokenSet(s.phase, true)|)
  }

  ghost predicate Inv(s: Sys) {
    && Sleepers(s.box.receivers, s.phase, false)
    && Sleepers(s.box.senders, s.phase, true)
    && InOrder(s)
    && NoLostWakeup(s)
  }

  function Init(size: nat, flag: Flag): Sys {
    Sys(Box(size, [], [], []), flag, map[], [], [])
  }

  lemma InitInv(size: nat, flag: Flag)
    ensures Inv(Init(size, flag))
  {
  }

  // ---------------------------------------------------------------- one thread changes its phase

  lemma WokenUpdate(phase: map<Tid, Phase>, t: Tid, p: Phase, sender: bool)
    ensures WokenSet(phase[t := p], sender) ==
            WokenSet(phase, sender) - {t} + (if Is(p, sender, true) then {t} else {})
  {
  }

  /** The size of a set of woken threads after one of them has run, or another one has been woken. */
  lemma WokenCount(phase: map<Tid, Phase>, t: Tid, p: Phase, sender: bool)
    ensures Is(p, sender, true) && !(t in phase && Is(phase[t], sender, true)) ==>
              |WokenSet(phase[t := p], sender)| == |WokenSet(phase, sender)| + 1
    ensures |WokenSet(phase[t := p], sender)| >= |WokenSet(phase, sender)| - 1
    ensures !(t in phase && Is(phase[t], sender, true)) ==>
              |WokenSet(phase[t := p], sender)| >= |WokenSet(phase, sender)|
  {
    WokenUpdate(phase, t, p, sender);
    if t !in WokenSet(phase, sender) {
      assert WokenSet(phase, sender) - {t} == WokenSet(phase, sender);
    }
  }

  lemma SleepersOther(list: seq<Tid>, phase: map<Tid, Phase>, t: Tid, p: Phase, sender: bool)
    requires Sleepers(list, phase, sender) && t !in list && !Is(p, sender, false)
    ensures Sleepers(list, phase[t := p], sender)
  {
  }

  lemma SleepersAdd(list: seq<Tid>, phase: map<Tid, Phase>, t: Tid, p: Phase, sender: bool, prio: Tid -> int,
                    flag: Flag)
    requires Sleepers(list, phase, sender) && t !in list && Is(p, sender, false)
    ensures Sleepers(Suspended(list, t, prio, flag), phase[t := p], sender)
  {
    SuspendedMembers(list, t, prio, flag);
  }

  lemma SleepersPop(list: seq<Tid>, phase: map<Tid, Phase>, sender: bool)
    requires Sleepers(list, phase, sender) && list != []
    ensures list[0] in phase && Is(phase[list[0]], sender, false) && Is(Wake(phase[list[0]]), sender, true)
    ensures Sleepers(list[1..], Resume(phase, list), sender)
  {
    assert list[0] in list && list == [list[0]] + list[1..];
  }

  lemma SleepersRemove(list: seq<Tid>, phase: map<Tid, Phase>, t: Tid, p: Phase, sender: bool)
    requires Sleepers(list, phase, sender) && !Is(p, sender, false)
    ensures Sleepers(Removed(list, t), phase[t := p], sender)
  {
    RemovedMembers(list, t);
  }

  // ---------------------------------------------------------------- every event keeps the invariant

  /** The thread t is about to run a section as a sender or a receiver: it is not asleep. */
  ghost predicate Runs(s: Sys, t: Tid, sender: bool) {
    PhaseOf(s, t).Idle? || Is(PhaseOf(s, t), sender, true)
  }

  lemma RunnerIsNotListed(s: Sys, t: Tid, sender: bool)
    requires Inv(s) && Runs(s, t, sender)
    ensures t !in s.box.receivers && t !in s.box.senders
    ensures !(t in s.phase && Is(s.phase[t], !sender, true))
  {
  }

  /** Resuming the head of one list: what it does to both lists and to the promises. */
  lemma ResumeFacts(phase: map<Tid, Phase>, list: seq<Tid>, other: seq<Tid>, sender: bool)
    requires Sleepers(list, phase, sender) && Sleepers(other, phase, !sender)
    ensures Sleepers(if list == [] then [] else list[1..], Resume(phase, list), sender)
    ensures Sleepers(other, Resume(phase, list), !sender)
    ensures list != [] ==> |WokenSet(Resume(phase, list), sender)| == |WokenSet(phase, sender)| + 1
    ensures WokenSet(Resume(phase, list), !sender) == WokenSet(phase, !sender)
    ensures forall t :: t in Resume(phase, list) && t !in list ==> t in phase && Resume(phase, list)[t] == phase[t]
  {
    if list != [] {
      var x := list[0];
      SleepersPop(list, phase, sender);
      SleepersOther(other, phase, x, Wake(phase[x]), !sender);
      WokenCount(phase, x, Wake(phase[x]), sender);
      WokenUpdate(phase, x, Wake(phase[x]), !sender);
    }
  }

  lemma SendInv(s: Sys, t: Tid, v: int, timeout: int, prio: Tid -> int)
    requires Inv(s) && Runs(s, t, true)
    ensures Inv(Send(s, t, v, timeout, prio))
  {
    RunnerIsNotListed(s, t, true);
    hide Sleepers, WokenSet;
    if |s.box.contents| == s.box.size {
      var p := if timeout == 0 then Leaving(EFULL) else Sending(v, timeout, false);
      SleepersOther(s.box.receivers, s.phase, t, p, false);
      WokenCount(s.phase, t, p, false);
      if timeout == 0 {
        SleepersOther(s.box.senders, s.phase, t, p, true);
      } else {
        SleepersAdd(s.box.senders, s.phase, t, p, true, prio, s.flag);
      }
    } else {
      var rest := if s.box.receivers == [] then [] else s.box.receivers[1..];
      var phase' := Resume(s.phase, s.box.receivers);
      ResumeFacts(s.phase, s.box.receivers, s.box.senders, false);
      assert t !in rest;
      SleepersOther(rest, phase', t, Leaving(EOK), false);
      SleepersOther(s.box.senders, phase', t, Leaving(EOK), true);
      WokenCount(phase', t, Leaving(EOK), false);
      WokenCount(phase', t, Leaving(EOK), true);
    }
  }

  lemma FetchInOrder(s: Sys)
    requires InOrder(s) && s.box.contents != []
    ensures s.received + [s.box.contents[0]] + s.box.contents[1..] == s.sent
  {
    assert s.box.contents == [s.box.contents[0]] + s.box.contents[1..];
  }

  lemma RecvInv(s: Sys, t: Tid, timeout: int, prio: Tid -> int)
    requires Inv(s) && Runs(s, t, false)
    ensures Inv(Recv(s, t, timeout, prio))
  {
    RunnerIsNotListed(s, t, false);
    hide Sleepers, WokenSet;
    if |s.box.contents| == 0 {
      var p := if timeout == 0 then Leaving(ETIMEOUT) else Receiving(timeout, false);
      SleepersOther(s.box.senders, s.phase, t, p, true);
      WokenCount(s.phase, t, p, true);
      if timeout == 0 {
        SleepersOther(s.box.receivers, s.phase, t, p, false);
      } else {
        SleepersAdd(s.box.receivers, s.phase, t, p, false, prio, s.flag);
      }
    } else {
      var rest := if s.box.senders == [] then [] else s.box.senders[1..];
      var phase' := Resume(s.phase, s.box.senders);
      FetchInOrder(s);
      ResumeFacts(s.phase, s.box.senders, s.box.receivers, true);
      assert t !in rest;
      SleepersOther(rest, phase', t, Leaving(EOK), true);
      SleepersOther(s.box.receivers, phase', t, Leaving(EOK), false);
      WokenCount(phase', t, Leaving(EOK), true);
      WokenCount(phase', t, Leaving(EOK), false);
    }
  }

  lemma ExpireInv(s: Sys, t: Tid)
    requires Inv(s) && Enabled(s, Expire(t))
    ensures Inv(Step(s, Expire(t)))
  {
    hide Sleepers, WokenSet;
    SleepersRemove(s.box.receivers, s.phase, t, Leaving(ETIMEOUT), false);
    SleepersRemove(s.box.senders, s.phase, t, Leaving(ETIMEOUT), true);
    WokenCount(s.phase, t, Leaving(ETIMEOUT), false);
    WokenCount(s.phase, t, Leaving(ETIMEOUT), true);
  }

  lemma ReturnInv(s: Sys, t: Tid)
    requires Inv(s) && Enabled(s, Return(t))
    ensures Inv(Step(s, Return(t)))
  {
    assert t !in s.box.receivers && t !in s.box.senders;
    hide Sleepers, WokenSet;
    SleepersOther(s.box.receivers, s.phase, t, Idle, false);
    SleepersOther(s.box.senders, s.phase, t, Idle, true);
    WokenCount(s.phase, t, Idle, false);
    WokenCount(s.phase, t, Idle, true);
  }

  lemma ResetInv(s: Sys)
    requires Inv(s)
    ensures Inv(Step(s, Reset))
  {
  }

  /** Every event keeps the invariant. */
  lemma StepInv(s: Sys, e: Event)
    requires Inv(s) && Enabled(s, e)
    ensures Inv(Step(s, e))
  {
    hide Inv, Send, Recv;
    match e
    case SendCall(t, v, timeout, prio) => SendInv(s, t, v, timeout, prio);
    case SendRetry(t, delta, prio) =>
      SendInv(s, t, s.phase[t].value, Remaining(s.phase[t].timeout, delta), prio);
    case RecvCall(t, timeout, prio) => RecvInv(s, t, timeout, prio);
    case RecvRetry(t, delta, prio) => RecvInv(s, t, Remaining(s.phase[t].timeout, delta), prio);
    case Expire(t) => ExpireInv(s, t);
    case Return(t) => ReturnInv(s, t);
    case Reset => ResetInv(s);
  }

  // ---------------------------------------------------------------- all interleavings

  ghost predicate Reaches(s: Sys, events: seq<Event>, s': Sys)
    decreases |events|
  {
    if events == [] then s == s'
    else Enabled(s, events[0]) && Reaches(Step(s, events[0]), events[1..], s')
  }

  /** The invariant holds after every interleaving of calls, retries, timeouts and resets. */
  lemma {:induction false} RunInv(s: Sys, events: seq<Event>, s': Sys)
    requires Inv(s) && Reaches(s, events, s')
    ensures Inv(s')
    decreases |events|
  {
    if events != [] {
      StepInv(s, events[0]);
      RunInv(Step(s, events[0]), events[1..], s');
    }
  }

  /** The values received are always the first of the values sent, in the order of sending. */
  lemma Fifo(size: nat, flag: Flag, events: seq<Event>, s: Sys)
    requires Reaches(Init(size, flag), events, s)
    ensures s.received <= s.sent && s.sent[|s.received|..] == s.box.contents && |s.box.contents| <= size
  {
    InitInv(size, flag);
    RunInv(Init(size, flag), events, s);
    RunSize(Init(size, flag), events, s);
  }

  lemma {:induction false} RunSize(s: Sys, events: seq<Event>, s': Sys)
    requires Inv(s) && Reaches(s, events, s')
    ensures s'.box.size == s.box.size
    decreases |events|
  {
    if events != [] {
      StepInv(s, events[0]);
      RunSize(Step(s, events[0]), events[1..], s');
    }
  }

  /** Once every woken thread has run, a receiver sleeps only on an empty box and a sender only on a full one. */
  lemma QuietBox(size: nat, flag: Flag, events: seq<Event>, s: Sys)
    requires Reaches(Init(size, flag), events, s)
    requires forall t :: t in s.phase && (s.phase[t].Sending? || s.phase[t].Receiving?) ==> !s.phase[t].awake
    ensures s.box.receivers != [] ==> s.box.contents == []
    ensures s.box.senders != [] ==> |s.box.contents| == s.box.size
    ensures size > 0 ==> s.box.receivers == [] || s.box.senders == []
  {
    InitInv(size, flag);
    RunInv(Init(size, flag), events, s);
    RunSize(Init(size, flag), events, s);
    assert WokenSet(s.phase, false) == {} && WokenSet(s.phase, true) == {};
  }
}
