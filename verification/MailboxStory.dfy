/**
 What the clients of a mailbox of src/ipc.c see, told from the list of events
 alone: a bounded queue, calls with the value and the time they were given,
 and how each of them ends.  Waiting lists, wakeups and priorities do not
 appear; the protocol is proved to do exactly this.
 */
module MailboxStory {

  import opened IpcList
  import opened MailboxProtocol

  /** A call that has waited for some ticks, or what it has returned. */
  datatype Call =
    | Sends(value: int, timeout: int, waited: nat)
    | Receives(timeout: int, waited: nat)
    | Ended(error: Error)

  /** `sent` leaves out what a reset threw away. */
  datatype Story = Story(size: nat, calls: map<Tid, Call>, contents: seq<int>, sent: seq<int>, received: seq<int>)

  function TellSend(h: Story, t: Tid, v: int, timeout: int, waited: nat): Story {
    if |h.contents| < h.size then
      h.(contents := h.contents + [v], sent := h.sent + [v], calls := h.calls[t := Ended(EOK)])
    else h.(calls := h.calls[t := if OutOfTime(timeout, waited) then Ended(EFULL) else Sends(v, timeout, waited)])
  }

  function TellRecv(h: Story, t: Tid, timeout: int, waited: nat): Story {
    if h.contents != [] then
      h.(contents := h.contents[1..], received := h.received + [h.contents[0]], calls := h.calls[t := Ended(EOK)])
    else h.(calls := h.calls[t := if OutOfTime(timeout, waited) then Ended(ETIMEOUT) else Receives(timeout, waited)])
  }

  function Tell(h: Story, e: Event): Story {
    match e
    case SendCall(t, v, timeout, _) => TellSend(h, t, v, timeout, 0)
    case SendRetry(t, delta, _) =>
      if t in h.calls && h.calls[t].Sends? then
        TellSend(h, t, h.calls[t].value, h.calls[t].timeout, h.calls[t].waited + delta)
      else h
    case RecvCall(t, timeout, _) => TellRecv(h, t, timeout, 0)
    case RecvRetry(t, delta, _) =>
      if t in h.calls && h.calls[t].Receives? then TellRecv(h, t, h.calls[t].timeout, h.calls[t].waited + delta)
      else h
    case Expire(t) => h.(calls := h.calls[t := Ended(ETIMEOUT)])
    case Return(t) => h.(calls := h.calls - {t})
    case Reset => h.(contents := [], sent := h.received)
  }

  function Told(h: Story, events: seq<Event>): Story
    decreases |events|
  {
    if events == [] then h else Told(Tell(h, events[0]), events[1..])
  }

  // ---------------------------------------------------------------- the protocol does this

  /** The phase of a thread is what its call says; only a reset ends a call otherwise, with an error. */
  ghost predicate Fits(p: Phase, calls: map<Tid, Call>, t: Tid) {
    match p
    case Idle => t !in calls
    case Sending(v, left, _) =>
      && t in calls && calls[t].Sends? && v == calls[t].value && left == TimeLeft(calls[t].timeout, calls[t].waited)
      && !OutOfTime(calls[t].timeout, calls[t].waited)
    case Receiving(left, _) =>
      && t in calls && calls[t].Receives? && left == TimeLeft(calls[t].timeout, calls[t].waited)
      && !OutOfTime(calls[t].timeout, calls[t].waited)
    case Leaving(error) => t in calls && (calls[t] == Ended(error) || (error.ERROR? && !calls[t].Ended?))
  }

  ghost predicate Matches(s: Sys, h: Story) {
    && s.box.size == h.size && s.box.contents == h.contents && s.sent == h.sent && s.received == h.received
    && |h.contents| <= h.size
    && forall t :: Fits(PhaseOf(s, t), h.calls, t)
  }

  /** Waking somebody does not change what his call says. */
  lemma ResumeFits(phase: map<Tid, Phase>, list: seq<Tid>, calls: map<Tid, Call>, t: Tid)
    requires Fits(if t in phase then phase[t] else Idle, calls, t)
    ensures var r := Resume(phase, list); Fits(if t in r then r[t] else Idle, calls, t)
  {
  }

  lemma SendMatches(s: Sys, h: Story, t: Tid, v: int, timeout: int, waited: nat, left: int, prio: Tid -> int)
    requires Matches(s, h)
    requires left == if OutOfTime(timeout, waited) then 0 else TimeLeft(timeout, waited)
    requires !OutOfTime(timeout, waited) ==> left != 0
    ensures Matches(Send(s, t, v, left, prio), TellSend(h, t, v, timeout, waited))
  {
    hide Resume, Suspended;
    var s', h' := Send(s, t, v, left, prio), TellSend(h, t, v, timeout, waited);
    forall x ensures Fits(PhaseOf(s', x), h'.calls, x) {
      assert Fits(PhaseOf(s, x), h.calls, x);
      ResumeFits(s.phase, s.box.receivers, h.calls, x);
    }
  }

  lemma RecvMatches(s: Sys, h: Story, t: Tid, timeout: int, waited: nat, left: int, prio: Tid -> int)
    requires Matches(s, h)
    requires left == if OutOfTime(timeout, waited) then 0 else TimeLeft(timeout, waited)
    requires !OutOfTime(timeout, waited) ==> left != 0
    ensures Matches(Recv(s, t, left, prio), TellRecv(h, t, timeout, waited))
  {
    hide Resume, Suspended;
    var s', h' := Recv(s, t, left, prio), TellRecv(h, t, timeout, waited);
    forall x ensures Fits(PhaseOf(s', x), h'.calls, x) {
      assert Fits(PhaseOf(s, x), h.calls, x);
      ResumeFits(s.phase, s.box.senders, h.calls, x);
    }
  }

  lemma StepMatches(s: Sys, h: Story, e: Event)
    requires Matches(s, h) && Enabled(s, e)
    ensures Matches(Step(s, e), Tell(h, e))
  {
    hide Send, Recv, TellSend, TellRecv, Matches, Remaining;
    match e
    case SendCall(t, v, timeout, prio) => SendMatches(s, h, t, v, timeout, 0, timeout, prio);
    case SendRetry(t, delta, prio) =>
      FitsOf(s, h, t);
      LeftAgain(h.calls[t].timeout, h.calls[t].waited, delta);
      SendMatches(s, h, t, h.calls[t].value, h.calls[t].timeout, h.calls[t].waited + delta,
                  Remaining(s.phase[t].timeout, delta), prio);
    case RecvCall(t, timeout, prio) => RecvMatches(s, h, t, timeout, 0, timeout, prio);
    case RecvRetry(t, delta, prio) =>
      FitsOf(s, h, t);
      LeftAgain(h.calls[t].timeout, h.calls[t].waited, delta);
      RecvMatches(s, h, t, h.calls[t].timeout, h.calls[t].waited + delta, Remaining(s.phase[t].timeout, delta), prio);
    case _ => OtherMatches(s, h, e);
  }

  lemma FitsOf(s: Sys, h: Story, t: Tid)
    requires Matches(s, h)
    ensures Fits(PhaseOf(s, t), h.calls, t)
  {
  }

  lemma OtherMatches(s: Sys, h: Story, e: Event)
    requires Matches(s, h) && Enabled(s, e) && (e.Expire? || e.Return? || e.Reset?)
    ensures Matches(Step(s, e), Tell(h, e))
  {
    hide Removed;
    var s', h' := Step(s, e), Tell(h, e);
    forall x ensures Fits(PhaseOf(s', x), h'.calls, x) {
      assert Fits(PhaseOf(s, x), h.calls, x);
    }
  }

  lemma {:induction false} RunMatches(s: Sys, h: Story, events: seq<Event>, s': Sys)
    requires Matches(s, h) && Reaches(s, events, s')
    ensures Matches(s', Told(h, events))
    decreases |events|
  {
    hide Matches, Step, Tell, Enabled;
    if events != [] {
      StepMatches(s, h, events[0]);
      RunMatches(Step(s, events[0]), Tell(h, events[0]), events[1..], s');
    }
  }

  /**
   Whatever the threads do, the mailbox is the bounded queue of the story: the values in it are those that the
   completed calls were given, in the order in which they completed, and every call ends as the story says.
   */
  lemma MailboxIs(size: nat, flag: Flag, events: seq<Event>, s: Sys, t: Tid)
    requires Reaches(Init(size, flag), events, s)
    ensures var h := Told(Story(size, map[], [], [], []), events);
            && s.box.contents == h.contents && s.sent == h.sent && s.received == h.received
            && Fits(PhaseOf(s, t), h.calls, t)
  {
    RunMatches(Init(size, flag), Story(size, map[], [], [], []), events, s);
  }

  // ---------------------------------------------------------------- who is served first

  /** When each thread made its last step, counted in events from number n on. */
  function Since(since: map<Tid, int>, n: int, events: seq<Event>): map<Tid, int>
    decreases |events|
  {
    if events == [] then since
    else Since(if events[0].Reset? then since else since[events[0].t := n], n + 1, events[1..])
  }

  /** The threads have these priorities throughout. */
  ghost predicate Fixed(events: seq<Event>, prio: Tid -> int) {
    forall e :: e in events && (e.SendCall? || e.SendRetry? || e.RecvCall? || e.RecvRetry?) ==> e.prio == prio
  }

  ghost predicate Ranked(s: Sys, prio: Tid -> int, since: map<Tid, int>, n: int) {
    && Lined(s.box.senders, s.flag, prio, since) && Earlier(s.box.senders, since, n)
    && Lined(s.box.receivers, s.flag, prio, since) && Earlier(s.box.receivers, since, n)
  }

  lemma SendRanked(s: Sys, t: Tid, v: int, timeout: int, prio: Tid -> int, since: map<Tid, int>, n: int)
    requires Inv(s) && Runs(s, t, true) && Ranked(s, prio, since, n)
    ensures Ranked(Send(s, t, v, timeout, prio), prio, since[t := n], n + 1)
  {
    hide Suspended, Lined, Earlier;
    RunnerIsNotListed(s, t, true);
    hide Inv;
    SameLined(s.box.receivers, s.flag, prio, since, t, n);
    SameLined(s.box.senders, s.flag, prio, since, t, n);
    if |s.box.contents| == s.box.size {
      SuspendedLined(s.box.senders, t, s.flag, prio, since, n);
    } else if s.box.receivers != [] {
      TailLined(s.box.receivers, s.flag, prio, since, t, n);
    }
  }

  lemma RecvRanked(s: Sys, t: Tid, timeout: int, prio: Tid -> int, since: map<Tid, int>, n: int)
    requires Inv(s) && Runs(s, t, false) && Ranked(s, prio, since, n)
    ensures Ranked(Recv(s, t, timeout, prio), prio, since[t := n], n + 1)
  {
    hide Suspended, Lined, Earlier;
    RunnerIsNotListed(s, t, false);
    hide Inv;
    SameLined(s.box.receivers, s.flag, prio, since, t, n);
    SameLined(s.box.senders, s.flag, prio, since, t, n);
    if |s.box.contents| == 0 {
      SuspendedLined(s.box.receivers, t, s.flag, prio, since, n);
    } else if s.box.senders != [] {
      TailLined(s.box.senders, s.flag, prio, since, t, n);
    }
  }

  lemma LeaveRanked(s: Sys, t: Tid, prio: Tid -> int, since: map<Tid, int>, n: int)
    requires Inv(s) && Ranked(s, prio, since, n)
    ensures var r, q := Removed(s.box.receivers, t), Removed(s.box.senders, t);
            && Lined(r, s.flag, prio, since[t := n]) && Earlier(r, since[t := n], n + 1)
            && Lined(q, s.flag, prio, since[t := n]) && Earlier(q, since[t := n], n + 1)
  {
    hide Lined;
    RemovedMembers(s.box.receivers, t);
    RemovedMembers(s.box.senders, t);
    RemovedLined(s.box.receivers, s.flag, prio, since, t);
    RemovedLined(s.box.senders, s.flag, prio, since, t);
    hide Inv;
    SameLined(Removed(s.box.receivers, t), s.flag, prio, since, t, n);
    SameLined(Removed(s.box.senders, t), s.flag, prio, since, t, n);
  }

  lemma StepRanked(s: Sys, e: Event, prio: Tid -> int, since: map<Tid, int>, n: int)
    requires Inv(s) && Enabled(s, e) && Ranked(s, prio, since, n) && Fixed([e], prio)
    ensures Ranked(Step(s, e), prio, Since(since, n, [e]), n + 1)
  {
    hide Send, Recv, Removed, Lined;
    assert [e][1..] == [] && e in [e];
    match e
    case SendCall(t, v, timeout, _) => SendRanked(s, t, v, timeout, prio, since, n);
    case SendRetry(t, delta, _) =>
      SendRanked(s, t, s.phase[t].value, Remaining(s.phase[t].timeout, delta), prio, since, n);
    case RecvCall(t, timeout, _) => RecvRanked(s, t, timeout, prio, since, n);
    case RecvRetry(t, delta, _) => RecvRanked(s, t, Remaining(s.phase[t].timeout, delta), prio, since, n);
    case Expire(t) => LeaveRanked(s, t, prio, since, n);
    case Return(t) =>
      assert t !in s.box.receivers && t !in s.box.senders;
      SameLined(s.box.receivers, s.flag, prio, since, t, n);
      SameLined(s.box.senders, s.flag, prio, since, t, n);
    case Reset => NobodyLined(s.flag, prio, since, n + 1);
  }

  lemma {:induction false} RunRanked(
    s: Sys, events: seq<Event>, s': Sys, prio: Tid -> int, since: map<Tid, int>, n: int)
    requires Inv(s) && Reaches(s, events, s') && Ranked(s, prio, since, n) && Fixed(events, prio)
    ensures Ranked(s', prio, Since(since, n, events), n + |events|)
    decreases |events|
  {
    hide Inv, Ranked, Step, Enabled;
    if events != [] {
      var e := events[0];
      assert [e][1..] == [] && e in events;
      StepRanked(s, e, prio, since, n);
      StepInv(s, e);
      RunRanked(Step(s, e), events[1..], s', prio, Since(since, n, [e]), n + 1);
    }
  }

  /**
   The waiting lists are in the order that the flag promises: with FIFO by the time since which the threads wait, with
   PRIO by priority and among equals by that time.  The first of the list is resumed first.
   */
  lemma WaitersInOrder(size: nat, flag: Flag, events: seq<Event>, s: Sys, prio: Tid -> int)
    requires Reaches(Init(size, flag), events, s) && Fixed(events, prio)
    ensures Lined(s.box.senders, flag, prio, Since(map[], 0, events))
    ensures Lined(s.box.receivers, flag, prio, Since(map[], 0, events))
  {
    InitInv(size, flag);
    RunRanked(Init(size, flag), events, s, prio, map[], 0);
    SameFlag(Init(size, flag), events, s);
  }

  lemma {:induction false} SameFlag(s: Sys, events: seq<Event>, s': Sys)
    requires Reaches(s, events, s')
    ensures s'.flag == s.flag
    decreases |events|
  {
    if events != [] {
      SameFlag(Step(s, events[0]), events[1..], s');
    }
  }
}
