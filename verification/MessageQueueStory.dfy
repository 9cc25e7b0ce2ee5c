/**
 What the clients of a message queue of src/ipc.c see, told from the list of
 events alone: a double-ended queue of messages, the calls with what they were
 given, and how each of them ends.  Nodes, lists and wakeups do not appear.
 */
module MessageQueueStory {

  import opened IpcList
  import opened MessagePool
  import opened MessageQueueProtocol

  datatype Call =
    | Sends(msg: Msg, urgent: bool)
    | Receives(size: nat, timeout: int, waited: nat)
    | Takes(msg: Msg, size: nat)
    | Ended(error: Error)

  /** The messages that count as sent and are not yet taken. */
  datatype Story = Story(calls: map<Tid, Call>, deque: seq<Msg>)

  /** The message counts as sent: an urgent one goes to the front, any other to the back. */
  function TellLink(h: Story, t: Tid): Story {
    if t in h.calls && h.calls[t].Sends? then
      var msg := h.calls[t].msg;
      h.(deque := if h.calls[t].urgent then [msg] + h.deque else h.deque + [msg], calls := h.calls[t := Ended(EOK)])
    else h
  }

  /** The receiver takes the first message, or waits. */
  function TellRecv(h: Story, t: Tid, size: nat, timeout: int, waited: nat): Story {
    if h.deque != [] then h.(deque := h.deque[1..], calls := h.calls[t := Takes(h.deque[0], size)])
    else
      h.(calls := h.calls[t := if OutOfTime(timeout, waited) then Ended(ETIMEOUT) else Receives(size, timeout, waited)])
  }

  function Tell(h: Story, e: Event): Story {
    match e
    case SendCall(t, msg, urgent) => h.(calls := h.calls[t := Sends(msg, urgent)])
    case Link(t) => TellLink(h, t)
    case RecvCall(t, size, timeout, _) => TellRecv(h, t, size, timeout, 0)
    case RecvRetry(t, delta, _) =>
      if t in h.calls && h.calls[t].Receives? then
        TellRecv(h, t, h.calls[t].size, h.calls[t].timeout, h.calls[t].waited + delta)
      else h
    case Expire(t) => h.(calls := h.calls[t := Ended(ETIMEOUT)])
    case Return(t) => h.(calls := h.calls - {t})
    case Reset => h.(deque := [])
    case _ => h
  }

  function Told(h: Story, events: seq<Event>): Story
    decreases |events|
  {
    if events == [] then h else Told(Tell(h, events[0]), events[1..])
  }

  // ---------------------------------------------------------------- the protocol does this

  /**
   The phase of a thread is what its call says.  A send that was refused has failed as too long or as full, and a
   reset ends a waiting receive with an error.
   */
  ghost predicate Fits(p: Phase, calls: map<Tid, Call>, t: Tid) {
    match p
    case Idle => t !in calls
    case Filling(_, msg, urgent) => t in calls && calls[t] == Sends(msg, urgent)
    case Linking(_, msg, urgent) => t in calls && calls[t] == Sends(msg, urgent)
    case Waiting(size, left, _) =>
      && t in calls && calls[t].Receives? && size == calls[t].size
      && left == TimeLeft(calls[t].timeout, calls[t].waited)
      && !OutOfTime(calls[t].timeout, calls[t].waited)
    case Draining(_, msg, size) => t in calls && calls[t] == Takes(msg, size)
    case Freeing(_, msg, _, size) => t in calls && calls[t] == Takes(msg, size)
    case Received(msg, _, size) => t in calls && calls[t] == Takes(msg, size)
    case Leaving(error) =>
      && t in calls
      && (|| calls[t] == Ended(error)
          || (calls[t].Sends? && (error.ERROR? || error.EFULL?))
          || (calls[t].Receives? && error.ERROR?))
  }

  ghost predicate Matches(s: Sys, h: Story) {
    s.deque == h.deque && forall t :: Fits(PhaseOf(s, t), h.calls, t)
  }

  lemma RecvMatches(s: Sys, h: Story, count: nat, t: Tid, size: nat, timeout: int, waited: nat, left: int,
                    prio: Tid -> int)
    requires Inv(s, count) && Matches(s, h)
    requires left == if OutOfTime(timeout, waited) then 0 else TimeLeft(timeout, waited)
    requires !OutOfTime(timeout, waited) ==> left != 0
    ensures Matches(Recv(s, t, size, left, prio), TellRecv(h, t, size, timeout, waited))
  {
    Nonempty(s, count);
    hide Suspended, Inv, Pop, Fits;
    var s', h' := Recv(s, t, size, left, prio), TellRecv(h, t, size, timeout, waited);
    RecvFits(s'.phase[t], h'.calls, t, size, timeout, waited, left);
    forall x ensures Fits(PhaseOf(s', x), h'.calls, x) {
      if x != t {
        OtherFits(s, h, t, h'.calls[t], x);
      }
    }
  }

  lemma RecvFits(p: Phase, calls: map<Tid, Call>, t: Tid, size: nat, timeout: int, waited: nat, left: int)
    requires left == if OutOfTime(timeout, waited) then 0 else TimeLeft(timeout, waited)
    requires t in calls
    ensures p.Draining? && calls[t] == Takes(p.msg, p.size) ==> Fits(p, calls, t)
    ensures OutOfTime(timeout, waited) && p == Leaving(ETIMEOUT) && calls[t] == Ended(ETIMEOUT) ==> Fits(p, calls, t)
    ensures !OutOfTime(timeout, waited) ==>
              p == Waiting(size, left, false) && calls[t] == Receives(size, timeout, waited) ==> Fits(p, calls, t)
  {
  }

  lemma OtherFits(s: Sys, h: Story, t: Tid, c: Call, x: Tid)
    requires Matches(s, h) && x != t
    ensures Fits(PhaseOf(s, x), h.calls[t := c], x)
  {
    assert Fits(PhaseOf(s, x), h.calls, x);
  }

  lemma Nonempty(s: Sys, count: nat)
    requires Inv(s, count)
    ensures s.pool.entry == |s.deque| == |s.queue| && (s.queue != [] ==> s.pool.head.At?)
  {
  }

  lemma LinkMatches(s: Sys, h: Story, t: Tid)
    requires Matches(s, h) && Enabled(s, Link(t))
    ensures Matches(Step(s, Link(t)), TellLink(h, t))
  {
    hide LinkHead, LinkTail;
    var s', h' := Step(s, Link(t)), TellLink(h, t);
    assert Fits(PhaseOf(s, t), h.calls, t);
    forall x ensures Fits(PhaseOf(s', x), h'.calls, x) {
      assert Fits(PhaseOf(s, x), h.calls, x);
    }
  }

  lemma OtherMatches(s: Sys, h: Story, e: Event)
    requires Matches(s, h) && Enabled(s, e) && !e.RecvCall? && !e.RecvRetry? && !e.Link?
    ensures Matches(Step(s, e), Tell(h, e))
  {
    hide Removed, Fill, PutBack, ResetPool, Grab, Fetch, Reversed;
    var s', h' := Step(s, e), Tell(h, e);
    forall x ensures Fits(PhaseOf(s', x), h'.calls, x) {
      assert Fits(PhaseOf(s, x), h.calls, x);
    }
  }

  lemma FitsOf(s: Sys, h: Story, t: Tid)
    requires Matches(s, h)
    ensures Fits(PhaseOf(s, t), h.calls, t)
  {
  }

  lemma StepMatches(s: Sys, h: Story, e: Event, count: nat)
    requires Inv(s, count) && Matches(s, h) && Enabled(s, e)
    ensures Matches(Step(s, e), Tell(h, e))
  {
    hide Inv, Recv, TellRecv, TellLink, LinkStep, Matches, Remaining, Send;
    match e
    case Link(t) => LinkMatches(s, h, t);
    case RecvCall(t, size, timeout, prio) => RecvMatches(s, h, count, t, size, timeout, 0, timeout, prio);
    case RecvRetry(t, delta, prio) =>
      FitsOf(s, h, t);
      var c := h.calls[t];
      LeftAgain(c.timeout, c.waited, delta);
      RecvMatches(s, h, count, t, c.size, c.timeout, c.waited + delta, Remaining(s.phase[t].timeout, delta), prio);
    case _ => OtherMatches(s, h, e);
  }

  lemma {:induction false} RunMatches(s: Sys, h: Story, events: seq<Event>, s': Sys, count: nat)
    requires Inv(s, count) && Matches(s, h) && Reaches(s, events, s')
    ensures Matches(s', Told(h, events)) && Inv(s', count)
    decreases |events|
  {
    hide Inv, Matches, Step, Tell, Enabled;
    if events != [] {
      StepInv(s, events[0], count);
      StepMatches(s, h, events[0], count);
      RunMatches(Step(s, events[0]), Tell(h, events[0]), events[1..], s', count);
    }
  }

  /**
   Whatever the threads do, the queue is the double-ended queue of the story, stored in its order in the nodes from
   the head on; every call is where the story says; and a receiver that is done has the bytes of the message that it
   took there.
   */
  lemma QueueIs(msgSize: nat, poolSize: nat, data: map<Node, Msg>, flag: Flag, events: seq<Event>, s: Sys, t: Tid)
    requires forall n: Node :: n < MaxMsgs(msgSize, poolSize) ==> n in data && |data[n]| == Width(msgSize)
    requires Reaches(Init(msgSize, poolSize, data, flag), events, s)
    ensures var h := Told(Story(map[], []), events);
            && s.deque == h.deque && Deque(s.pool, s.queue, h.deque) && Chain(s.pool.next, s.pool.head, s.queue)
            && Fits(PhaseOf(s, t), h.calls, t)
            && (PhaseOf(s, t).Received? ==>
                  t in h.calls && h.calls[t].Takes? &&
                  Agrees(s.phase[t].got, h.calls[t].msg, h.calls[t].size, s.pool.msgSize))
  {
    hide MaxMsgs, Width;
    InitInv(msgSize, poolSize, data, flag);
    RunMatches(Init(msgSize, poolSize, data, flag), Story(map[], []), events, s, MaxMsgs(msgSize, poolSize));
    Delivery(msgSize, poolSize, data, flag, events, s, t);
  }

  /** When a send is refused: as too long exactly if it is, and otherwise as full exactly if no node is free. */
  lemma SendOutcome(s: Sys, count: nat, t: Tid, msg: Msg, urgent: bool)
    requires Inv(s, count) && Enabled(s, SendCall(t, msg, urgent))
    ensures var p := PhaseOf(Step(s, SendCall(t, msg, urgent)), t);
            && (p == Leaving(ERROR) <==> |msg| > s.pool.msgSize)
            && (p == Leaving(EFULL) <==>
                |msg| <= s.pool.msgSize && forall n: Node :: n < count ==> n in s.queue || n in s.held)
            && (p.Leaving? || (p.Filling? && p.msg == msg && p.urgent == urgent))
  {
    if |msg| <= s.pool.msgSize {
      FullMeans(s, count, t, msg, urgent);
    }
    hide Inv;
  }

  // ---------------------------------------------------------------- who is served first

  /** When each thread made its last step, counted in events from number n on. */
  function Since(since: map<Tid, int>, n: int, events: seq<Event>): map<Tid, int>
    decreases |events|
  {
    if events == [] then since
    else Since(if events[0].Reset? then since else since[events[0].t := n], n + 1, events[1..])
  }

  /** The threads have these priorities throughout. */
  ghost predicate Fixed(events: seq<Event>, prio: Tid -> int) {
    forall e :: e in events && (e.RecvCall? || e.RecvRetry?) ==> e.prio == prio
  }

  ghost predicate Ranked(s: Sys, prio: Tid -> int, since: map<Tid, int>, n: int) {
    Lined(s.receivers, s.flag, prio, since) && Earlier(s.receivers, since, n)
  }

  /** A thread that takes a step of its own is not in the list. */
  lemma NotListed(s: Sys, count: nat, t: Tid)
    requires Inv(s, count) && !Asleep(PhaseOf(s, t))
    ensures t !in s.receivers
  {
  }

  lemma RecvRanked(s: Sys, count: nat, t: Tid, size: nat, timeout: int, prio: Tid -> int, since: map<Tid, int>, n: int)
    requires Inv(s, count) && !Asleep(PhaseOf(s, t)) && Ranked(s, prio, since, n)
    ensures Ranked(Recv(s, t, size, timeout, prio), prio, since[t := n], n + 1)
  {
    NotListed(s, count, t);
    hide Inv, Suspended, Lined, Earlier, Pop;
    SameLined(s.receivers, s.flag, prio, since, t, n);
    SuspendedLined(s.receivers, t, s.flag, prio, since, n);
  }

  lemma LinkRanked(s: Sys, count: nat, t: Tid, prio: Tid -> int, since: map<Tid, int>, n: int)
    requires Inv(s, count) && Enabled(s, Link(t)) && Ranked(s, prio, since, n)
    ensures Ranked(Step(s, Link(t)), prio, since[t := n], n + 1)
  {
    NotListed(s, count, t);
    hide Inv, Lined, Earlier, LinkHead, LinkTail;
    if s.receivers == [] {
      SameLined(s.receivers, s.flag, prio, since, t, n);
    } else {
      assert t !in s.receivers[1..];
      TailLined(s.receivers, s.flag, prio, since, t, n);
    }
  }

  lemma ExpireRanked(s: Sys, count: nat, t: Tid, prio: Tid -> int, since: map<Tid, int>, n: int)
    requires Inv(s, count) && Ranked(s, prio, since, n)
    ensures Lined(Removed(s.receivers, t), s.flag, prio, since[t := n])
    ensures Earlier(Removed(s.receivers, t), since[t := n], n + 1)
  {
    hide Lined;
    RemovedMembers(s.receivers, t);
    RemovedLined(s.receivers, s.flag, prio, since, t);
    hide Inv;
    SameLined(Removed(s.receivers, t), s.flag, prio, since, t, n);
  }

  lemma StepRanked(s: Sys, count: nat, e: Event, prio: Tid -> int, since: map<Tid, int>, n: int)
    requires Inv(s, count) && Enabled(s, e) && Ranked(s, prio, since, n) && Fixed([e], prio)
    ensures Ranked(Step(s, e), prio, Since(since, n, [e]), n + 1)
  {
    hide Inv, Recv, Removed, Lined, LinkStep, Send, Fill, PutBack, ResetPool, Fetch;
    assert [e][1..] == [] && e in [e];
    match e
    case Link(t) => LinkRanked(s, count, t, prio, since, n);
    case RecvCall(t, size, timeout, _) => RecvRanked(s, count, t, size, timeout, prio, since, n);
    case RecvRetry(t, delta, _) =>
      RecvRanked(s, count, t, s.phase[t].size, Remaining(s.phase[t].timeout, delta), prio, since, n);
    case Expire(t) => ExpireRanked(s, count, t, prio, since, n);
    case Reset => NobodyLined(s.flag, prio, since, n + 1);
    case SendCall(t, msg, urgent) =>
      NotListed(s, count, t);
      SendKeeps(s, t, msg, urgent);
      SameLined(s.receivers, s.flag, prio, since, t, n);
    case _ =>
      NotListed(s, count, e.t);
      SameLined(s.receivers, s.flag, prio, since, e.t, n);
  }

  lemma SendKeeps(s: Sys, t: Tid, msg: Msg, urgent: bool)
    ensures Send(s, t, msg, urgent).receivers == s.receivers && Send(s, t, msg, urgent).flag == s.flag
  {
  }

  lemma {:induction false} RunRanked(s: Sys, count: nat, events: seq<Event>, s': Sys, prio: Tid -> int,
                                     since: map<Tid, int>, n: int)
    requires Inv(s, count) && Reaches(s, events, s') && Ranked(s, prio, since, n) && Fixed(events, prio)
    ensures Ranked(s', prio, Since(since, n, events), n + |events|)
    decreases |events|
  {
    hide Inv, Ranked, Step, Enabled;
    if events != [] {
      var e := events[0];
      assert [e][1..] == [] && e in events;
      StepRanked(s, count, e, prio, since, n);
      StepInv(s, e, count);
      RunRanked(Step(s, e), count, events[1..], s', prio, Since(since, n, [e]), n + 1);
    }
  }

  /** The receivers wait in the order that the flag promises, and the first of them is resumed first. */
  lemma ReceiversInOrder(msgSize: nat, poolSize: nat, data: map<Node, Msg>, flag: Flag, events: seq<Event>, s: Sys,
                         prio: Tid -> int)
    requires forall n: Node :: n < MaxMsgs(msgSize, poolSize) ==> n in data && |data[n]| == Width(msgSize)
    requires Reaches(Init(msgSize, poolSize, data, flag), events, s) && Fixed(events, prio)
    ensures Lined(s.receivers, flag, prio, Since(map[], 0, events))
  {
    hide MaxMsgs, Width, Inv;
    InitInv(msgSize, poolSize, data, flag);
    RunRanked(Init(msgSize, poolSize, data, flag), MaxMsgs(msgSize, poolSize), events, s, prio, map[], 0);
    SameFlag(Init(msgSize, poolSize, data, flag), events, s);
  }

  lemma {:induction false} SameFlag(s: Sys, events: seq<Event>, s': Sys)
    requires Reaches(s, events, s')
    ensures s'.flag == s.flag
    decreases |events|
  {
    hide Fill, PutBack, ResetPool, Grab, Pop, LinkHead, LinkTail;
    if events != [] {
      SameFlag(Step(s, events[0]), events[1..], s');
    }
  }
}
