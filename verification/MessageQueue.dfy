/** The message queue object of src/ipc.c, updated in place. */
module MessageQueue {

  import opened IpcList
  import opened MessagePool
  import opened MessageQueueProtocol

  class Queue {
    const flag: Flag
    const msgSize: nat
    const maxMsgs: nat
    var next: map<Node, Ptr>  // the pool: a pointer before each message
    var data: map<Node, Msg>
    var head: Ptr
    var tail: Ptr
    var free: Ptr
    var entry: nat
    var receivers: seq<Tid>

    function P(): Pool
      reads this
    {
      Pool(msgSize, next, data, head, tail, free, entry)
    }

    /** rt_mq_init */
    constructor (flag: Flag, size: nat, poolSize: nat, data: map<Node, Msg>)
      ensures P() == InitPool(size, poolSize, data) && receivers == [] && this.flag == flag
      ensures maxMsgs == MaxMsgs(size, poolSize)
    {
      var count := MaxMsgs(size, poolSize);
      var chain: map<Node, Ptr>, first := map[], Null;
      for temp := 0 to count
        invariant chain == InitNext(temp) && first == FirstFree(temp)
      {
        chain := chain[temp := first];
        first := At(temp);
      }
      this.flag, msgSize, maxMsgs, this.data := flag, Width(size), count, data;
      next, free, head, tail, entry, receivers := chain, first, Null, Null, 0, [];
    }

    /** The first section of rt_mq_send and rt_mq_urgent. */
    method Reserve(size: nat) returns (error: Error, node: Ptr)
      requires forall n :: free == At(n) ==> n in next
      modifies this`free
      ensures error == if size > msgSize then ERROR else if old(free).Null? then EFULL else EOK
      ensures if error.EOK? then node == old(free) && old(P()).free.At? && P() == Grab(old(P()))
              else node.Null? && P() == old(P())
    {
      if size > msgSize {
        return ERROR, Null;
      }
      if free.Null? {
        return EFULL, Null;
      }
      error, node := EOK, free;
      free := next[free.node];
    }

    /** The copy into a node that belongs to the sender. */
    method Write(n: Node, msg: Msg, urgent: bool)
      requires n in data && |msg| <= |data[n]|
      modifies this`next, this`data
      ensures P() == Fill(old(P()), n, msg, urgent)
    {
      if !urgent {
        next := next[n := Null];
      }
      data := data[n := msg + data[n][|msg|..]];
    }

    /** The second section of rt_mq_send; the first sleeping receiver is resumed. */
    method Append(n: Node) returns (woken: seq<Tid>)
      modifies this
      ensures P() == LinkTail(old(P()), n)
      ensures woken + receivers == old(receivers) && |woken| <= 1 && receivers == Rest(old(receivers))
    {
      if tail.At? {
        next := next[tail.node := At(n)];
      }
      tail := At(n);
      if head.Null? {
        head := At(n);
      }
      entry := entry + 1;
      woken := ResumeFirst();
    }

    /** The second section of rt_mq_urgent. */
    method Prepend(n: Node) returns (woken: seq<Tid>)
      modifies this
      ensures P() == LinkHead(old(P()), n)
      ensures woken + receivers == old(receivers) && |woken| <= 1 && receivers == Rest(old(receivers))
    {
      next := next[n := head];
      head := At(n);
      if tail.Null? {
        tail := At(n);
      }
      entry := entry + 1;
      woken := ResumeFirst();
    }

    method ResumeFirst() returns (woken: seq<Tid>)
      modifies this`receivers
      ensures woken + receivers == old(receivers) && |woken| <= 1 && receivers == Rest(old(receivers))
    {
      if receivers == [] {
        return [];
      }
      woken := [receivers[0]];
      receivers := receivers[1..];
    }

    /** A pass of rt_mq_recv through its loop, and the first section behind it. */
    method Receive(t: Tid, timeout: int, prio: Tid -> int) returns (error: Error, sleeps: bool, node: Ptr)
      requires entry > 0 ==> head.At? && head.node in next
      modifies this
      ensures old(entry) == 0 ==>
                P() == old(P()) && node.Null? && sleeps == (timeout != 0) && (!sleeps ==> error == ETIMEOUT)
      ensures old(entry) > 0 ==> P() == Pop(old(P())) && node == old(head) && !sleeps && error == EOK
      ensures receivers == if sleeps then Suspended(old(receivers), t, prio, flag) else old(receivers)
    {
      if entry == 0 {
        if timeout == 0 {
          return ETIMEOUT, false, Null;
        }
        receivers := Suspend(receivers, t, prio, flag);
        return EOK, true, Null;
      }
      node := head;
      head := next[node.node];
      if tail == node {
        tail := Null;
      }
      entry := entry - 1;
      error, sleeps := EOK, false;
    }

    /** The copy out of a node that belongs to the receiver. */
    method Read(n: Node, size: nat) returns (got: Msg)
      requires n in data && |data[n]| == msgSize
      ensures got == Fetch(P(), n, size)
    {
      got := data[n][..if size > msgSize then msgSize else size];
    }

    /** The second section of rt_mq_recv. */
    method GiveBack(n: Node)
      modifies this`next, this`free
      ensures P() == PutBack(old(P()), n)
    {
      next := next[n := free];
      free := At(n);
    }

    /** rt_mq_control with RT_IPC_CMD_RESET; the loop ends because the queue is a finite chain. */
    method Reset(ghost freeList: seq<Node>, ghost queue: seq<Node>) returns (woken: seq<Tid>)
      requires Lists(P(), freeList, queue)
      modifies this
      ensures P() == ResetPool(old(P())) && woken == old(receivers) && receivers == []
      ensures Lists(P(), Reversed(queue) + freeList, [])
    {
      ghost var start := P();
      ListsEntry(start, freeList, queue);
      DrainLists(start, freeList, queue, entry);
      woken := receivers;
      receivers := [];
      ghost var f, q := freeList, queue;
      while head.At?
        invariant Lists(P().(entry := |q|), f, q) && entry == start.entry && receivers == []
        invariant Drain(P(), |q|) == Drain(start, start.entry)
        decreases |q|
      {
        DrainOnce(P(), f, q);
        var n := head.node;
        head := next[n];
        if tail == At(n) {
          tail := Null;
        }
        next := next[n := free];
        free := At(n);
        f, q := [n] + f, q[1..];
      }
      ChainEnds(P().(entry := |q|), f, q);
      entry := 0;
    }

    /** What the object knows of the protocol's state. */
    ghost predicate Holds(s: Sys)
      reads this
    {
      s.pool == P() && s.receivers == receivers && s.flag == flag
    }

    /** Any event of the protocol; the phases are what the threads keep in their own variables. */
    method Do(e: Event, phases: map<Tid, Phase>, ghost s: Sys, ghost count: nat) returns (after: map<Tid, Phase>)
      requires Inv(s, count) && Holds(s) && phases == Seen(s.phase) && Enabled(s, e)
      modifies this
      ensures Holds(Step(s, e)) && after == Seen(Step(s, e).phase)
    {
      hide Inv, Lists, ResetPool, Recv, LinkStep, Seen, Fill, PutBack, Fetch, Removed;
      if e.Reset? {
        PoolFacts(s, count);
        SeenRoused(s.phase);
        var woken := Reset(s.free, s.queue);
        return Roused(phases);
      }
      var t := e.t;
      if t in phases {
        SeenAt(s.phase, t);
      }
      SeenUpdate(s.phase, t, PhaseOf(Step(s, e), t));
      match e
      case SendCall(_, msg, urgent) =>
        PoolFacts(s, count);
        var error, node := Reserve(|msg|);
        after := phases[t := if error.EOK? then Filling(node.node, msg, urgent) else Leaving(error)];
      case Write(_) =>
        HeldFacts(s, count, t);
        Write(phases[t].node, phases[t].msg, phases[t].urgent);
        after := phases[t := Linking(phases[t].node, phases[t].msg, phases[t].urgent)];
      case Link(_) => after := LinkFor(t, phases, s);
      case RecvCall(_, size, timeout, prio) => after := ReceiveFor(t, size, timeout, prio, phases, s, count);
      case RecvRetry(_, delta, prio) =>
        var left := Remaining(phases[t].timeout, delta);
        after := ReceiveFor(t, phases[t].size, left, prio, phases, s, count);
      case Read(_) =>
        HeldFacts(s, count, t);
        var got := Read(phases[t].node, phases[t].size);
        after := phases[t := Freeing(phases[t].node, [], got, phases[t].size)];
      case GiveBack(_) =>
        GiveBack(phases[t].node);
        after := phases[t := Received([], phases[t].got, phases[t].size)];
      case Expire(_) =>
        receivers := Removed(receivers, t);
        after := phases[t := Leaving(ETIMEOUT)];
      case Return(_) => after := phases[t := Idle];
    }

    method LinkFor(t: Tid, phases: map<Tid, Phase>, ghost s: Sys) returns (after: map<Tid, Phase>)
      requires Holds(s) && phases == Seen(s.phase) && Enabled(s, Link(t))
      modifies this
      ensures Holds(Step(s, Link(t))) && after == Seen(Step(s, Link(t)).phase)
    {
      hide Seen, LinkHead, LinkTail;
      SeenAt(s.phase, t);
      SeenResume(s.phase, s.receivers);
      SeenUpdate(Resume(s.phase, s.receivers), t, Leaving(EOK));
      var woken: seq<Tid>;
      if phases[t].urgent {
        woken := Prepend(phases[t].node);
      } else {
        woken := Append(phases[t].node);
      }
      OneWoken(woken, receivers, s.receivers);
      after := Resume(phases, woken)[t := Leaving(EOK)];
    }

    method ReceiveFor(t: Tid, size: nat, timeout: int, prio: Tid -> int, phases: map<Tid, Phase>, ghost s: Sys,
                      ghost count: nat)
      returns (after: map<Tid, Phase>)
      requires Inv(s, count) && Holds(s) && phases == Seen(s.phase)
      modifies this
      ensures Holds(Recv(s, t, size, timeout, prio)) && after == Seen(Recv(s, t, size, timeout, prio).phase)
    {
      hide Inv, Seen, Pop, Suspended;
      PoolFacts(s, count);
      SeenUpdate(s.phase, t, PhaseOf(Recv(s, t, size, timeout, prio), t));
      var error, sleeps, node := Receive(t, timeout, prio);
      if node.At? {
        after := phases[t := Draining(node.node, [], size)];
      } else {
        after := phases[t := if sleeps then Waiting(size, timeout, false) else Leaving(error)];
      }
    }
  }

  lemma OneWoken(woken: seq<Tid>, rest: seq<Tid>, list: seq<Tid>)
    requires woken + rest == list && |woken| <= 1 && rest == Rest(list)
    ensures forall phase :: Resume(phase, woken) == Resume(phase, list)
  {
    assert list != [] ==> woken == [list[0]];
  }

  /** What a thread knows of its phase: not which message it is about to get. */
  function Known(p: Phase): Phase {
    match p
    case Draining(n, _, size) => Draining(n, [], size)
    case Freeing(n, _, got, size) => Freeing(n, [], got, size)
    case Received(_, got, size) => Received([], got, size)
    case _ => p
  }

  function Seen(phase: map<Tid, Phase>): (r: map<Tid, Phase>)
    ensures r.Keys == phase.Keys
  {
    map t | t in phase :: Known(phase[t])
  }

  lemma SeenAt(phase: map<Tid, Phase>, t: Tid)
    requires t in phase
    ensures t in Seen(phase) && Seen(phase)[t] == Known(phase[t])
  {
  }

  lemma SeenUpdate(phase: map<Tid, Phase>, t: Tid, p: Phase)
    ensures Seen(phase[t := p]) == Seen(phase)[t := Known(p)]
  {
    hide Known;
  }

  lemma SeenRoused(phase: map<Tid, Phase>)
    ensures Seen(Roused(phase)) == Roused(Seen(phase))
  {
  }

  lemma SeenResume(phase: map<Tid, Phase>, list: seq<Tid>)
    ensures Seen(Resume(phase, list)) == Resume(Seen(phase), list)
  {
    if list != [] && list[0] in phase {
      SeenAt(phase, list[0]);
      hide Seen;
      if phase[list[0]].Waiting? {
        SeenUpdate(phase, list[0], phase[list[0]].(awake := true));
      }
    }
  }

  /** The pointers that the sections follow. */
  lemma PoolFacts(s: Sys, count: nat)
    requires Inv(s, count)
    ensures s.pool.entry == |s.deque| == |s.queue| && Lists(s.pool, s.free, s.queue)
    ensures s.pool.free.Null? <==> s.free == []
    ensures s.free != [] ==> s.pool.free.node in s.pool.next
    ensures s.queue != [] ==> s.pool.head.At? && s.pool.head.node in s.pool.next
  {
  }

  /** The node that a thread holds. */
  lemma HeldFacts(s: Sys, count: nat, t: Tid)
    requires Inv(s, count) && t in s.phase && HoldsNode(s.phase[t])
    ensures s.phase[t].node in s.pool.data && |s.pool.data[s.phase[t].node]| == s.pool.msgSize
    ensures s.phase[t].Filling? ==> |s.phase[t].msg| <= s.pool.msgSize
  {
    hide Lists;
    assert PhaseOk(s.pool, s.phase[t]);
    assert s.phase[t].node in s.held && s.phase[t].node < count;
  }

  /** One round of the reset loop. */
  lemma DrainOnce(p: Pool, free: seq<Node>, queue: seq<Node>)
    requires Lists(p.(entry := |queue|), free, queue) && p.head.At?
    ensures queue != [] && p.head.node == queue[0] && p.head.node in p.next
    ensures var p' := PutBack(Unlink(p), p.head.node);
            && Lists(p'.(entry := |queue| - 1), [queue[0]] + free, queue[1..])
            && Drain(p, |queue|) == Drain(p', |queue| - 1)
  {
    UnlinkLists(p.(entry := |queue|), free, queue);
    PutBackLists(Unlink(p).(entry := |queue| - 1), free, queue[1..], queue[0]);
    var p' := PutBack(Unlink(p), p.head.node);
    assert p'.(entry := |queue| - 1) == PutBack(Unlink(p).(entry := |queue| - 1), queue[0]);
  }

  lemma ChainEnds(p: Pool, free: seq<Node>, queue: seq<Node>)
    requires Lists(p, free, queue) && p.head.Null?
    ensures queue == [] && Drain(p, 0) == p
  {
  }

  /** Over every run of the protocol the object in place follows it, with what the threads know of it. */
  method Drive(q: Queue, events: seq<Event>, phases: map<Tid, Phase>, ghost s: Sys, ghost s': Sys, ghost count: nat)
    returns (after: map<Tid, Phase>)
    requires Inv(s, count) && q.Holds(s) && phases == Seen(s.phase) && Reaches(s, events, s')
    modifies q
    ensures q.Holds(s') && after == Seen(s'.phase)
  {
    hide Inv, Step, Enabled, Seen;
    after := phases;
    ghost var now := s;
    for i := 0 to |events|
      invariant Inv(now, count) && q.Holds(now) && after == Seen(now.phase) && Reaches(now, events[i..], s')
    {
      assert events[i..][0] == events[i] && events[i..][1..] == events[i + 1..];
      StepInv(now, events[i], count);
      after := q.Do(events[i], after, now, count);
      now := Step(now, events[i]);
    }
    assert events[|events|..] == [];
  }
}
