/**
 The message queue of src/ipc.c as a protocol between threads.  A send and a
 receive have two critical sections each; between them a node is in flight and
 belongs to one thread, while every other event may happen.
 */
module MessageQueueProtocol {

  import opened IpcList
  import opened MessagePool

  datatype Error = EOK | EFULL | ETIMEOUT | ERROR

  /** Where a thread is in its call.  `msg` of a receiver is the message that was due to it when it took the node. */
  datatype Phase =
    | Idle
    | Filling(node: Node, msg: Msg, urgent: bool)
    | Linking(node: Node, msg: Msg, urgent: bool)
    | Waiting(size: nat, timeout: int, awake: bool)
    | Draining(node: Node, msg: Msg, size: nat)
    | Freeing(node: Node, msg: Msg, got: Msg, size: nat)
    | Received(msg: Msg, got: Msg, size: nat)
    | Leaving(error: Error)

  /** The object, its threads, and what a reader of the documentation sees: a double-ended queue of messages. */
  datatype Sys = Sys(pool: Pool, flag: Flag, receivers: seq<Tid>, phase: map<Tid, Phase>,
                     free: seq<Node>, queue: seq<Node>, held: map<Node, Tid>, deque: seq<Msg>)

  datatype Event =
    | SendCall(t: Tid, msg: Msg, urgent: bool)
    | Write(t: Tid)
    | Link(t: Tid)
    | RecvCall(t: Tid, size: nat, timeout: int, prio: Tid -> int)
    | RecvRetry(t: Tid, delta: nat, prio: Tid -> int)
    | Read(t: Tid)
    | GiveBack(t: Tid)
    | Expire(t: Tid)
    | Return(t: Tid)
    | Reset

  function PhaseOf(s: Sys, t: Tid): Phase {
    if t in s.phase then s.phase[t] else Idle
  }

  predicate Asleep(p: Phase) {
    p.Waiting? && !p.awake
  }

  predicate Woken(p: Phase) {
    p.Waiting? && p.awake
  }

  predicate HoldsNode(p: Phase) {
    p.Filling? || p.Linking? || p.Draining? || p.Freeing?
  }

  function To(s: Sys, t: Tid, p: Phase): Sys {
    s.(phase := s.phase[t := p])
  }

  // ---------------------------------------------------------------- the events

  function Send(s: Sys, t: Tid, msg: Msg, urgent: bool): Sys {
    if |msg| > s.pool.msgSize then To(s, t, Leaving(ERROR))
    else if s.pool.free.Null? || s.free == [] then To(s, t, Leaving(EFULL))
    else
      To(s.(pool := Grab(s.pool), free := s.free[1..], held := s.held[s.pool.free.node := t]),
         t, Filling(s.pool.free.node, msg, urgent))
  }

  /** rt_ipc_list_resume */
  function Resume(phase: map<Tid, Phase>, list: seq<Tid>): map<Tid, Phase> {
    if list == [] || list[0] !in phase || !phase[list[0]].Waiting? then phase
    else phase[list[0] := phase[list[0]].(awake := true)]
  }

  function Rest(list: seq<Tid>): seq<Tid> {
    if list == [] then [] else list[1..]
  }

  /** The second section of a send: the message counts as sent here. */
  function LinkStep(s: Sys, t: Tid, n: Node, msg: Msg, urgent: bool): Sys {
    s.(pool := if urgent then LinkHead(s.pool, n) else LinkTail(s.pool, n),
       queue := if urgent then [n] + s.queue else s.queue + [n],
       deque := if urgent then [msg] + s.deque else s.deque + [msg],
       held := s.held - {n},
       receivers := Rest(s.receivers),
       phase := Resume(s.phase, s.receivers)[t := Leaving(EOK)])
  }

  /** A pass of rt_mq_recv through its waiting loop, and the first section behind it. */
  function Recv(s: Sys, t: Tid, size: nat, timeout: int, prio: Tid -> int): Sys {
    if s.pool.entry == 0 then
      if timeout == 0 then To(s, t, Leaving(ETIMEOUT))
      else To(s.(receivers := Suspended(s.receivers, t, prio, s.flag)), t, Waiting(size, timeout, false))
    else if s.pool.head.Null? || s.queue == [] || s.deque == [] then s
    else
      To(s.(pool := Pop(s.pool), queue := s.queue[1..], deque := s.deque[1..], held := s.held[s.pool.head.node := t]),
         t, Draining(s.pool.head.node, s.deque[0], size))
  }

  /** rt_ipc_list_resume_all */
  function Roused(phase: map<Tid, Phase>): map<Tid, Phase> {
    map t | t in phase :: if Asleep(phase[t]) then Leaving(ERROR) else phase[t]
  }

  predicate Enabled(s: Sys, e: Event) {
    match e
    case SendCall(t, msg, _) => PhaseOf(s, t).Idle? && msg != []
    case Write(t) => PhaseOf(s, t).Filling?
    case Link(t) => PhaseOf(s, t).Linking?
    case RecvCall(t, size, _, _) => PhaseOf(s, t).Idle? && size != 0
    case RecvRetry(t, _, _) => Woken(PhaseOf(s, t))
    case Read(t) => PhaseOf(s, t).Draining?
    case GiveBack(t) => PhaseOf(s, t).Freeing?
    case Expire(t) => Asleep(PhaseOf(s, t)) && PhaseOf(s, t).timeout > 0
    case Return(t) => PhaseOf(s, t).Leaving? || PhaseOf(s, t).Received?
    case Reset => true
  }

  function Step(s: Sys, e: Event): Sys
    requires Enabled(s, e)
  {
    match e
    case SendCall(t, msg, urgent) => Send(s, t, msg, urgent)
    case Write(t) =>
      var p := s.phase[t];
      To(s.(pool := Fill(s.pool, p.node, p.msg, p.urgent)), t, Linking(p.node, p.msg, p.urgent))
    case Link(t) => LinkStep(s, t, s.phase[t].node, s.phase[t].msg, s.phase[t].urgent)
    case RecvCall(t, size, timeout, prio) => Recv(s, t, size, timeout, prio)
    case RecvRetry(t, delta, prio) => Recv(s, t, s.phase[t].size, Remaining(s.phase[t].timeout, delta), prio)
    case Read(t) =>
      var p := s.phase[t];
      To(s, t, Freeing(p.node, p.msg, Fetch(s.pool, p.node, p.size), p.size))
    case GiveBack(t) =>
      var p := s.phase[t];
      To(s.(pool := PutBack(s.pool, p.node), free := [p.node] + s.free, held := s.held - {p.node}),
         t, Received(p.msg, p.got, p.size))
    case Expire(t) => To(s.(receivers := Removed(s.receivers, t)), t, Leaving(ETIMEOUT))
    case Return(t) => To(s, t, Idle)
    case Reset =>
      s.(pool := ResetPool(s.pool), free := Reversed(s.queue) + s.free, queue := [], deque := [], receivers := [],
         phase := Roused(s.phase))
  }

  // ---------------------------------------------------------------- the invariant

  /** Every node is free, queued or held by one thread, and is only one of these. */
  ghost predicate Parts(free: seq<Node>, queue: seq<Node>, held: map<Node, Tid>, phase: map<Tid, Phase>, count: nat) {
    && (forall n: Node :: n < count <==> n in free || n in queue || n in held)
    && (forall n: Node :: n in held ==> n !in free && n !in queue)
    && (forall n: Node :: n in held ==> held[n] in phase && HoldsNode(phase[held[n]]) && phase[held[n]].node == n)
    && (forall t :: t in phase && HoldsNode(phase[t]) ==> phase[t].node in held && held[phase[t].node] == t)
  }

  /** The node holds the message at the beginning of its data. */
  predicate Stores(p: Pool, n: Node, msg: Msg) {
    n in p.data && msg <= p.data[n]
  }

  ghost predicate Sized(p: Pool, count: nat) {
    forall n: Node :: n < count ==> n in p.next && n in p.data && |p.data[n]| == p.msgSize
  }

  /** The queued nodes store the messages of the double-ended queue, in its order. */
  ghost predicate Deque(p: Pool, queue: seq<Node>, deque: seq<Msg>) {
    |deque| == |queue| && forall k :: 0 <= k < |queue| ==> Stores(p, queue[k], deque[k])
  }

  /** As many bytes as the message and the buffer both hold are those of the message. */
  predicate Agrees(got: Msg, msg: Msg, size: nat, msgSize: nat) {
    && |got| == Min(size, msgSize) && |msg| <= msgSize
    && got[..Min(|msg|, |got|)] == msg[..Min(|msg|, |got|)]
  }

  ghost predicate PhaseOk(p: Pool, x: Phase) {
    match x
    case Filling(_, msg, _) => |msg| <= p.msgSize
    case Linking(n, msg, urgent) => Stores(p, n, msg) && (!urgent ==> n in p.next && p.next[n].Null?)
    case Draining(n, msg, _) => Stores(p, n, msg)
    case Freeing(_, msg, got, size) => Agrees(got, msg, size, p.msgSize)
    case Received(msg, got, size) => Agrees(got, msg, size, p.msgSize)
    case _ => true
  }

  ghost predicate Phases(p: Pool, phase: map<Tid, Phase>) {
    forall t :: t in phase ==> PhaseOk(p, phase[t])
  }

  /** The list holds exactly the sleeping threads, once each. */
  ghost predicate Sleepers(list: seq<Tid>, phase: map<Tid, Phase>) {
    Unique(list) && forall t :: t in list <==> t in phase && Asleep(phase[t])
  }

  function WokenSet(phase: map<Tid, Phase>): set<Tid> {
    set t | t in phase && Woken(phase[t])
  }

  ghost predicate Waits(receivers: seq<Tid>, phase: map<Tid, Phase>, entry: nat) {
    Sleepers(receivers, phase) && (receivers != [] ==> entry <= |WokenSet(phase)|)
  }

  ghost predicate Inv(s: Sys, count: nat) {
    && Lists(s.pool, s.free, s.queue)
    && Parts(s.free, s.queue, s.held, s.phase, count)
    && Sized(s.pool, count) && Deque(s.pool, s.queue, s.deque)
    && Phases(s.pool, s.phase)
    && Waits(s.receivers, s.phase, s.pool.entry)
  }

  // ---------------------------------------------------------------- waiting

  lemma WokenUpdate(phase: map<Tid, Phase>, t: Tid, p: Phase)
    ensures WokenSet(phase[t := p]) == WokenSet(phase) - {t} + (if Woken(p) then {t} else {})
  {
  }

  lemma WokenChange(phase: map<Tid, Phase>, t: Tid, p: Phase)
    ensures Woken(p) && !(t in phase && Woken(phase[t])) ==> |WokenSet(phase[t := p])| == |WokenSet(phase)| + 1
    ensures !Woken(p) && t in phase && Woken(phase[t]) ==> |WokenSet(phase[t := p])| == |WokenSet(phase)| - 1
    ensures !Woken(p) && !(t in phase && Woken(phase[t])) ==> |WokenSet(phase[t := p])| == |WokenSet(phase)|
  {
    WokenUpdate(phase, t, p);
    var w := WokenSet(phase);
    assert t in w <==> t in phase && Woken(phase[t]);
    hide WokenSet, Woken;
    if t !in w {
      assert w - {t} == w;
    }
  }

  /** A thread that neither sleeps nor was woken goes on. */
  lemma WaitsSame(receivers: seq<Tid>, phase: map<Tid, Phase>, entry: nat, t: Tid, p: Phase)
    requires Waits(receivers, phase, entry) && !p.Waiting? && (t in phase ==> !phase[t].Waiting?)
    ensures Waits(receivers, phase[t := p], entry)
  {
    WokenChange(phase, t, p);
  }

  /** One more message, and one more promise. */
  lemma WaitsLink(receivers: seq<Tid>, phase: map<Tid, Phase>, entry: nat, t: Tid, p: Phase)
    requires Waits(receivers, phase, entry) && !p.Waiting? && (t in phase ==> !phase[t].Waiting?)
    ensures Waits(Rest(receivers), Resume(phase, receivers)[t := p], entry + 1)
  {
    if receivers != [] {
      var x := receivers[0];
      assert x in receivers;
      WokenChange(phase, x, phase[x].(awake := true));
      TailUnique(receivers);
    }
    WokenChange(Resume(phase, receivers), t, p);
  }

  /** A receiver takes a message; if it had been woken, it uses up its promise. */
  lemma WaitsTake(receivers: seq<Tid>, phase: map<Tid, Phase>, entry: nat, t: Tid, p: Phase)
    requires Waits(receivers, phase, entry) && !p.Waiting? && (t in phase ==> !Asleep(phase[t])) && entry > 0
    ensures Waits(receivers, phase[t := p], entry - 1)
  {
    WokenChange(phase, t, p);
  }

  lemma WaitsSleep(receivers: seq<Tid>, phase: map<Tid, Phase>, t: Tid, p: Phase, prio: Tid -> int, flag: Flag)
    requires Waits(receivers, phase, 0) && Asleep(p) && (t in phase ==> !Asleep(phase[t]))
    ensures Waits(Suspended(receivers, t, prio, flag), phase[t := p], 0)
  {
  }

  lemma WaitsGiveUp(receivers: seq<Tid>, phase: map<Tid, Phase>, t: Tid, p: Phase)
    requires Waits(receivers, phase, 0) && !p.Waiting? && (t in phase ==> !Asleep(phase[t]))
    ensures Waits(receivers, phase[t := p], 0)
  {
  }

  lemma WaitsExpire(receivers: seq<Tid>, phase: map<Tid, Phase>, entry: nat, t: Tid, p: Phase)
    requires Waits(receivers, phase, entry) && !p.Waiting? && t in phase && Asleep(phase[t])
    ensures Waits(Removed(receivers, t), phase[t := p], entry)
  {
    RemovedMembers(receivers, t);
    WokenChange(phase, t, p);
  }

  // ---------------------------------------------------------------- every event keeps the invariant

  /** A thread takes the first node of a list. */
  lemma PartsGrab(free: seq<Node>, queue: seq<Node>, held: map<Node, Tid>, phase: map<Tid, Phase>, count: nat, n: Node,
                  free': seq<Node>, queue': seq<Node>, t: Tid, p: Phase)
    requires Parts(free, queue, held, phase, count) && HoldsNode(p) && p.node == n
    requires t in phase ==> !HoldsNode(phase[t])
    requires forall x: Node :: x in free || x in queue <==> x in free' || x in queue' || x == n
    requires n !in free' && n !in queue'
    ensures Parts(free', queue', held[n := t], phase[t := p], count)
  {
  }

  /** A thread puts its node into a list. */
  lemma PartsGive(free: seq<Node>, queue: seq<Node>, held: map<Node, Tid>, phase: map<Tid, Phase>, count: nat, n: Node,
                  free': seq<Node>, queue': seq<Node>, t: Tid, p: Phase)
    requires Parts(free, queue, held, phase, count) && !HoldsNode(p) && t in phase && HoldsNode(phase[t])
    requires phase[t].node == n
    requires forall x: Node :: x in free' || x in queue' <==> x in free || x in queue || x == n
    ensures Parts(free', queue', held - {n}, phase[t := p], count)
  {
  }

  /** A thread goes on and keeps the node that it has, if any. */
  lemma PartsSame(free: seq<Node>, queue: seq<Node>, held: map<Node, Tid>, phase: map<Tid, Phase>, count: nat, t: Tid,
                  p: Phase)
    requires Parts(free, queue, held, phase, count)
    requires if t in phase && HoldsNode(phase[t]) then HoldsNode(p) && p.node == phase[t].node else !HoldsNode(p)
    ensures Parts(free, queue, held, phase[t := p], count)
  {
  }

  /** No other thread holds a node that is in a list, or the node that t holds. */
  lemma NotHeld(s: Sys, count: nat, t: Tid, n: Node)
    requires Parts(s.free, s.queue, s.held, s.phase, count)
    requires || n >= count || n in s.free || n in s.queue
             || (t in s.phase && HoldsNode(s.phase[t]) && s.phase[t].node == n)
    ensures forall u :: u in s.phase && u != t && HoldsNode(s.phase[u]) ==> s.phase[u].node != n
    ensures t in s.phase && HoldsNode(s.phase[t]) && s.phase[t].node == n ==> n < count && n !in s.free && n !in s.queue
  {
  }

  /** A change of one node, and of the thread that may hold it. */
  lemma PhasesChange(p: Pool, p': Pool, n: Node, phase: map<Tid, Phase>, t: Tid, x: Phase)
    requires Phases(p, phase) && PhaseOk(p', x) && p'.msgSize == p.msgSize
    requires forall m: Node :: m != n && m in p.next ==> m in p'.next && p'.next[m] == p.next[m]
    requires forall m: Node :: m != n && m in p.data ==> m in p'.data && p'.data[m] == p.data[m]
    requires forall u :: u in phase && u != t && HoldsNode(phase[u]) ==> phase[u].node != n
    ensures Phases(p', phase[t := x])
  {
  }

  lemma ResumeParts(s: Sys, count: nat)
    requires Parts(s.free, s.queue, s.held, s.phase, count) && Phases(s.pool, s.phase)
    ensures var phase' := Resume(s.phase, s.receivers);
            && Parts(s.free, s.queue, s.held, phase', count) && Phases(s.pool, phase')
            && forall t :: t in s.phase && HoldsNode(s.phase[t]) ==> t in phase' && phase'[t] == s.phase[t]
  {
  }

  lemma SendInv(s: Sys, count: nat, t: Tid, msg: Msg, urgent: bool)
    requires Inv(s, count) && PhaseOf(s, t).Idle?
    ensures Inv(Send(s, t, msg, urgent), count)
  {
    hide Lists, Waits, Stores, Parts, Phases, Sized;
    GrabLists(s.pool, s.free, s.queue);
    var s' := Send(s, t, msg, urgent);
    var p := s'.phase[t];
    WaitsSame(s.receivers, s.phase, s.pool.entry, t, p);
    NotHeld(s, count, t, count);
    PhasesChange(s.pool, s'.pool, count, s.phase, t, p);
    SizedSame(s.pool, s'.pool, count);
    if HoldsNode(p) {
      assert s.free == [s.free[0]] + s.free[1..];
      PartsGrab(s.free, s.queue, s.held, s.phase, count, p.node, s'.free, s'.queue, t, p);
    } else {
      PartsSame(s.free, s.queue, s.held, s.phase, count, t, p);
    }
    DequeSame(s.pool, s'.pool, s.queue, s.deque);
  }

  lemma SizedSame(p: Pool, p': Pool, count: nat)
    requires Sized(p, count) && p'.msgSize == p.msgSize && p'.data == p.data && p.next.Keys <= p'.next.Keys
    ensures Sized(p', count)
  {
  }

  lemma DequeSame(p: Pool, p': Pool, queue: seq<Node>, deque: seq<Msg>)
    requires Deque(p, queue, deque) && p'.data == p.data
    ensures Deque(p', queue, deque)
  {
  }

  lemma WriteInv(s: Sys, count: nat, t: Tid)
    requires Inv(s, count) && PhaseOf(s, t).Filling?
    ensures Inv(Step(s, Write(t)), count)
  {
    hide Lists, Waits, Parts, Phases;
    var p := s.phase[t];
    var s' := Step(s, Write(t));
    NotHeld(s, count, t, p.node);
    FillLists(s.pool, s.free, s.queue, p.node, p.msg, p.urgent);
    WaitsSame(s.receivers, s.phase, s.pool.entry, t, s'.phase[t]);
    assert PhaseOk(s.pool, p) by { PhaseKnown(s.pool, s.phase, t); }
    assert s'.pool.data[p.node][..|p.msg|] == p.msg;
    PhasesChange(s.pool, s'.pool, p.node, s.phase, t, s'.phase[t]);
    PartsSame(s.free, s.queue, s.held, s.phase, count, t, s'.phase[t]);
    forall k | 0 <= k < |s.queue| ensures Stores(s'.pool, s.queue[k], s.deque[k]) {
      assert s.queue[k] in s.queue;
    }
  }

  lemma PhaseKnown(p: Pool, phase: map<Tid, Phase>, t: Tid)
    requires Phases(p, phase) && t in phase
    ensures PhaseOk(p, phase[t])
  {
  }

  lemma LinkInv(s: Sys, count: nat, t: Tid)
    requires Inv(s, count) && PhaseOf(s, t).Linking?
    ensures Inv(Step(s, Link(t)), count)
  {
    hide Lists, Waits, Parts, Phases, Sized, Deque;
    var p, n := s.phase[t], s.phase[t].node;
    var s' := Step(s, Link(t));
    PhaseKnown(s.pool, s.phase, t);
    NotHeld(s, count, t, n);
    LinkPool(s.pool, s.free, s.queue, s.deque, n, p.msg, p.urgent, count);
    WaitsLink(s.receivers, s.phase, s.pool.entry, t, Leaving(EOK));
    ResumeParts(s, count);
    var r := s.(phase := Resume(s.phase, s.receivers));
    PartsGive(s.free, s.queue, s.held, r.phase, count, n, s'.free, s'.queue, t, Leaving(EOK));
    NotHeld(r, count, t, if p.urgent then n else LastOr(s.queue, n));
    PhasesChange(s.pool, s'.pool, if p.urgent then n else LastOr(s.queue, n), r.phase, t, Leaving(EOK));
  }

  function LastOr(list: seq<Node>, n: Node): (r: Node)
    ensures r in list || (list == [] && r == n)
  {
    if list == [] then n else list[|list| - 1]
  }

  /** The second section of a send, without the threads. */
  lemma LinkPool(p: Pool, free: seq<Node>, queue: seq<Node>, deque: seq<Msg>, n: Node, msg: Msg, urgent: bool,
                 count: nat)
    requires Lists(p, free, queue) && Deque(p, queue, deque) && Sized(p, count) && Stores(p, n, msg)
    requires n !in free && n !in queue && (!urgent ==> n in p.next && p.next[n].Null?)
    ensures var p' := if urgent then LinkHead(p, n) else LinkTail(p, n);
            && Lists(p', free, if urgent then [n] + queue else queue + [n])
            && Deque(p', if urgent then [n] + queue else queue + [n], if urgent then [msg] + deque else deque + [msg])
            && Sized(p', count) && p'.msgSize == p.msgSize && p'.data == p.data && p'.entry == p.entry + 1
            && forall m: Node :: m != (if urgent then n else LastOr(queue, n)) && m in p.next ==>
                 m in p'.next && p'.next[m] == p.next[m]
  {
    hide Lists, Deque, Sized, Stores;
    TailIs(p, free, queue);
    if urgent {
      LinkHeadLists(p, free, queue, n);
      DequeFront(p, LinkHead(p, n), queue, deque, n, msg);
      SizedSame(p, LinkHead(p, n), count);
    } else {
      LinkTailLists(p, free, queue, n);
      DequeBack(p, LinkTail(p, n), queue, deque, n, msg);
      SizedSame(p, LinkTail(p, n), count);
    }
  }

  lemma DequeFront(p: Pool, p': Pool, queue: seq<Node>, deque: seq<Msg>, n: Node, msg: Msg)
    requires Deque(p, queue, deque) && p'.data == p.data && Stores(p, n, msg)
    ensures Deque(p', [n] + queue, [msg] + deque)
  {
    forall k | 0 <= k < |queue| + 1 ensures Stores(p', ([n] + queue)[k], ([msg] + deque)[k]) {
      assert k > 0 ==> Stores(p, queue[k - 1], deque[k - 1]);
    }
  }

  lemma DequeBack(p: Pool, p': Pool, queue: seq<Node>, deque: seq<Msg>, n: Node, msg: Msg)
    requires Deque(p, queue, deque) && p'.data == p.data && Stores(p, n, msg)
    ensures Deque(p', queue + [n], deque + [msg])
  {
    forall k | 0 <= k < |queue| + 1 ensures Stores(p', (queue + [n])[k], (deque + [msg])[k]) {
      assert k < |queue| ==> Stores(p, queue[k], deque[k]);
    }
  }

  lemma TailIs(p: Pool, free: seq<Node>, queue: seq<Node>)
    requires Lists(p, free, queue)
    ensures p.tail == if queue == [] then Null else At(queue[|queue| - 1])
  {
  }

  lemma RecvInv(s: Sys, count: nat, t: Tid, size: nat, timeout: int, prio: Tid -> int)
    requires Inv(s, count) && !Asleep(PhaseOf(s, t)) && !HoldsNode(PhaseOf(s, t))
    ensures Inv(Recv(s, t, size, timeout, prio), count)
  {
    hide Lists, Waits, Parts, Phases, Sized, Deque, Stores;
    var s' := Recv(s, t, size, timeout, prio);
    NotHeld(s, count, t, count);
    if s.pool.entry == 0 {
      var p := if timeout == 0 then Leaving(ETIMEOUT) else Waiting(size, timeout, false);
      PartsSame(s.free, s.queue, s.held, s.phase, count, t, p);
      PhasesChange(s.pool, s.pool, count, s.phase, t, p);
      if timeout == 0 {
        WaitsGiveUp(s.receivers, s.phase, t, p);
      } else {
        WaitsSleep(s.receivers, s.phase, t, p, prio, s.flag);
      }
    } else {
      PopPool(s.pool, s.free, s.queue, s.deque, count);
      var p := Draining(s.queue[0], s.deque[0], size);
      PartsGrab(s.free, s.queue, s.held, s.phase, count, s.queue[0], s'.free, s'.queue, t, p);
      PhasesChange(s.pool, s'.pool, count, s.phase, t, p);
      WaitsTake(s.receivers, s.phase, s.pool.entry, t, p);
    }
  }

  /** The first section of a receive, without the threads. */
  lemma PopPool(p: Pool, free: seq<Node>, queue: seq<Node>, deque: seq<Msg>, count: nat)
    requires Lists(p, free, queue) && Deque(p, queue, deque) && Sized(p, count) && p.entry > 0
    ensures queue != [] && deque != [] && p.head == At(queue[0]) && Lists(Pop(p), free, queue[1..])
    ensures Deque(Pop(p), queue[1..], deque[1..]) && Sized(Pop(p), count) && Stores(Pop(p), queue[0], deque[0])
    ensures queue[0] !in queue[1..] && queue[0] !in free && forall x :: x in queue <==> x == queue[0] || x in queue[1..]
  {
    UnlinkLists(p, free, queue);
    TailUnique(queue);
  }

  lemma ReadInv(s: Sys, count: nat, t: Tid)
    requires Inv(s, count) && PhaseOf(s, t).Draining?
    ensures Inv(Step(s, Read(t)), count)
  {
    hide Lists, Waits, Parts, Phases, Deque;
    var p, s' := s.phase[t], Step(s, Read(t));
    PhaseKnown(s.pool, s.phase, t);
    NotHeld(s, count, t, p.node);
    WaitsSame(s.receivers, s.phase, s.pool.entry, t, s'.phase[t]);
    PartsSame(s.free, s.queue, s.held, s.phase, count, t, s'.phase[t]);
    FetchAgrees(p.msg, s.pool.data[p.node], Min(p.size, s.pool.msgSize));
    PhasesChange(s.pool, s.pool, p.node, s.phase, t, s'.phase[t]);
  }

  lemma FetchAgrees(msg: Msg, data: Msg, k: nat)
    requires msg <= data && k <= |data|
    ensures data[..k][..Min(|msg|, k)] == msg[..Min(|msg|, k)]
  {
  }

  lemma GiveBackInv(s: Sys, count: nat, t: Tid)
    requires Inv(s, count) && PhaseOf(s, t).Freeing?
    ensures Inv(Step(s, GiveBack(t)), count)
  {
    hide Lists, Waits, Parts, Phases, Sized, Deque;
    var p, s' := s.phase[t], Step(s, GiveBack(t));
    PhaseKnown(s.pool, s.phase, t);
    NotHeld(s, count, t, p.node);
    WaitsSame(s.receivers, s.phase, s.pool.entry, t, s'.phase[t]);
    PutBackLists(s.pool, s.free, s.queue, p.node);
    PartsGive(s.free, s.queue, s.held, s.phase, count, p.node, s'.free, s'.queue, t, s'.phase[t]);
    PhasesChange(s.pool, s'.pool, p.node, s.phase, t, s'.phase[t]);
    SizedSame(s.pool, s'.pool, count);
    DequeSame(s.pool, s'.pool, s.queue, s.deque);
  }

  /** An event that concerns no node. */
  lemma PhaseInv(s: Sys, count: nat, t: Tid, p: Phase, receivers: seq<Tid>)
    requires Inv(s, count) && !HoldsNode(PhaseOf(s, t)) && (p.Idle? || p.Leaving?)
    requires Waits(receivers, s.phase[t := p], s.pool.entry)
    ensures Inv(To(s.(receivers := receivers), t, p), count)
  {
    hide Lists, Waits, Parts, Phases, Sized, Deque;
    NotHeld(s, count, t, count);
    PartsSame(s.free, s.queue, s.held, s.phase, count, t, p);
    PhasesChange(s.pool, s.pool, count, s.phase, t, p);
  }

  /** A reset moves the queued nodes and leaves those in flight alone. */
  lemma ResetParts(s: Sys, free: seq<Node>, count: nat)
    requires Parts(s.free, s.queue, s.held, s.phase, count)
    requires forall n: Node :: n in free <==> n in s.free || n in s.queue
    ensures Parts(free, [], s.held, Roused(s.phase), count)
  {
  }

  lemma ResetPhases(s: Sys, p: Pool, count: nat)
    requires Phases(s.pool, s.phase) && Parts(s.free, s.queue, s.held, s.phase, count)
    requires p.data == s.pool.data && p.msgSize == s.pool.msgSize
    requires forall n: Node :: n !in s.queue && n in s.pool.next ==> n in p.next && p.next[n] == s.pool.next[n]
    ensures Phases(p, Roused(s.phase))
  {
  }

  lemma ResetInv(s: Sys, count: nat)
    requires Inv(s, count)
    ensures Inv(Step(s, Reset), count)
  {
    hide Lists, Parts, Phases, Sized, Drain;
    var s' := Step(s, Reset);
    ListsEntry(s.pool, s.free, s.queue);
    DrainLists(s.pool, s.free, s.queue, s.pool.entry);
    ReversedMembers(s.queue);
    ResetParts(s, s'.free, count);
    ResetPhases(s, s'.pool, count);
    SizedSame(s.pool, s'.pool, count);
  }

  lemma ListsEntry(p: Pool, free: seq<Node>, queue: seq<Node>)
    requires Lists(p, free, queue)
    ensures p.entry == |queue| && p.(entry := |queue|) == p
  {
  }

  /** Every event keeps the invariant. */
  lemma StepInv(s: Sys, e: Event, count: nat)
    requires Inv(s, count) && Enabled(s, e)
    ensures Inv(Step(s, e), count)
  {
    assert Waits(s.receivers, s.phase, s.pool.entry);
    hide Inv, Send, Recv, LinkStep, Waits;
    match e
    case SendCall(t, msg, urgent) => SendInv(s, count, t, msg, urgent);
    case Write(t) => WriteInv(s, count, t);
    case Link(t) => LinkInv(s, count, t);
    case RecvCall(t, size, timeout, prio) => RecvInv(s, count, t, size, timeout, prio);
    case RecvRetry(t, delta, prio) => RecvInv(s, count, t, s.phase[t].size, Remaining(s.phase[t].timeout, delta), prio);
    case Read(t) => ReadInv(s, count, t);
    case GiveBack(t) => GiveBackInv(s, count, t);
    case Expire(t) =>
      WaitsExpire(s.receivers, s.phase, s.pool.entry, t, Leaving(ETIMEOUT));
      PhaseInv(s, count, t, Leaving(ETIMEOUT), Removed(s.receivers, t));
    case Return(t) =>
      WaitsSame(s.receivers, s.phase, s.pool.entry, t, Idle);
      PhaseInv(s, count, t, Idle, s.receivers);
    case Reset => ResetInv(s, count);
  }

  // ---------------------------------------------------------------- all interleavings

  /** rt_mq_init, on a pool with any bytes in it. */
  function Init(msgSize: nat, poolSize: nat, data: map<Node, Msg>, flag: Flag): Sys {
    Sys(InitPool(msgSize, poolSize, data), flag, [], map[], Down(MaxMsgs(msgSize, poolSize)), [], map[], [])
  }

  lemma InitInv(msgSize: nat, poolSize: nat, data: map<Node, Msg>, flag: Flag)
    requires forall n: Node :: n < MaxMsgs(msgSize, poolSize) ==> n in data && |data[n]| == Width(msgSize)
    ensures Inv(Init(msgSize, poolSize, data, flag), MaxMsgs(msgSize, poolSize))
  {
    hide MaxMsgs, Width;
    var count := MaxMsgs(msgSize, poolSize);
    DownChain(count);
    DownMembers(count);
  }

  ghost predicate Reaches(s: Sys, events: seq<Event>, s': Sys)
    decreases |events|
  {
    if events == [] then s == s'
    else Enabled(s, events[0]) && Reaches(Step(s, events[0]), events[1..], s')
  }

  lemma {:induction false} RunInv(s: Sys, events: seq<Event>, s': Sys, count: nat)
    requires Inv(s, count) && Reaches(s, events, s')
    ensures Inv(s', count)
    decreases |events|
  {
    hide Inv, Step;
    if events != [] {
      StepInv(s, events[0], count);
      RunInv(Step(s, events[0]), events[1..], s', count);
    }
  }

  /**
   Whatever the threads do, the nodes are partitioned, and a receiver gets the message that was first when it took its
   node.
   */
  lemma Delivery(msgSize: nat, poolSize: nat, data: map<Node, Msg>, flag: Flag, events: seq<Event>, s: Sys, t: Tid)
    requires forall n: Node :: n < MaxMsgs(msgSize, poolSize) ==> n in data && |data[n]| == Width(msgSize)
    requires Reaches(Init(msgSize, poolSize, data, flag), events, s)
    ensures Parts(s.free, s.queue, s.held, s.phase, MaxMsgs(msgSize, poolSize))
    ensures s.pool.entry == |s.deque| && Deque(s.pool, s.queue, s.deque) && Chain(s.pool.next, s.pool.head, s.queue)
    ensures PhaseOf(s, t).Received? ==> Agrees(s.phase[t].got, s.phase[t].msg, s.phase[t].size, s.pool.msgSize)
  {
    hide MaxMsgs, Width;
    InitInv(msgSize, poolSize, data, flag);
    RunInv(Init(msgSize, poolSize, data, flag), events, s, MaxMsgs(msgSize, poolSize));
  }

  /** Once every woken receiver has run, a receiver sleeps only on an empty queue. */
  lemma QuietQueue(s: Sys, count: nat)
    requires Inv(s, count) && s.receivers != [] && forall t :: t in s.phase ==> !Woken(s.phase[t])
    ensures s.deque == [] && s.pool.head.Null? && s.pool.tail.Null?
  {
  }

  /** A send fails exactly if every node is queued or in flight. */
  lemma FullMeans(s: Sys, count: nat, t: Tid, msg: Msg, urgent: bool)
    requires Inv(s, count) && Enabled(s, SendCall(t, msg, urgent)) && |msg| <= s.pool.msgSize
    ensures PhaseOf(Step(s, SendCall(t, msg, urgent)), t) == Leaving(EFULL) <==>
            forall n: Node :: n < count ==> n in s.queue || n in s.held
  {
    GrabLists(s.pool, s.free, s.queue);
    hide Lists;
    if s.free != [] {
      assert s.free[0] in s.free;
    }
  }
}
