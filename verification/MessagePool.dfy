/**
 The nodes of a message queue in src/ipc.c: a pool of equal messages, chained
 by `next` pointers into a free list and a queue with head and tail.

 Each function is one section that runs with interrupts disabled, or the
 unlocked copy between two of them.
 */
module MessagePool {

  import opened Division
  import opened IpcList

  type Node = nat
  type Msg = seq<bv8>

  datatype Ptr = Null | At(node: Node)

  datatype Pool = Pool(msgSize: nat, next: map<Node, Ptr>, data: map<Node, Msg>,
                       head: Ptr, tail: Ptr, free: Ptr, entry: nat)

  function NextOf(p: Pool, n: Node): Ptr {
    if n in p.next then p.next[n] else Null
  }

  function DataOf(p: Pool, n: Node): Msg {
    if n in p.data then p.data[n] else []
  }

  function Min(x: nat, y: nat): nat {
    if x < y then x else y
  }

  /** The first section of rt_mq_send and rt_mq_urgent: the first free node is taken. */
  function Grab(p: Pool): Pool
    requires p.free.At?
  {
    p.(free := NextOf(p, p.free.node))
  }

  /** A message copied over the beginning of a node's data. */
  function Copied(msg: Msg, room: Msg): Msg {
    if |msg| <= |room| then msg + room[|msg|..] else msg
  }

  /** The unlocked part of a send: the node is no longer in any list. */
  function Fill(p: Pool, n: Node, msg: Msg, urgent: bool): Pool {
    p.(next := if urgent then p.next else p.next[n := Null], data := p.data[n := Copied(msg, DataOf(p, n))])
  }

  /** The second section of rt_mq_send. */
  function LinkTail(p: Pool, n: Node): Pool {
    p.(next := if p.tail.At? then p.next[p.tail.node := At(n)] else p.next,
       tail := At(n), head := if p.head.Null? then At(n) else p.head, entry := p.entry + 1)
  }

  /** The second section of rt_mq_urgent. */
  function LinkHead(p: Pool, n: Node): Pool {
    p.(next := p.next[n := p.head], head := At(n), tail := if p.tail.Null? then At(n) else p.tail, entry := p.entry + 1)
  }

  /** The head leaves the queue. */
  function Unlink(p: Pool): Pool
    requires p.head.At?
  {
    p.(head := NextOf(p, p.head.node), tail := if p.tail == p.head then Null else p.tail)
  }

  /** The first section of rt_mq_recv that finds a message. */
  function Pop(p: Pool): Pool
    requires p.head.At? && p.entry > 0
  {
    Unlink(p).(entry := p.entry - 1)
  }

  /** The unlocked copy of rt_mq_recv: as many bytes as the buffer and the message hold. */
  function Fetch(p: Pool, n: Node, size: nat): Msg {
    DataOf(p, n)[..Min(|DataOf(p, n)|, Min(size, p.msgSize))]
  }

  /** The second section of rt_mq_recv. */
  function PutBack(p: Pool, n: Node): Pool {
    p.(next := p.next[n := p.free], free := At(n))
  }

  /** The loop of a reset: at most k nodes go back to the free list. */
  function Drain(p: Pool, k: nat): Pool
    decreases k
  {
    if k == 0 || p.head.Null? then p else Drain(PutBack(Unlink(p), p.head.node), k - 1)
  }

  function ResetPool(p: Pool): Pool {
    Drain(p, p.entry).(entry := 0)
  }

  // ---------------------------------------------------------------- chains

  /** The nodes that the pointers run through from `start` to the end. */
  ghost predicate Chain(next: map<Node, Ptr>, start: Ptr, list: seq<Node>)
    decreases |list|
  {
    if list == [] then start.Null?
    else start == At(list[0]) && list[0] in next && Chain(next, next[list[0]], list[1..])
  }

  lemma {:induction false} ChainFrame(next: map<Node, Ptr>, start: Ptr, list: seq<Node>, n: Node, q: Ptr)
    requires Chain(next, start, list) && n !in list
    ensures Chain(next[n := q], start, list)
    decreases |list|
  {
    if list != [] {
      ChainFrame(next, next[list[0]], list[1..], n, q);
    }
  }

  lemma {:induction false} ChainAppend(next: map<Node, Ptr>, start: Ptr, list: seq<Node>, n: Node)
    requires Chain(next, start, list) && list != [] && Unique(list + [n]) && n in next && next[n].Null?
    ensures Chain(next[list[|list| - 1] := At(n)], start, list + [n])
    decreases |list|
  {
    var next' := next[list[|list| - 1] := At(n)];
    if |list| == 1 {
      assert list + [n] == [list[0], n] && (list + [n])[0] != (list + [n])[1];
      assert [list[0], n][1..] == [n] && [n][1..] == [];
      assert Chain(next', next'[n], []);
      assert Chain(next', At(n), [n]);
    } else {
      var rest := list[1..];
      assert rest[|rest| - 1] == list[|list| - 1] && (list + [n])[1..] == rest + [n];
      assert (list + [n])[0] != (list + [n])[|list| - 1];
      TailUnique(list + [n]);
      ChainAppend(next, next[list[0]], rest, n);
    }
  }

  // ---------------------------------------------------------------- the two lists

  /** The free list and the queue run through exactly these nodes. */
  ghost predicate Lists(p: Pool, free: seq<Node>, queue: seq<Node>) {
    && Unique(free) && Unique(queue) && (forall n :: n in free ==> n !in queue)
    && Chain(p.next, p.free, free) && Chain(p.next, p.head, queue)
    && p.tail == (if queue == [] then Null else At(queue[|queue| - 1]))
    && p.entry == |queue|
  }

  lemma GrabLists(p: Pool, free: seq<Node>, queue: seq<Node>)
    requires Lists(p, free, queue)
    ensures p.free.At? <==> free != []
    ensures free != [] ==>
              p.free.node == free[0] && free[0] !in free[1..] && free[0] !in queue && Lists(Grab(p), free[1..], queue)
  {
  }

  lemma FillLists(p: Pool, free: seq<Node>, queue: seq<Node>, n: Node, msg: Msg, urgent: bool)
    requires Lists(p, free, queue) && n !in free && n !in queue
    ensures Lists(Fill(p, n, msg, urgent), free, queue)
  {
    ChainFrame(p.next, p.free, free, n, Null);
    ChainFrame(p.next, p.head, queue, n, Null);
  }

  /** A send appends to the queue. */
  lemma LinkTailLists(p: Pool, free: seq<Node>, queue: seq<Node>, n: Node)
    requires Lists(p, free, queue) && n !in free && n !in queue && n in p.next && p.next[n].Null?
    ensures Lists(LinkTail(p, n), free, queue + [n])
  {
    BackUnique(queue, n);
    if queue == [] {
      assert queue + [n] == [n] && [n][1..] == [];
      assert Chain(p.next, p.next[n], []);
    } else {
      var last := queue[|queue| - 1];
      assert last in queue;
      ChainAppend(p.next, p.head, queue, n);
      ChainFrame(p.next, p.free, free, last, At(n));
    }
  }

  /** An urgent send puts the node in front. */
  lemma LinkHeadLists(p: Pool, free: seq<Node>, queue: seq<Node>, n: Node)
    requires Lists(p, free, queue) && n !in free && n !in queue
    ensures Lists(LinkHead(p, n), free, [n] + queue)
  {
    FrontUnique(queue, n);
    ChainFrame(p.next, p.free, free, n, p.head);
    ChainFrame(p.next, p.head, queue, n, p.head);
    assert ([n] + queue)[1..] == queue;
  }

  lemma UnlinkLists(p: Pool, free: seq<Node>, queue: seq<Node>)
    requires Lists(p, free, queue)
    ensures p.head.At? <==> queue != []
    ensures queue != [] ==>
              && p.head.node == queue[0] && queue[0] in p.next && queue[0] !in queue[1..] && queue[0] !in free
              && Lists(Unlink(p).(entry := |queue| - 1), free, queue[1..])
  {
  }

  lemma PutBackLists(p: Pool, free: seq<Node>, queue: seq<Node>, n: Node)
    requires Lists(p, free, queue) && n !in free && n !in queue
    ensures Lists(PutBack(p, n), [n] + free, queue)
  {
    FrontUnique(free, n);
    ChainFrame(p.next, p.free, free, n, p.free);
    ChainFrame(p.next, p.head, queue, n, p.free);
    assert ([n] + free)[1..] == free;
  }

  function Reversed(list: seq<Node>): seq<Node> {
    if list == [] then [] else Reversed(list[1..]) + [list[0]]
  }

  lemma {:induction false} ReversedMembers(list: seq<Node>)
    ensures forall x :: x in Reversed(list) <==> x in list
  {
    if list != [] {
      ReversedMembers(list[1..]);
      assert list == [list[0]] + list[1..];
    }
  }

  /** A reset drains the queue: every queued node becomes free, and the loop ends exactly with an empty queue. */
  lemma {:induction false} DrainLists(p: Pool, free: seq<Node>, queue: seq<Node>, k: nat)
    requires Lists(p.(entry := |queue|), free, queue) && k >= |queue|
    ensures Lists(Drain(p, k).(entry := 0), Reversed(queue) + free, []) && Drain(p, k).data == p.data
    ensures Drain(p, k).msgSize == p.msgSize && Drain(p, k).entry == p.entry && Drain(p, k).next.Keys == p.next.Keys
    ensures forall n: Node :: n !in queue && n in p.next ==> n in Drain(p, k).next && Drain(p, k).next[n] == p.next[n]
    decreases |queue|
  {
    hide Lists;
    UnlinkLists(p.(entry := |queue|), free, queue);
    if queue == [] {
      assert Reversed(queue) + free == free;
    } else {
      var n := queue[0];
      var p1 := Unlink(p).(entry := |queue| - 1);
      PutBackLists(p1, free, queue[1..], n);
      var p2 := PutBack(Unlink(p), n);
      assert p2.(entry := |queue| - 1) == PutBack(p1, n);
      DrainLists(p2, [n] + free, queue[1..], k - 1);
      assert Reversed(queue) + free == Reversed(queue[1..]) + ([n] + free);
    }
  }

  // ---------------------------------------------------------------- the pool of rt_mq_init

  /** msg_size: the size of a message, rounded up and cut to 16 bits. */
  function Width(size: nat): (w: nat)
    ensures w % 4 == 0 && w < 0x1_0000
  {
    Low16((size + 3) / 4 * 4)
  }

  /** A message of the size asked for fits into a node exactly up to 65532 bytes. */
  lemma WidthFits(size: nat)
    ensures size <= Width(size) <==> size <= 0x1_0000 - 4
  {
    if size <= 0x1_0000 - 4 {
      assert (size + 3) / 4 * 4 <= 0x1_0000 - 4;
    } else if size < 0x1_0000 {
      assert (size + 3) / 4 * 4 == 0x1_0000;
    }
  }

  /** How many nodes a pool of this many bytes holds; each node has a pointer of four bytes before its data. */
  function MaxMsgs(msgSize: nat, poolSize: nat): (r: nat)
    ensures r < 0x1_0000
  {
    Low16(Quotient(poolSize, Width(msgSize) + 4))
  }

  function Down(k: nat): seq<Node> {
    if k == 0 then [] else [k - 1] + Down(k - 1)
  }

  lemma {:induction false} DownMembers(k: nat)
    ensures Unique(Down(k)) && |Down(k)| == k && forall n: Node :: n in Down(k) <==> n < k
  {
    if k > 0 {
      DownMembers(k - 1);
      FrontUnique(Down(k - 1), k - 1);
    }
  }

  /** The pointers and the start of the free list after k rounds of the loop of rt_mq_init. */
  function FirstFree(k: nat): Ptr {
    if k == 0 then Null else At(k - 1)
  }

  function InitNext(k: nat): map<Node, Ptr> {
    if k == 0 then map[] else InitNext(k - 1)[k - 1 := FirstFree(k - 1)]
  }

  function InitPool(msgSize: nat, poolSize: nat, data: map<Node, Msg>): Pool {
    var count := MaxMsgs(msgSize, poolSize);
    Pool(Width(msgSize), InitNext(count), data, Null, Null, FirstFree(count), 0)
  }

  lemma {:induction false} DownChain(k: nat)
    ensures Chain(InitNext(k), FirstFree(k), Down(k)) && forall n: Node :: n in InitNext(k) <==> n < k
  {
    if k > 0 {
      DownChain(k - 1);
      DownMembers(k - 1);
      ChainFrame(InitNext(k - 1), FirstFree(k - 1), Down(k - 1), k - 1, FirstFree(k - 1));
      assert Down(k)[1..] == Down(k - 1);
    }
  }

  /** Every node lies inside the pool, and no two of them overlap. */
  lemma NodesFit(msgSize: nat, poolSize: nat, n: Node, m: Node)
    requires n < m < MaxMsgs(msgSize, poolSize)
    ensures var size := Width(msgSize) + 4; n * size + size <= m * size && m * size + size <= poolSize
  {
    hide Width, Low16, Quotient;
    var size := Width(msgSize) + 4;
    var q := Quotient(poolSize, size);
    QuotientIs(poolSize, size);
    ProductGap(n, m, size);
    ProductGap(m, q, size);
  }
}
