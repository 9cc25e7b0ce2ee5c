/**
 The mailbox object of src/ipc.c: a ring buffer of values and two lists of
 suspended threads.  Each method is one section that the source runs with
 interrupts disabled, proved against the section of MailboxProtocol.
 */
module Mailbox {

  import opened IpcList
  import P = MailboxProtocol

  datatype Outcome = Done | Refused | Blocked

  class Box {
    const size: nat
    const flag: Flag
    const msgPool: array<int>
    var entry: nat
    var inOffset: nat
    var outOffset: nat
    var receivers: seq<Tid>
    var senders: seq<Tid>

    ghost predicate Valid()
      reads this
    {
      && msgPool.Length >= size
      && entry <= size
      && (size == 0 ==> inOffset == outOffset == 0)
      && (size > 0 ==> outOffset < size && inOffset == Slot(entry))
    }

    /** The buffer position of the i-th value from the front. */
    function Slot(i: nat): int
      reads this
    {
      if outOffset + i < size then outOffset + i else outOffset + i - size
    }

    ghost function Contents(): seq<int>
      requires Valid()
      reads this, msgPool
    {
      seq(entry, i requires Valid() && 0 <= i < entry reads this, msgPool => msgPool[Slot(i)])
    }

    ghost function View(): P.Box
      requires Valid()
      reads this, msgPool
    {
      P.Box(size, Contents(), receivers, senders)
    }

    /** rt_mb_init; the field for the size has 16 bits. */
    constructor (n: nat, f: Flag)
      ensures Valid() && fresh(msgPool) && View() == P.Init(Low16(n), f).box && flag == f
    {
      size := Low16(n);
      flag := f;
      msgPool := new int[n];
      entry, inOffset, outOffset := 0, 0, 0;
      receivers, senders := [], [];
    }

    /** Store a value at the back of the ring. */
    method Put(value: int)
      requires Valid() && entry < size
      modifies this`entry, this`inOffset, msgPool
      ensures Valid() && Contents() == old(Contents()) + [value]
    {
      msgPool[inOffset] := value;
      inOffset := inOffset + 1;
      if inOffset >= size {
        inOffset := 0;
      }
      entry := entry + 1;
    }

    /** Fetch the value at the front of the ring. */
    method Get() returns (value: int)
      requires Valid() && entry > 0
      modifies this`entry, this`outOffset
      ensures Valid() && [value] + Contents() == old(Contents())
    {
      value := msgPool[outOffset];
      outOffset := outOffset + 1;
      if outOffset >= size {
        outOffset := 0;
      }
      entry := entry - 1;
    }

    /** One pass of rt_mb_send_wait; Blocked means that t now sleeps. */
    method SendSection(t: Tid, value: int, timeout: int, prio: Tid -> int) returns (r: Outcome)
      requires Valid()
      modifies this, msgPool
      ensures Valid() && View() == P.SendSection(old(View()), t, value, timeout, prio, flag)
      ensures r == if old(entry) < size then Done else if timeout == 0 then Refused else Blocked
    {
      if entry == size {
        if timeout == 0 {
          return Refused;
        }
        senders := Suspend(senders, t, prio, flag);
        return Blocked;
      }
      Put(value);
      if receivers != [] {
        receivers := receivers[1..];
      }
      return Done;
    }

    /** One pass of rt_mb_recv; value is meaningful when the outcome is Done. */
    method RecvSection(t: Tid, timeout: int, prio: Tid -> int) returns (r: Outcome, value: int)
      requires Valid()
      modifies this
      ensures Valid() && View() == P.RecvSection(old(View()), t, timeout, prio, flag)
      ensures r == if old(entry) > 0 then Done else if timeout == 0 then Refused else Blocked
      ensures r == Done ==> value == old(Contents())[0]
    {
      value := 0;
      if entry == 0 {
        if timeout == 0 {
          return Refused, value;
        }
        receivers := Suspend(receivers, t, prio, flag);
        return Blocked, value;
      }
      value := Get();
      if senders != [] {
        senders := senders[1..];
      }
      return Done, value;
    }

    /** The reset of rt_mb_control */
    method Reset()
      requires Valid()
      modifies this
      ensures Valid() && View() == P.ResetSection(old(View()))
    {
      receivers, senders := [], [];
      entry, inOffset, outOffset := 0, 0, 0;
    }
  }
}
