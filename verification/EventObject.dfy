/** The event object of src/ipc.c, updated in place. */
module EventObject {

  import opened IpcList
  import opened EventProtocol

  class Events {
    const flag: Flag
    var bits: bv32
    var waiters: seq<Tid>
    var phase: map<Tid, Phase>  // event_set and event_info of the threads

    function S(): Sys
      reads this
    {
      Sys(bits, flag, waiters, phase)
    }

    /** rt_event_init */
    constructor (flag: Flag)
      ensures S() == Sys(0, flag, [], map[])
    {
      this.flag := flag;
      bits, waiters, phase := 0, [], map[];
    }

    /**
     rt_event_send: one walk along the waiters, during which the set may shrink; false if there is nothing to send.
     */
    method Send(news: bv32) returns (ok: bool)
      requires Inv(S())
      modifies this
      ensures ok == (news != 0) && S() == SendStep(old(S()), news) && Inv(S())
    {
      hide Satisfied, Both, Either, Without, Walk, Woken, Inv, Remains, Unique, Untouched;
      SendInv(S(), news);
      if news == 0 {
        return false;
      }
      ghost var s, all := S(), Walk(waiters, phase, Either(bits, news));
      bits := Either(bits, news);
      var n := 0;
      ghost var gone: seq<(Tid, bv32)> := [];
      Begin(all, waiters, s.phase, bits);
      WaitersWait(s);
      EmptyWoken(s.phase);
      while n < |waiters|
        invariant n <= |waiters| && Unique(waiters)
        invariant Remains(all, Walk(waiters[n..], s.phase, bits), waiters[..n], gone)
        invariant phase == Woken(s.phase, gone)
        invariant forall i :: n <= i < |waiters| ==> Untouched(s.phase, phase, waiters[i])
        decreases |waiters| - n
      {
        var t := waiters[n];
        var w := WishOf(phase, t);
        SameWish(s.phase, phase, t);
        WalkOnce(waiters, n, s.phase, bits);
        if Satisfied(w, bits) {
          var got := Got(w, bits);
          WokenOnce(s.phase, gone, t, got);
          Leave(all, waiters, n, s.phase, bits, gone);
          OthersWait(waiters, n, s.phase, phase, got);
          if w.option.clear {
            bits := Without(bits, got);
          }
          phase := phase[t := Received(got)];
          waiters := waiters[..n] + waiters[n + 1..];
          gone := gone + [(t, got)];
        } else {
          Stay(all, waiters, n, s.phase, bits, gone);
          n := n + 1;
        }
      }
      Finish(all, waiters, n, s.phase, bits, gone);
      ok := true;
    }

    /** rt_event_recv until it returns or the thread sleeps. */
    method Recv(t: Tid, w: Wish, timeout: int, prio: Tid -> int) returns (sleeps: bool, error: Error, got: bv32)
      requires Inv(S()) && (t in phase ==> phase[t].Idle?) && (w.option.and || w.option.or)
      modifies this
      ensures S() == RecvStep(old(S()), t, w, timeout, prio) && Inv(S())
      ensures sleeps == (w.bits != 0 && !Satisfied(w, old(bits)) && timeout != 0)
      ensures !sleeps ==> error == if w.bits == 0 then ERROR else if Satisfied(w, old(bits)) then EOK else ETIMEOUT
      ensures !sleeps && error == EOK ==> got == Both(w.bits, old(bits))
    {
      hide Both, Without, Includes, Inv;
      RecvInv(S(), t, w, timeout, prio);
      sleeps, error, got := false, EOK, 0;
      if w.bits == 0 {
        error := ERROR;
        phase := phase[t := Leaving(ERROR)];
        return;
      }
      var ok := if w.option.and then Both(bits, w.bits) == w.bits else Both(bits, w.bits) != 0;
      BothSwapped(bits, w.bits);
      if ok {
        got := Both(bits, w.bits);
        if w.option.clear {
          bits := Without(bits, w.bits);
        }
        phase := phase[t := Received(got)];
      } else if timeout == 0 {
        error := ETIMEOUT;
        phase := phase[t := Leaving(ETIMEOUT)];
      } else {
        phase := phase[t := Waiting(w, timeout > 0)];
        waiters := Suspend(waiters, t, prio, flag);
        sleeps := true;
      }
    }

    /** rt_event_control with RT_IPC_CMD_RESET */
    method Reset()
      requires Inv(S())
      modifies this
      ensures S() == Step(old(S()), EventProtocol.Reset) && Inv(S())
    {
      StepInv(S(), EventProtocol.Reset);
      phase := Roused(phase);
      waiters := [];
      bits := 0;
    }
  }

  lemma BothSwapped(x: bv32, y: bv32)
    ensures Both(x, y) == Both(y, x)
  {
  }

  /** The walk has not come to this thread yet. */
  predicate Untouched(before: map<Tid, Phase>, phase: map<Tid, Phase>, t: Tid) {
    t in before && t in phase && phase[t] == before[t]
  }

  lemma WaitersWait(s: Sys)
    requires Inv(s)
    ensures Unique(s.waiters) && forall i :: 0 <= i < |s.waiters| ==> Untouched(s.phase, s.phase, s.waiters[i])
  {
  }

  lemma EmptyWoken(phase: map<Tid, Phase>)
    ensures Woken(phase, []) == phase
  {
  }

  /** The next step of the walk. */
  lemma WalkOnce(list: seq<Tid>, n: nat, phase: map<Tid, Phase>, bits: bv32)
    requires n < |list|
    ensures var w, r := WishOf(phase, list[n]), Walk(list[n..], phase, bits);
            if Satisfied(w, bits) then
              var q := Walk(list[n + 1..], phase, Left(w, bits));
              r.bits == q.bits && r.waiters == q.waiters && r.woken == [(list[n], Got(w, bits))] + q.woken
            else
              var q := Walk(list[n + 1..], phase, bits);
              r.bits == q.bits && r.waiters == [list[n]] + q.waiters && r.woken == q.woken
  {
  }

  lemma Begin(all: Walked, list: seq<Tid>, phase: map<Tid, Phase>, bits: bv32)
    requires all == Walk(list, phase, bits)
    ensures Remains(all, Walk(list[0..], phase, bits), list[..0], [])
  {
  }

  lemma Finish(all: Walked, list: seq<Tid>, n: nat, phase: map<Tid, Phase>, bits: bv32, gone: seq<(Tid, bv32)>)
    requires n == |list| && Remains(all, Walk(list[n..], phase, bits), list[..n], gone)
    ensures all == Walked(bits, list, gone)
  {
  }

  lemma SameWish(before: map<Tid, Phase>, phase: map<Tid, Phase>, t: Tid)
    requires Untouched(before, phase, t)
    ensures t in phase && WishOf(phase, t) == WishOf(before, t)
  {
  }

  lemma Leave(all: Walked, list: seq<Tid>, n: nat, phase: map<Tid, Phase>, bits: bv32, gone: seq<(Tid, bv32)>)
    requires n < |list| && Remains(all, Walk(list[n..], phase, bits), list[..n], gone)
    requires Satisfied(WishOf(phase, list[n]), bits)
    ensures var w, rest := WishOf(phase, list[n]), list[..n] + list[n + 1..];
            Remains(all, Walk(rest[n..], phase, Left(w, bits)), rest[..n], gone + [(list[n], Got(w, bits))])
  {
  }

  lemma Stay(all: Walked, list: seq<Tid>, n: nat, phase: map<Tid, Phase>, bits: bv32, gone: seq<(Tid, bv32)>)
    requires n < |list| && Remains(all, Walk(list[n..], phase, bits), list[..n], gone)
    requires !Satisfied(WishOf(phase, list[n]), bits)
    ensures Remains(all, Walk(list[n + 1..], phase, bits), list[..n + 1], gone)
  {
  }

  /** Waking thread n does not touch the others. */
  lemma OthersWait(list: seq<Tid>, n: nat, before: map<Tid, Phase>, phase: map<Tid, Phase>, got: bv32)
    requires n < |list| && Unique(list) && forall i :: n <= i < |list| ==> Untouched(before, phase, list[i])
    ensures var rest := list[..n] + list[n + 1..];
            && Unique(rest)
            && forall i :: n <= i < |rest| ==> Untouched(before, phase[list[n] := Received(got)], rest[i])
  {
  }

  /** What the walk has still to do, behind what it has done. */
  predicate Remains(all: Walked, rest: Walked, kept: seq<Tid>, gone: seq<(Tid, bv32)>) {
    all.bits == rest.bits && all.waiters == kept + rest.waiters && all.woken == gone + rest.woken
  }
}
