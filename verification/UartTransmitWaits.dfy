/** How long a blocking write or close of the fast JTAG UART driver waits: as long as it must, and hardly a step longer,
    wherever the interrupts come. */
module UartTransmitWaits {
  import opened Words
  import opened Errno
  import opened Ring
  import opened UartHardware
  import T = UartTransmit

  // A blocking write in its spin, or a blocking close at one of its two tests.
  predicate Spins(s: T.Tx) {
    s.pc.SpinOut? || s.pc.SpinHost? || s.pc == T.CloseTest(false) || s.pc == T.CloseHost(false)
  }

  // The device has taken a byte since the write found the ring full, or all bytes since the close began.
  predicate Served(s: T.Tx) { if T.InWrite(s.pc) then |s.sent| > s.call.snap else s.tout == s.tin }

  predicate MustWait(s: T.Tx) { !Served(s) && s.hostInactive < s.timeout }

  // The same call, still under way, with as much reported as before.
  predicate SameCall(s: T.Tx, r: T.Tx) {
    r.call == s.call && r.log == s.log && r.timeout == s.timeout && T.InWrite(r.pc) == T.InWrite(s.pc)
  }

  // The foreground steps the call takes at most once it need not wait.
  function StepsLeft(s: T.Tx): nat {
    match s.pc
    case SpinOut => if Served(s) then 2 else 4
    case SpinHost => 3
    case HostTest => 1
    case CloseTest(_) => if Served(s) then 1 else 3
    case CloseHost(_) => 2
    case _ => 0
  }

  // In state p, of the call that was under way in s, the wait is over: with the host there a write goes on with the bytes it
  // has left; with the host away it returns what it has done, or -EIO; a close returns 0.
  ghost predicate Ends(s: T.Tx, p: T.Tx, r: T.Tx) {
    var c := s.call;
    if T.InWrite(s.pc) then
      if p.hostInactive == 0 then r.pc.Test? && r.log == s.log && r.call == c
      else r.pc.Idle? && r.log == s.log + [T.Wrote(c.data, c.count, false, p.hostInactive, if c.done > 0 then c.done else -EIO)]
    else r.pc.Idle? && r.log == s.log + [T.Closed(false, p.tout == p.tin, p.hostInactive, p.timeout, 0)]
  }

  lemma StepSpins(s: T.Tx)
    requires T.Inv(s) && (Spins(s) || s.pc.HostTest?)
    ensures var r := T.StepOf(s);
      && (Spins(s) && MustWait(s) ==> Spins(r) && SameCall(s, r))
      && (s.pc.HostTest? || !MustWait(s) ==>
            Ends(s, s, r) || ((Spins(r) || r.pc.HostTest?) && SameCall(s, r) && StepsLeft(r) < StepsLeft(s)))
  {
    hide Contents, T.Accepted, T.EntryOk;
  }

  lemma EventSpins(s: T.Tx, e: T.Event)
    requires T.Inv(s) && (Spins(s) || s.pc.HostTest?) && !e.Step?
    ensures var r := T.Apply(s, e); r.pc == s.pc && SameCall(s, r) && StepsLeft(r) <= StepsLeft(s)
  {
    hide Contents, T.Accepted, T.EntryOk, T.PcOk, T.Interrupted;
    if e.Int? { var k := T.InterruptEffect(s, e.e); }
  }

  // All through a run from s.
  ghost predicate AllWait(s: T.Tx, events: seq<T.Event>)
    requires T.Inv(s)
  {
    forall k :: 0 <= k <= |events| ==> MustWait(T.Run(s, events[..k]))
  }

  ghost predicate NoneWaits(s: T.Tx, events: seq<T.Event>)
    requires T.Inv(s)
  {
    forall k :: 0 <= k <= |events| ==> !MustWait(T.Run(s, events[..k]))
  }

  function Steps(events: seq<T.Event>): nat {
    if events == [] then 0 else Steps(events[..|events| - 1]) + if events[|events| - 1].Step? then 1 else 0
  }

  lemma Prefixes(s: T.Tx, events: seq<T.Event>)
    requires T.Inv(s) && events != []
    ensures var front := events[..|events| - 1];
      && T.Run(s, events) == T.Apply(T.Run(s, front), events[|events| - 1])
      && Steps(events) == Steps(front) + (if events[|events| - 1].Step? then 1 else 0)
      && (AllWait(s, events) ==> AllWait(s, front) && MustWait(T.Run(s, front)))
      && (NoneWaits(s, events) ==> NoneWaits(s, front) && !MustWait(T.Run(s, front)))
  {
    hide T.Apply, T.Inv, MustWait;
    var front := events[..|events| - 1];
    assert forall k :: 0 <= k <= |front| ==> front[..k] == events[..k];
    assert front[..|front|] == front;
  }

  /** A blocking write on a full ring waits, and a blocking close on a ring not yet empty waits, for as long as the device takes
      nothing, or has not taken everything, and host_inactive is below the time-out: whatever happens meanwhile, neither
      returns. */
  lemma {:induction false} WaitsOn(s: T.Tx, events: seq<T.Event>)
    requires T.Inv(s) && Spins(s) && AllWait(s, events)
    ensures var r := T.Run(s, events); Spins(r) && SameCall(s, r)
  {
    hide T.Inv, T.Apply, MustWait;
    if events != [] {
      var front, e := events[..|events| - 1], events[|events| - 1];
      Prefixes(s, events);
      WaitsOn(s, front);
      hide *;
      OneWait(T.Run(s, front), e, s);
    }
  }

  lemma OneWait(p: T.Tx, e: T.Event, s: T.Tx)
    requires T.Inv(p) && Spins(p) && SameCall(s, p) && MustWait(p)
    ensures var r := T.Apply(p, e); Spins(r) && SameCall(s, r)
  {
    hide T.Inv, T.StepOf, T.Interrupted;
    if e.Step? { StepSpins(p); } else { EventSpins(p, e); }
  }

  // After k events the wait was over.
  ghost predicate EndsAt(s: T.Tx, events: seq<T.Event>, k: nat)
    requires T.Inv(s)
  {
    k < |events| && events[k].Step? && Ends(s, T.Run(s, events[..k]), T.Run(s, events[..k + 1]))
  }

  /** And no longer: once that is no longer so, and stays no longer so, the call is out of its wait within four steps of its
      own, wherever interrupts come between them. */
  lemma WaitEnds(s: T.Tx, events: seq<T.Event>)
    requires T.Inv(s) && Spins(s) && NoneWaits(s, events) && 4 <= Steps(events)
    ensures exists k: nat :: EndsAt(s, events, k)
  {
    GetsOut(s, events);
    if forall k: nat :: !EndsAt(s, events, k) { StillThere(T.Run(s, events)); }
    hide *;
  }

  lemma StillThere(r: T.Tx)
    requires Spins(r) || r.pc.HostTest?
    ensures 1 <= StepsLeft(r)
  {
  }

  // Still in the wait, with so many steps taken.
  ghost predicate Getting(s: T.Tx, r: T.Tx, steps: nat) {
    (Spins(r) || r.pc.HostTest?) && SameCall(s, r) && StepsLeft(r) + steps <= 4
  }

  lemma {:induction false} GetsOut(s: T.Tx, events: seq<T.Event>)
    requires T.Inv(s) && Spins(s) && NoneWaits(s, events)
    ensures (exists k: nat :: EndsAt(s, events, k)) || Getting(s, T.Run(s, events), Steps(events))
  {
    hide *;
    if events == [] {
      Begins(s);
    } else {
      var front, e := events[..|events| - 1], events[|events| - 1];
      Prefixes(s, events);
      GetsOut(s, front);
      if k: nat :| EndsAt(s, front, k) {
        EndStays(s, front, events, k);
      } else {
        OneOut(s, T.Run(s, front), e, Steps(front));
        if e.Step? && Ends(s, T.Run(s, front), T.Run(s, events)) { EndsHere(s, events, |front|); }
      }
    }
  }

  lemma Begins(s: T.Tx)
    requires T.Inv(s) && Spins(s)
    ensures Getting(s, T.Run(s, []), Steps([]))
  {
    hide T.Inv;
  }

  lemma EndStays(s: T.Tx, front: seq<T.Event>, events: seq<T.Event>, k: nat)
    requires T.Inv(s) && EndsAt(s, front, k) && front <= events
    ensures EndsAt(s, events, k)
  {
    hide T.Inv, T.Run, Ends;
    assert front[..k] == events[..k];
    assert front[..k + 1] == events[..k + 1];
  }

  lemma EndsHere(s: T.Tx, events: seq<T.Event>, k: nat)
    requires T.Inv(s) && |events| == k + 1 && events[k].Step?
    requires Ends(s, T.Run(s, events[..k]), T.Run(s, events))
    ensures EndsAt(s, events, k)
  {
    hide T.Inv, T.Run, Ends;
    assert events[..k + 1] == events;
  }

  lemma OneOut(s: T.Tx, p: T.Tx, e: T.Event, steps: nat)
    requires T.Inv(p) && Getting(s, p, steps) && !MustWait(p)
    ensures var r := T.Apply(p, e); (e.Step? && Ends(s, p, r)) || Getting(s, r, steps + if e.Step? then 1 else 0)
  {
    hide T.Inv, T.StepOf, T.Interrupted, StepsLeft;
    if e.Step? { StepSpins(p); } else { EventSpins(p, e); }
  }
}
