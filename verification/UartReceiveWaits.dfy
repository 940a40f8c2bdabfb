/** How long a blocking read of the fast JTAG UART driver waits: as long as it must, and hardly a step longer, wherever the
    interrupts come. */
module UartReceiveWaits {
  import opened Words
  import opened Errno
  import opened Ring
  import opened UartHardware
  import R = UartReceive

  // A read in its spin.
  predicate Spins(s: R.Rx) { s.pc.SpinIn? || s.pc.SpinHost? }

  predicate Leaving(s: R.Rx) { (s.pc.Recheck? || s.pc.Finish?) && s.call.got == [] && !s.call.nonblock }

  // Something has arrived since the read found the ring empty.
  predicate Served(s: R.Rx) { |s.popped| > s.call.snap }

  predicate MustWait(s: R.Rx) { !Served(s) && s.hostInactive < s.timeout }

  // The same call, still under way, with as much reported as before.
  predicate SameCall(s: R.Rx, r: R.Rx) {
    r.call == s.call.(look := r.call.look) && r.log == s.log && r.timeout == s.timeout && |s.popped| <= |r.popped|
  }

  // The foreground steps the call takes at most once it need not wait.
  function StepsLeft(s: R.Rx): nat {
    match s.pc
    case SpinIn => if Served(s) then 3 else 5
    case SpinHost => 4
    case Recheck => 2
    case Finish => 1
    case _ => 0
  }

  // With p the state before the last step: the read goes on to take what has arrived; or, only if nothing had arrived in s, it
  // returns -EIO, having seen host_inactive at the time-out, and leaves the read interrupt as it was.
  ghost predicate Ends(s: R.Rx, p: R.Rx, r: R.Rx) {
    || (r.pc.Test? && Served(r) && r.log == s.log && r.call == s.call.(look := r.call.look))
    || (!Served(s) && r.pc.Idle? && R.Absent(p.call.look, s.timeout) && r.re == p.re
        && r.log == s.log + [R.Entry(s.call.space, false, [], p.call.look, s.timeout, -EIO)])
  }

  lemma StepSpins(s: R.Rx)
    requires R.Inv(s) && s.call.space > 0 && (Spins(s) || Leaving(s))
    ensures var r := R.StepOf(s);
      && (Spins(s) && MustWait(s) ==> Spins(r) && SameCall(s, r))
      && (Spins(s) && !MustWait(s) ==> (Spins(r) || r.pc.Recheck?) && SameCall(s, r) && StepsLeft(r) < StepsLeft(s))
      && (s.pc.Recheck? && Served(s) ==> r == s.(pc := R.Test))
      && (s.pc.Recheck? && !Served(s) ==> r == s.(pc := R.Finish))
      && (s.pc.Finish? ==>
            && r.pc.Idle? && R.Absent(s.call.look, s.timeout) && r.re == s.re
            && r.log == s.log + [R.Entry(s.call.space, false, [], s.call.look, s.timeout, -EIO)])
  {
    hide Contents, R.Delivered, R.EntryOk;
  }

  lemma EventSpins(s: R.Rx, e: R.Event)
    requires R.Inv(s) && (Spins(s) || Leaving(s)) && !e.Step?
    ensures var r := R.Apply(s, e); r.pc == s.pc && r.call == s.call && SameCall(s, r) && StepsLeft(r) <= StepsLeft(s)
  {
    hide Contents, R.Delivered, R.EntryOk, R.PcOk, R.Interrupted;
    if e.Int? { var x := R.InterruptEffect(s, e.e); }
  }

  lemma SpinsWithSpace(s: R.Rx)
    requires R.Inv(s) && Spins(s)
    ensures s.call.space > 0 && s.call.got == [] && !s.call.nonblock
  {
    hide Contents, R.Delivered, R.EntryOk;
  }

  // All through a run from s.
  ghost predicate AllWait(s: R.Rx, events: seq<R.Event>)
    requires R.Inv(s)
  {
    forall k :: 0 <= k <= |events| ==> MustWait(R.Run(s, events[..k]))
  }

  ghost predicate NoneWaits(s: R.Rx, events: seq<R.Event>)
    requires R.Inv(s)
  {
    forall k :: 0 <= k <= |events| ==> !MustWait(R.Run(s, events[..k]))
  }

  function Steps(events: seq<R.Event>): nat {
    if events == [] then 0 else Steps(events[..|events| - 1]) + if events[|events| - 1].Step? then 1 else 0
  }

  lemma Prefixes(s: R.Rx, events: seq<R.Event>)
    requires R.Inv(s) && events != []
    ensures var front := events[..|events| - 1];
      && R.Run(s, events) == R.Apply(R.Run(s, front), events[|events| - 1])
      && Steps(events) == Steps(front) + (if events[|events| - 1].Step? then 1 else 0)
      && (AllWait(s, events) ==> AllWait(s, front) && MustWait(R.Run(s, front)))
      && (NoneWaits(s, events) ==> NoneWaits(s, front) && !MustWait(R.Run(s, front)))
  {
    hide R.Apply, R.Inv, MustWait;
    var front := events[..|events| - 1];
    assert forall k :: 0 <= k <= |front| ==> front[..k] == events[..k];
    assert front[..|front|] == front;
  }

  /** A blocking read that found the ring empty waits for as long as nothing arrives and host_inactive is below the time-out,
      whatever else happens meanwhile. */
  lemma {:induction false} WaitsOn(s: R.Rx, events: seq<R.Event>)
    requires R.Inv(s) && Spins(s) && AllWait(s, events)
    ensures var r := R.Run(s, events); Spins(r) && SameCall(s, r)
  {
    hide R.Inv, R.Apply, MustWait;
    if events != [] {
      var front, e := events[..|events| - 1], events[|events| - 1];
      Prefixes(s, events);
      WaitsOn(s, front);
      hide *;
      OneWait(R.Run(s, front), e, s);
    }
  }

  lemma OneWait(p: R.Rx, e: R.Event, s: R.Rx)
    requires R.Inv(p) && Spins(p) && SameCall(s, p) && MustWait(p)
    ensures var r := R.Apply(p, e); Spins(r) && SameCall(s, r)
  {
    SpinsWithSpace(p);
    hide R.Inv, R.StepOf, R.Interrupted;
    if e.Step? { StepSpins(p); } else { EventSpins(p, e); }
  }

  // After k events the wait was over.
  ghost predicate EndsAt(s: R.Rx, events: seq<R.Event>, k: nat)
    requires R.Inv(s)
  {
    k < |events| && events[k].Step? && Ends(s, R.Run(s, events[..k]), R.Run(s, events[..k + 1]))
  }

  /** And no longer: once that is no longer so, and stays no longer so, the read is out of its wait within five steps of its
      own, wherever interrupts come between them; and what has arrived by then is never answered with an error. */
  lemma WaitEnds(s: R.Rx, events: seq<R.Event>)
    requires R.Inv(s) && Spins(s) && NoneWaits(s, events) && 5 <= Steps(events)
    ensures exists k: nat :: EndsAt(s, events, k)
  {
    GetsOut(s, events);
    if forall k: nat :: !EndsAt(s, events, k) { StillThere(R.Run(s, events)); }
    hide *;
  }

  lemma StillThere(r: R.Rx)
    requires Spins(r) || Leaving(r)
    ensures 1 <= StepsLeft(r)
  {
  }

  // Still in the wait, with so many steps taken.
  ghost predicate Getting(s: R.Rx, r: R.Rx, steps: nat) {
    && (Spins(r) || Leaving(r)) && r.call.space > 0 && SameCall(s, r) && StepsLeft(r) + steps <= 5
    && (Served(s) ==> !r.pc.Finish?)
  }

  lemma {:induction false} GetsOut(s: R.Rx, events: seq<R.Event>)
    requires R.Inv(s) && Spins(s) && NoneWaits(s, events)
    ensures (exists k: nat :: EndsAt(s, events, k)) || Getting(s, R.Run(s, events), Steps(events))
  {
    hide *;
    if events == [] {
      Begins(s);
    } else {
      var front, e := events[..|events| - 1], events[|events| - 1];
      Prefixes(s, events);
      GetsOut(s, front);
      if k: nat :| EndsAt(s, front, k) {
        EndStays(s, front, events, k);
      } else {
        OneOut(s, R.Run(s, front), e, Steps(front));
        if e.Step? && Ends(s, R.Run(s, front), R.Run(s, events)) { EndsHere(s, events, |front|); }
      }
    }
  }

  lemma Begins(s: R.Rx)
    requires R.Inv(s) && Spins(s)
    ensures Getting(s, R.Run(s, []), Steps([]))
  {
    SpinsWithSpace(s);
    hide R.Inv;
  }

  lemma EndStays(s: R.Rx, front: seq<R.Event>, events: seq<R.Event>, k: nat)
    requires R.Inv(s) && EndsAt(s, front, k) && front <= events
    ensures EndsAt(s, events, k)
  {
    hide R.Inv, R.Run, Ends;
    assert front[..k] == events[..k];
    assert front[..k + 1] == events[..k + 1];
  }

  lemma EndsHere(s: R.Rx, events: seq<R.Event>, k: nat)
    requires R.Inv(s) && |events| == k + 1 && events[k].Step?
    requires Ends(s, R.Run(s, events[..k]), R.Run(s, events))
    ensures EndsAt(s, events, k)
  {
    hide R.Inv, R.Run, Ends;
    assert events[..k + 1] == events;
  }

  lemma OneOut(s: R.Rx, p: R.Rx, e: R.Event, steps: nat)
    requires R.Inv(p) && Getting(s, p, steps) && !MustWait(p)
    ensures var r := R.Apply(p, e); (e.Step? && Ends(s, p, r)) || Getting(s, r, steps + if e.Step? then 1 else 0)
  {
    if Spins(p) { SpinsWithSpace(p); }
    hide R.Inv, R.StepOf, R.Interrupted;
    if e.Step? { StepSpins(p); } else { EventSpins(p, e); }
  }
}
