/** The receive side of the fast JTAG UART driver as a machine of small steps: every shared access of read() is one
    step, and interrupts may come between any two of them. */
module UartReceive {
  import opened Words
  import opened Errno
  import opened Ring
  import opened UartHardware

  // Where the foreground stands. Copy carries the locals out and n and the bytes memcpy has moved so far.
  datatype Pc =
    | Idle
    | Test
    | Snap
    | Copy(o: nat, n: nat, moved: seq<Byte>)
    | After
    | SpinIn
    | SpinHost
    | Recheck
    | Finish

  // What the last look of a spin at host_inactive found, if it ended a spin.
  datatype Look = NotYet | Saw(host: nat)

  // The read in progress: got is the caller's buffer up to ptr, inp the local in. The rest is bookkeeping: how much
  // had arrived when in was read, and the look that ended a spin.
  datatype Call = Call(space: int, nonblock: bool, got: seq<Byte>, inp: nat, snap: nat, look: Look)

  const NO_CALL := Call(0, false, [], 0, 0, NotYet)

  // A finished read: its arguments, the bytes it left in the caller's buffer, its look and the time-out, and its result.
  datatype Entry = Entry(space: int, nonblock: bool, got: seq<Byte>, look: Look, timeout: nat, rc: int)

  // popped lists the valid bytes ever read from the DATA register; honest says that no read contradicted itself.
  datatype Rx = Rx(buf: seq<Byte>, rin: nat, rout: nat, re: bool, hostInactive: nat, timeout: nat, pc: Pc, call: Call,
                   popped: seq<Byte>, honest: bool, log: seq<Entry>)

  datatype Event =
    | Read(space: int, nonblock: bool)
    | SetTimeout(timeout: nat)
    | Step
    | Int(e: Interrupt)

  function Init(buf: seq<Byte>, timeout: nat): Rx {
    Rx(buf, 0, 0, true, 0, timeout, Idle, NO_CALL, [], true, [])
  }

  // ---------------------------------------------------------------- interrupt level

  // The read half of the interrupt routine: last is the RAVAIL field of the previous DATA read.
  function Fill(s: Rx, last: nat, fifo: seq<DataRead>): Rx
    requires Indices(s.buf, s.rout, s.rin)
    decreases |fifo|
  {
    if Wrap(s.rin + 1, |s.buf|) == s.rout then Mask(s, last)
    else
      var d := if fifo == [] then NO_DATA else fifo[0];
      if fifo == [] || !d.valid then Mask(s, d.avail)
      else
        Fill(s.(buf := s.buf[s.rin := d.b], rin := Wrap(s.rin + 1, |s.buf|), popped := s.popped + [d.b]),
             d.avail, fifo[1..])
  }

  function Mask(s: Rx, avail: nat): Rx {
    if avail != 0 then s.(re := false) else s
  }

  function Isr(s: Rx, rounds: seq<Round>): Rx
    requires Indices(s.buf, s.rout, s.rin)
    decreases |rounds|
  {
    if rounds == [] || (!rounds[0].ri && !rounds[0].wi) then s
    else
      FillKeepsShape(s, 1, rounds[0].fifo);
      Isr(if rounds[0].ri then Fill(s, 1, rounds[0].fifo) else s, rounds[1..])
  }

  ghost function Interrupted(s: Rx, e: Interrupt): Rx
    requires Indices(s.buf, s.rout, s.rin)
  {
    var t := s.(honest := s.honest && HonestInterrupt(e));
    match e
    case Irq(rounds) => Isr(t, rounds)
    case Alarm(ac) => t.(hostInactive := HostTick(s.hostInactive, ac))
  }

  // ---------------------------------------------------------------- foreground

  // The end of read(): enable the interrupt if anything was taken, and report.
  function Return(s: Rx): Rx {
    var c := s.call;
    var rc := if c.got != [] then |c.got| else if c.nonblock then -EWOULDBLOCK else -EIO;
    s.(re := s.re || c.got != [], pc := Idle, log := s.log + [Entry(c.space, c.nonblock, c.got, c.look, s.timeout, rc)])
  }

  function StepOf(s: Rx): Rx
    requires Inv(s)
  {
    var c := s.call;
    match s.pc
    case Idle => s
    case Test => s.(pc := if c.space - |c.got| > 0 then Snap else Finish)
    case Snap =>
      var n := Piece(|s.buf|, s.rin, s.rout);
      s.(call := c.(inp := s.rin, snap := |s.popped|),
         pc := if n == 0 then After else Copy(s.rout, Min(n, c.space - |c.got|), []))
    case Copy(o, n, moved) =>
      if |moved| < n then s.(pc := Copy(o, n, moved + [s.buf[o + |moved|]]))
      else
        var got := c.got + moved;
        s.(rout := Wrap(o + n, |s.buf|), call := c.(got := got), pc := if c.space - |got| > 0 then Snap else After)
    case After => s.(pc := if c.got != [] || c.nonblock then Finish else SpinIn)
    case SpinIn => s.(pc := if c.inp == s.rin then SpinHost else Recheck)
    case SpinHost =>
      if s.hostInactive < s.timeout then s.(pc := SpinIn) else s.(pc := Recheck, call := c.(look := Saw(s.hostInactive)))
    case Recheck => s.(pc := if c.inp == s.rin then Finish else Test)
    case Finish => Return(s)
  }

  // A read can only begin when none is in progress; an event that cannot happen changes nothing.
  ghost function Apply(s: Rx, e: Event): Rx
    requires Inv(s)
  {
    match e
    case Read(space, nonblock) =>
      if s.pc.Idle? then s.(pc := Test, call := Call(space, nonblock, [], 0, 0, NotYet)) else s
    case SetTimeout(t) => if s.pc.Idle? then s.(timeout := t) else s
    case Step => StepOf(s)
    case Int(i) => Interrupted(s, i)
  }

  /** Every run keeps the invariant, whatever the calls and wherever the interrupts come. */
  ghost function Run(s: Rx, events: seq<Event>): (r: Rx)
    requires Inv(s)
    ensures Inv(r)
  {
    if events == [] then s
    else
      var p := Run(s, events[..|events| - 1]);
      ApplyKeepsInv(p, events[|events| - 1]);
      Apply(p, events[|events| - 1])
  }

  // ---------------------------------------------------------------- the invariant

  function GivenByAll(log: seq<Entry>): seq<Byte> {
    if log == [] then [] else GivenByAll(log[..|log| - 1]) + log[|log| - 1].got
  }

  // What the callers were given, and what the read in progress has given so far.
  function Delivered(s: Rx): seq<Byte> {
    GivenByAll(s.log) + (if s.pc.Idle? then [] else s.call.got)
  }

  predicate Absent(look: Look, timeout: nat) { look.Saw? && look.host >= timeout }

  // A positive result counts the bytes delivered; an error of a blocking read of some space needs an absent host.
  ghost predicate EntryOk(e: Entry) {
    && (e.rc > 0 ==> |e.got| == e.rc <= e.space)
    && (e.rc <= 0 ==> e.got == [] && e.rc == if e.nonblock then -EWOULDBLOCK else -EIO)
    && (e.rc <= 0 && e.space > 0 ==> e.nonblock || Absent(e.look, e.timeout))
  }

  // The ring was empty when in was read, and has only been filled since.
  ghost predicate SnapshotOk(s: Rx)
    requires Indices(s.buf, s.rout, s.rin)
  {
    var c := s.call;
    && c.inp < |s.buf| && c.snap <= |s.popped| && |s.popped| - c.snap < |s.buf|
    && s.rin == Wrap(c.inp + (|s.popped| - c.snap), |s.buf|)
    && |Contents(s.buf, s.rout, s.rin)| == |s.popped| - c.snap
  }

  ghost predicate PcOk(s: Rx)
    requires Indices(s.buf, s.rout, s.rin)
  {
    var c := s.call;
    match s.pc
    case Idle => true
    case Test => c.got == []
    case Snap => |c.got| < c.space
    case Copy(o, n, moved) =>
      && o == s.rout && |moved| <= n && 1 <= n && |c.got| + n <= c.space
      && o + n <= |s.buf| && n <= |Contents(s.buf, s.rout, s.rin)|
      && moved == s.buf[o..o + |moved|]
    case After => (|c.got| < c.space ==> SnapshotOk(s)) && (c.got == [] ==> c.space > 0)
    case SpinIn | SpinHost => c.got == [] && 0 < c.space && !c.nonblock && SnapshotOk(s)
    case Recheck =>
      && c.got == [] && 0 < c.space && !c.nonblock && SnapshotOk(s)
      && (|s.popped| == c.snap ==> Absent(c.look, s.timeout))
    case Finish =>
      && (c.got != [] && |c.got| < c.space ==> SnapshotOk(s))
      && (c.got == [] && c.space > 0 ==> c.nonblock || Absent(c.look, s.timeout))
  }

  ghost predicate Inv(s: Rx) {
    && Indices(s.buf, s.rout, s.rin)
    && Delivered(s) + Contents(s.buf, s.rout, s.rin) == s.popped
    && (forall i :: 0 <= i < |s.log| ==> EntryOk(s.log[i]))
    && (!s.pc.Idle? ==> |s.call.got| <= (if s.call.space > 0 then s.call.space else 0))
    && PcOk(s)
    && (s.honest && !s.re && Contents(s.buf, s.rout, s.rin) == [] ==> !s.pc.Idle? && s.call.got != [])
  }

  // ---------------------------------------------------------------- interrupts keep it

  lemma FillKeepsShape(s: Rx, last: nat, fifo: seq<DataRead>)
    requires Indices(s.buf, s.rout, s.rin)
    ensures var r := Fill(s, last, fifo);
      Indices(r.buf, r.rout, r.rin) && r == s.(buf := r.buf, rin := r.rin, popped := r.popped, re := r.re)
    decreases |fifo|
  {
  }

  // An interrupt appends x to the ring, and masks itself only when the ring is full.
  ghost predicate Fills(s: Rx, r: Rx, x: seq<Byte>)
    requires Indices(s.buf, s.rout, s.rin)
  {
    && |Contents(s.buf, s.rout, s.rin)| + |x| < |s.buf| == |r.buf|
    && r == s.(buf := r.buf, rin := r.rin, popped := r.popped, re := r.re, hostInactive := r.hostInactive)
    && r.rin == Wrap(s.rin + |x|, |s.buf|)
    && r.popped == s.popped + x
    && Contents(r.buf, r.rout, r.rin) == Contents(s.buf, s.rout, s.rin) + x
    && (r.re ==> s.re)
    && (s.re && !r.re && s.honest ==> |Contents(r.buf, r.rout, r.rin)| == |r.buf| - 1)
  }

  ghost predicate HonestFifo(fifo: seq<DataRead>) {
    forall k :: 0 <= k < |fifo| ==> Honest(fifo[k])
  }

  lemma FillsCompose(s: Rx, m: Rx, r: Rx, x: seq<Byte>, y: seq<Byte>)
    requires Indices(s.buf, s.rout, s.rin) && Fills(s, m, x)
    requires Indices(m.buf, m.rout, m.rin) && Fills(m, r, y)
    ensures Fills(s, r, x + y)
  {
    hide Contents;
    assert s.popped + x + y == s.popped + (x + y);
    assert Contents(s.buf, s.rout, s.rin) + x + y == Contents(s.buf, s.rout, s.rin) + (x + y);
  }

  lemma PushFills(s: Rx, b: Byte)
    requires Indices(s.buf, s.rout, s.rin) && Wrap(s.rin + 1, |s.buf|) != s.rout
    ensures Fills(s, s.(buf := s.buf[s.rin := b], rin := Wrap(s.rin + 1, |s.buf|), popped := s.popped + [b]), [b])
  {
    hide Contents;
    Push(s.buf, s.rout, s.rin, b);
  }

  // Masking keeps the ring; an honest device asks for it only when the ring is full.
  lemma FillsNothing(s: Rx, avail: nat)
    requires Indices(s.buf, s.rout, s.rin)
    requires Wrap(s.rin + 1, |s.buf|) == s.rout || (s.honest ==> avail == 0)
    ensures Fills(s, Mask(s, avail), [])
  {
  }

  function Free(s: Rx): nat
    requires Indices(s.buf, s.rout, s.rin)
  {
    |s.buf| - 1 - |Contents(s.buf, s.rout, s.rin)|
  }

  /** One read service takes the bytes of the leading valid reads of the DATA register, as far as there is room, and masks itself
      if the last read it made left data behind. */
  lemma {:induction false} FillEffect(s: Rx, last: nat, fifo: seq<DataRead>) returns (x: seq<Byte>)
    requires Indices(s.buf, s.rout, s.rin)
    requires s.honest ==> HonestFifo(fifo)
    ensures Fills(s, Fill(s, last, fifo), x) && x == Arriving(Free(s), fifo)
    ensures Fill(s, last, fifo).re == (s.re && LastAvail(last, Free(s), fifo) == 0)
    decreases |fifo|
  {
    hide Contents, Fills, Arriving, LastAvail;
    ArrivingStep(last, Free(s), fifo);
    x := [];
    if Wrap(s.rin + 1, |s.buf|) == s.rout {
      FillsNothing(s, last);
    } else if fifo == [] || !fifo[0].valid {
      FillsNothing(s, if fifo == [] then 0 else fifo[0].avail);
    } else {
      var b := fifo[0].b;
      var m := s.(buf := s.buf[s.rin := b], rin := Wrap(s.rin + 1, |s.buf|), popped := s.popped + [b]);
      PushFills(s, b);
      x := FillEffect(m, fifo[0].avail, fifo[1..]);
      FillsCompose(s, m, Fill(m, fifo[0].avail, fifo[1..]), [b], x);
      x := [b] + x;
    }
  }

  lemma {:induction false} FillHonest(s: Rx, last: nat, fifo: seq<DataRead>)
    requires Indices(s.buf, s.rout, s.rin)
    ensures Fill(s.(honest := false), last, fifo) == Fill(s, last, fifo).(honest := false)
    decreases |fifo|
  {
    if Wrap(s.rin + 1, |s.buf|) != s.rout && fifo != [] && fifo[0].valid {
      var b := fifo[0].b;
      var m := s.(buf := s.buf[s.rin := b], rin := Wrap(s.rin + 1, |s.buf|), popped := s.popped + [b]);
      FillHonest(m, fifo[0].avail, fifo[1..]);
    }
  }

  /** So does one of a device of which nothing is known. */
  lemma FillTakes(s: Rx, last: nat, fifo: seq<DataRead>)
    requires Indices(s.buf, s.rout, s.rin)
    ensures var r, x := Fill(s, last, fifo), Arriving(Free(s), fifo);
      && Indices(r.buf, r.rout, r.rin) && |r.buf| == |s.buf| && r.popped == s.popped + x
      && Contents(r.buf, r.rout, r.rin) == Contents(s.buf, s.rout, s.rin) + x
      && r.re == (s.re && LastAvail(last, Free(s), fifo) == 0)
  {
    FillKeepsShape(s, last, fifo);
    FillHonest(s, last, fifo);
    hide Contents, Fill;
    var x := FillEffect(s.(honest := false), last, fifo);
  }

  lemma FreeAfter(s: Rx, m: Rx, x: seq<Byte>)
    requires Indices(s.buf, s.rout, s.rin) && Indices(m.buf, m.rout, m.rin) && Fills(s, m, x)
    ensures Free(m) == Free(s) - |x|
  {
    hide Contents;
  }

  // What one pass does.
  function PassOf(s: Rx, round: Round): Rx
    requires Indices(s.buf, s.rout, s.rin)
  {
    if round.ri then Fill(s, 1, round.fifo) else s
  }

  lemma PassEffect(s: Rx, round: Round) returns (x: seq<Byte>)
    requires Indices(s.buf, s.rout, s.rin)
    requires s.honest ==> HonestFifo(round.fifo)
    ensures var m := PassOf(s, round);
      && Indices(m.buf, m.rout, m.rin) && m.honest == s.honest
      && Fills(s, m, x) && x == if round.ri then Arriving(Free(s), round.fifo) else []
  {
    hide Contents, Fill;
    FillsNothing(s, 0);
    x := [];
    if round.ri {
      FillKeepsShape(s, 1, round.fifo);
      x := FillEffect(s, 1, round.fifo);
    }
  }

  /** The passes of one interrupt take what their read services take, in order. */
  lemma {:induction false} IsrEffect(s: Rx, rounds: seq<Round>) returns (x: seq<Byte>)
    requires Indices(s.buf, s.rout, s.rin)
    requires s.honest ==> HonestRounds(rounds)
    ensures Fills(s, Isr(s, rounds), x) && x == ArrivingOver(Free(s), rounds)
    decreases |rounds|
  {
    hide Contents, Fill, Fills, Arriving, Free;
    x := [];
    if rounds == [] || (!rounds[0].ri && !rounds[0].wi) {
      FillsNothing(s, 0);
    } else {
      x := PassEffect(s, rounds[0]);
      var m := PassOf(s, rounds[0]);
      FreeAfter(s, m, x);
      var y := IsrEffect(m, rounds[1..]);
      FillsCompose(s, m, Isr(m, rounds[1..]), x, y);
      x := x + y;
    }
  }

  lemma InterruptEffect(s: Rx, e: Interrupt) returns (x: seq<Byte>)
    requires Indices(s.buf, s.rout, s.rin)
    ensures Fills(s.(honest := s.honest && HonestInterrupt(e)), Interrupted(s, e), x) && x == ArrivingAt(Free(s), e)
  {
    hide Contents;
    x := [];
    if e.Irq? { x := IsrEffect(s.(honest := s.honest && HonestInterrupt(e)), e.rounds); }
  }

  // What memcpy has moved is still in the ring: the interrupt only stores beyond it.
  lemma MovedStays(s: Rx, r: Rx, x: seq<Byte>)
    requires Indices(s.buf, s.rout, s.rin) && s.pc.Copy? && PcOk(s) && Fills(s, r, x)
    requires Indices(r.buf, r.rout, r.rin)
    ensures r.buf[s.pc.o..s.pc.o + |s.pc.moved|] == s.buf[s.pc.o..s.pc.o + |s.pc.moved|]
  {
    hide Contents;
    var o, k := s.pc.o, |s.pc.moved|;
    Drop(s.buf, s.rout, s.rin, k);
    Drop(r.buf, r.rout, r.rin, k);
    assert s.buf[o..o + k] == Contents(s.buf, s.rout, s.rin)[..k];
    assert r.buf[o..o + k] == Contents(r.buf, r.rout, r.rin)[..k];
  }

  lemma DeliveredSame(s: Rx, r: Rx)
    requires r.log == s.log && r.call.got == s.call.got && (s.pc.Idle? <==> r.pc.Idle?)
    ensures Delivered(r) == Delivered(s)
  {
  }

  // What is taken from the device appears at the end of the ring.
  lemma FillKeepsStream(d: seq<Byte>, s: Rx, r: Rx, x: seq<Byte>)
    requires Indices(s.buf, s.rout, s.rin) && Fills(s, r, x) && Indices(r.buf, r.rout, r.rin)
    requires d + Contents(s.buf, s.rout, s.rin) == s.popped
    ensures d + Contents(r.buf, r.rout, r.rin) == r.popped
  {
    hide Contents;
    assert d + Contents(s.buf, s.rout, s.rin) + x == d + (Contents(s.buf, s.rout, s.rin) + x);
  }

  lemma InterruptKeepsInv(s: Rx, e: Interrupt)
    requires Inv(s)
    ensures Inv(Interrupted(s, e))
  {
    hide Contents, Delivered, EntryOk, Interrupted;
    var t := s.(honest := s.honest && HonestInterrupt(e));
    var x := InterruptEffect(s, e);
    var r := Interrupted(s, e);
    DeliveredSame(s, r);
    FillKeepsStream(Delivered(s), t, r, x);
    if s.pc.Copy? { MovedStays(t, r, x); }
  }

  // ---------------------------------------------------------------- the foreground keeps it

  lemma SnapKeepsInv(s: Rx)
    requires Inv(s) && s.pc.Snap?
    ensures Inv(StepOf(s))
  {
    hide Contents, Delivered, EntryOk;
    PieceIsHeld(s.buf, s.rout, s.rin);
    DeliveredSame(s, StepOf(s));
  }

  lemma CopyByteKeepsInv(s: Rx)
    requires Inv(s) && s.pc.Copy? && |s.pc.moved| < s.pc.n
    ensures Inv(StepOf(s))
  {
    hide Contents, Delivered, EntryOk;
    var Copy(o, n, moved) := s.pc;
    assert s.buf[o..o + |moved| + 1] == s.buf[o..o + |moved|] + [s.buf[o + |moved|]];
    DeliveredSame(s, StepOf(s));
  }

  // Publishing rx_out moves exactly the n bytes at the front of the ring into the caller's buffer.
  lemma PublishKeepsInv(s: Rx)
    requires Inv(s) && s.pc.Copy? && |s.pc.moved| == s.pc.n
    ensures Inv(StepOf(s))
    ensures Contents(s.buf, s.rout, s.rin) == s.pc.moved + Contents(s.buf, StepOf(s).rout, s.rin)
  {
    hide Contents, EntryOk;
    var r := StepOf(s);
    var rest := Contents(r.buf, r.rout, r.rin);
    Drop(s.buf, s.rout, s.rin, s.pc.n);
    assert Delivered(r) == Delivered(s) + s.pc.moved;
    assert Delivered(s) + s.pc.moved + rest == Delivered(s) + (s.pc.moved + rest);
    if r.pc.After? { assert |r.call.got| == r.call.space; }
    hide Delivered;
  }

  lemma ReturnKeepsInv(s: Rx)
    requires Inv(s) && s.pc.Finish?
    ensures Inv(StepOf(s))
  {
    hide Contents;
    var r := StepOf(s);
    assert r.log[..|r.log| - 1] == s.log;
    assert Delivered(r) == Delivered(s);
  }

  lemma BeginKeepsInv(s: Rx)
    requires Inv(s) && (s.pc.Idle? || s.pc.Test? || s.pc.After?)
    ensures Inv(StepOf(s))
  {
    hide Contents, Delivered, EntryOk;
    DeliveredSame(s, StepOf(s));
  }

  lemma SpinKeepsInv(s: Rx)
    requires Inv(s) && (s.pc.SpinIn? || s.pc.SpinHost?)
    ensures Inv(StepOf(s))
  {
    hide Contents, Delivered, EntryOk;
    var r := StepOf(s);
    DeliveredSame(s, r);
  }

  lemma RecheckKeepsInv(s: Rx)
    requires Inv(s) && s.pc.Recheck?
    ensures Inv(StepOf(s))
  {
    hide Contents, Delivered, EntryOk;
    var r := StepOf(s);
    DeliveredSame(s, r);
  }

  lemma StepKeepsInv(s: Rx)
    requires Inv(s)
    ensures Inv(StepOf(s))
  {
    hide Contents, StepOf, Delivered, EntryOk, SnapshotOk;
    match s.pc
    case Idle | Test | After => BeginKeepsInv(s);
    case Snap => SnapKeepsInv(s);
    case Copy(_, n, moved) => if |moved| < n { CopyByteKeepsInv(s); } else { PublishKeepsInv(s); }
    case SpinIn | SpinHost => SpinKeepsInv(s);
    case Recheck => RecheckKeepsInv(s);
    case Finish => ReturnKeepsInv(s);
  }

  lemma ApplyKeepsInv(s: Rx, e: Event)
    requires Inv(s)
    ensures Inv(Apply(s, e))
  {
    hide Contents;
    match e
    case Read(_, _) => assert Delivered(Apply(s, e)) == Delivered(s);
    case SetTimeout(_) =>
    case Step => StepKeepsInv(s);
    case Int(i) => InterruptKeepsInv(s, i);
  }

  // ---------------------------------------------------------------- what holds in every run

  lemma InitInv(buf: seq<Byte>, timeout: nat)
    requires 2 <= |buf|
    ensures Inv(Init(buf, timeout))
  {
    hide Contents;
    assert Delivered(Init(buf, timeout)) == [];
  }

  /** Receive refinement: what all reads delivered, followed by what the ring holds, is the sequence of valid bytes the
      device handed over, and what a read delivered is what its result counts. */
  lemma ReceiveRefinement(buf: seq<Byte>, timeout: nat, events: seq<Event>)
    requires 2 <= |buf|
    ensures Inv(Init(buf, timeout))
    ensures var s := Run(Init(buf, timeout), events);
      && GivenByAll(s.log) + (if s.pc.Idle? then [] else s.call.got) + Contents(s.buf, s.rout, s.rin)
         == Arrived(Init(buf, timeout), events) == s.popped
      && |s.popped| - |GivenByAll(s.log)| - (if s.pc.Idle? then 0 else |s.call.got|) <= |s.buf| - 1
      && forall i :: 0 <= i < |s.log| ==> EntryOk(s.log[i])
  {
    hide Contents;
    InitInv(buf, timeout);
    var s := Run(Init(buf, timeout), events);
    PoppedIsArrived(Init(buf, timeout), events);
    assert [] + Arrived(Init(buf, timeout), events) == Arrived(Init(buf, timeout), events);
    assert |Delivered(s) + Contents(s.buf, s.rout, s.rin)| == |Delivered(s)| + |Contents(s.buf, s.rout, s.rin)|;
  }

  // What the interrupts of a run have taken from the device, in order.
  ghost function Arrived(s: Rx, events: seq<Event>): seq<Byte>
    requires Inv(s)
  {
    if events == [] then []
    else
      var front, e := events[..|events| - 1], events[|events| - 1];
      Arrived(s, front) + if e.Int? then ArrivingAt(Free(Run(s, front)), e.e) else []
  }

  lemma ApplyPops(s: Rx, e: Event)
    requires Inv(s)
    ensures Apply(s, e).popped == s.popped + if e.Int? then ArrivingAt(Free(s), e.e) else []
  {
    hide Contents, Free, Delivered, PcOk, EntryOk, Interrupted;
    if e.Int? { var x := InterruptEffect(s, e.e); }
  }

  /** The bytes taken from the device over a run are those of its DATA reads: of every pass that every interrupt made, the leading
      valid ones for which there was room at the time, in order. */
  lemma {:induction false} PoppedIsArrived(s: Rx, events: seq<Event>)
    requires Inv(s)
    ensures Run(s, events).popped == s.popped + Arrived(s, events)
  {
    hide Inv, Apply, Free;
    if events == [] {
      assert s.popped + [] == s.popped;
    } else {
      PoppedIsArrived(s, events[..|events| - 1]);
      ApplyPops(Run(s, events[..|events| - 1]), events[|events| - 1]);
    }
  }

  lemma StepShrinksRing(s: Rx)
    requires Inv(s)
    ensures var r := StepOf(s);
      && r.popped == s.popped && Indices(s.buf, s.rout, s.rin) && Indices(r.buf, r.rout, r.rin)
      && |Contents(r.buf, r.rout, r.rin)| <= |Contents(s.buf, s.rout, s.rin)|
  {
    hide Contents, Delivered, EntryOk, SnapshotOk;
    if s.pc.Copy? && |s.pc.moved| == s.pc.n { PublishKeepsInv(s); }
  }

  lemma StepGrows(s: Rx)
    requires Inv(s)
    ensures var r := StepOf(s); r.popped == s.popped && Delivered(s) <= Delivered(r)
  {
    hide Contents, Delivered, EntryOk, SnapshotOk, PcOk, StepOf;
    StepKeepsInv(s);
    StepShrinksRing(s);
    var r := StepOf(s);
    assert Delivered(s) == s.popped[..|Delivered(s)|] && Delivered(r) == s.popped[..|Delivered(r)|];
  }

  lemma ApplyGrows(s: Rx, e: Event)
    requires Inv(s)
    ensures var r := Apply(s, e); s.popped <= r.popped && Delivered(s) <= Delivered(r)
  {
    hide Contents, StepOf;
    var r := Apply(s, e);
    match e
    case Read(_, _) => assert Delivered(r) == Delivered(s);
    case SetTimeout(_) => DeliveredSame(s, r);
    case Step => StepGrows(s);
    case Int(i) =>
      var x := InterruptEffect(s, i);
      DeliveredSame(s, r);
  }

  /** Nothing that arrived is ever dropped, changed or reordered: from any state on, what has been taken from the device and
      what has been delivered only grow at their ends, and what has been delivered is always a prefix of what was taken. */
  lemma {:induction false} StreamsOnlyGrow(s: Rx, events: seq<Event>)
    requires Inv(s)
    ensures var r := Run(s, events); s.popped <= r.popped && Delivered(s) <= Delivered(r) <= r.popped
  {
    hide Contents, Delivered, Apply, PcOk;
    if events != [] {
      StreamsOnlyGrow(s, events[..|events| - 1]);
      ApplyGrows(Run(s, events[..|events| - 1]), events[|events| - 1]);
    }
  }

  // After k events of the run, with n reads finished, a spin looked at host_inactive and found host.
  ghost predicate LookedAt(s: Rx, events: seq<Event>, k: nat, n: nat, host: nat, timeout: nat)
    requires Inv(s)
  {
    && k < |events| && events[k].Step?
    && var m := Run(s, events[..k]); m.pc.SpinHost? && |m.log| == n && m.hostInactive == host && m.timeout == timeout
  }

  // The look of call number n is one its spin has made.
  ghost predicate LookIsTrue(s: Rx, events: seq<Event>, n: nat, look: Look, timeout: nat)
    requires Inv(s)
  {
    look.Saw? ==> exists k: nat :: LookedAt(s, events, k, n, look.host, timeout)
  }

  lemma LookStays(s: Rx, events: seq<Event>, e: Event, n: nat, look: Look, timeout: nat)
    requires Inv(s) && LookIsTrue(s, events, n, look, timeout)
    ensures LookIsTrue(s, events + [e], n, look, timeout)
  {
    hide Inv, Run;
    if look.Saw? {
      var k: nat :| LookedAt(s, events, k, n, look.host, timeout);
      assert (events + [e])[..k] == events[..k];
      assert LookedAt(s, events + [e], k, n, look.host, timeout);
    }
  }

  // From p to r the log grows at most by the entry of the read in progress, and a look is kept or has just been made.
  ghost predicate LookKept(p: Rx, r: Rx) {
    && (!r.pc.Idle? && r.call.look.Saw? ==>
          && r.log == p.log && r.timeout == p.timeout && !p.pc.Idle?
          && (r.call.look == p.call.look || (p.pc.SpinHost? && r.pc.Recheck? && r.call.look == Saw(p.hostInactive))))
    && (r.log == p.log || (!p.pc.Idle? && |r.log| == |p.log| + 1 && r.log[..|p.log|] == p.log
          && r.log[|p.log|].look == p.call.look && r.log[|p.log|].timeout == p.timeout))
  }

  lemma StepLooks(p: Rx)
    requires Inv(p)
    ensures LookKept(p, StepOf(p))
  {
    hide Contents, Delivered, EntryOk, SnapshotOk, PcOk;
  }

  lemma InterruptLooks(p: Rx, e: Interrupt)
    requires Inv(p)
    ensures LookKept(p, Interrupted(p, e)) && Interrupted(p, e).pc == p.pc
  {
    hide Contents, Delivered, EntryOk, Interrupted, PcOk;
    var x := InterruptEffect(p, e);
  }

  lemma ApplyLooks(p: Rx, e: Event)
    requires Inv(p)
    ensures var r := Apply(p, e); LookKept(p, r) && (p.pc.SpinHost? && r.pc.Recheck? ==> e.Step?)
  {
    hide Inv, StepOf, Interrupted;
    match e
    case Step => StepLooks(p);
    case Int(i) => InterruptLooks(p, i);
    case Read(_, _) =>
    case SetTimeout(_) =>
  }

  lemma RunStep(s: Rx, events: seq<Event>, e: Event)
    requires Inv(s)
    ensures Run(s, events + [e]) == Apply(Run(s, events), e)
  {
    assert (events + [e])[..|events|] == events;
  }

  // The look of the read in progress, and those of the finished ones.
  ghost predicate LookTrue(s: Rx, events: seq<Event>)
    requires Inv(s)
  {
    var r := Run(s, events);
    !r.pc.Idle? ==> LookIsTrue(s, events, |r.log|, r.call.look, r.timeout)
  }

  ghost predicate LogTrue(s: Rx, events: seq<Event>)
    requires Inv(s)
  {
    var r := Run(s, events);
    forall i :: 0 <= i < |r.log| ==> LookIsTrue(s, events, i, r.log[i].look, r.log[i].timeout)
  }

  lemma LookCarries(s: Rx, events: seq<Event>, e: Event)
    requires Inv(s) && LookTrue(s, events)
    ensures LookTrue(s, events + [e])
  {
    hide Inv, Run, Apply, LookIsTrue;
    var p, r, all := Run(s, events), Run(s, events + [e]), events + [e];
    RunStep(s, events, e);
    ApplyLooks(p, e);
    if !r.pc.Idle? && r.call.look.Saw? && p.pc.SpinHost? && e.Step? && r.call.look == Saw(p.hostInactive) {
      assert all[..|events|] == events;
      assert LookedAt(s, all, |events|, |p.log|, p.hostInactive, p.timeout);
      LookFound(s, all, |events|, |p.log|, p.hostInactive, p.timeout);
    } else if !r.pc.Idle? && r.call.look.Saw? {
      LookStays(s, events, e, |p.log|, p.call.look, p.timeout);
    } else if !r.pc.Idle? {
      NoLook(s, all, |r.log|, r.timeout);
    }
  }

  lemma LookFound(s: Rx, events: seq<Event>, k: nat, n: nat, host: nat, timeout: nat)
    requires Inv(s) && LookedAt(s, events, k, n, host, timeout)
    ensures LookIsTrue(s, events, n, Saw(host), timeout)
  {
  }

  lemma NoLook(s: Rx, events: seq<Event>, n: nat, timeout: nat)
    requires Inv(s)
    ensures LookIsTrue(s, events, n, NotYet, timeout)
  {
  }

  lemma LogCarries(s: Rx, events: seq<Event>, e: Event)
    requires Inv(s) && LookTrue(s, events) && LogTrue(s, events)
    ensures LogTrue(s, events + [e])
  {
    hide Inv, Run, Apply, LookIsTrue;
    var p, r, all := Run(s, events), Run(s, events + [e]), events + [e];
    RunStep(s, events, e);
    ApplyLooks(p, e);
    forall i | 0 <= i < |r.log| ensures LookIsTrue(s, all, i, r.log[i].look, r.log[i].timeout) {
      if i < |p.log| {
        assert r.log[i] == p.log[i];
        LookStays(s, events, e, i, p.log[i].look, p.log[i].timeout);
      } else {
        LookStays(s, events, e, i, p.call.look, p.timeout);
      }
    }
  }

  lemma NothingRead(buf: seq<Byte>, timeout: nat)
    requires 2 <= |buf| && Inv(Init(buf, timeout))
    ensures LookTrue(Init(buf, timeout), []) && LogTrue(Init(buf, timeout), [])
  {
    hide Inv;
  }

  /** The absence a read reports was there: over every run from reset, the look recorded for each finished read, and for the
      one in progress, is the value of host_inactive at a spin of that very call. So a blocking read of some space that
      returns an error has seen host_inactive at or above the time-out. */
  lemma {:induction false} LooksAreTrue(buf: seq<Byte>, timeout: nat, events: seq<Event>)
    requires 2 <= |buf| && Inv(Init(buf, timeout))
    ensures LookTrue(Init(buf, timeout), events) && LogTrue(Init(buf, timeout), events)
  {
    hide *;
    if events == [] {
      NothingRead(buf, timeout);
    } else {
      var front, e := events[..|events| - 1], events[|events| - 1];
      LooksAreTrue(buf, timeout, front);
      LookCarries(Init(buf, timeout), front, e);
      LogCarries(Init(buf, timeout), front, e);
      assert events == front + [e];
    }
  }

  /** A blocking read of some space answers an error only when a spin of that call found host_inactive at or above the
      time-out. */
  lemma ErrorsNeedAbsence(buf: seq<Byte>, timeout: nat, events: seq<Event>, i: nat)
    requires 2 <= |buf| && Inv(Init(buf, timeout)) && i < |Run(Init(buf, timeout), events).log|
    ensures var e := Run(Init(buf, timeout), events).log[i];
      e.rc <= 0 && e.space > 0 && !e.nonblock ==>
        exists k: nat, host: nat :: LookedAt(Init(buf, timeout), events, k, i, host, e.timeout) && host >= e.timeout
  {
    hide Run, Init, LookedAt, Contents;
    var s := Init(buf, timeout);
    var r := Run(s, events);
    LooksAreTrue(buf, timeout, events);
    assert EntryOk(r.log[i]);
    assert LookIsTrue(s, events, i, r.log[i].look, r.log[i].timeout);
  }

  /** Nothing is taken from the device while the ring is full: an interrupt then leaves popped alone, and masks itself
      if it was a read interrupt. */
  lemma FullRingTakesNothing(s: Rx, rounds: seq<Round>)
    requires Inv(s) && |Contents(s.buf, s.rout, s.rin)| == |s.buf| - 1
    ensures Isr(s, rounds).popped == s.popped && Isr(s, rounds).rin == s.rin
    ensures rounds != [] && rounds[0].ri ==> !Isr(s, rounds).re
    decreases |rounds|
  {
    hide Contents;
    if rounds != [] && (rounds[0].ri || rounds[0].wi) {
      assert Wrap(s.rin + 1, |s.buf|) == s.rout;
      IsrKeepsFull(if rounds[0].ri then Fill(s, 1, rounds[0].fifo) else s, rounds[1..]);
    }
  }

  lemma {:induction false} IsrKeepsFull(s: Rx, rounds: seq<Round>)
    requires Indices(s.buf, s.rout, s.rin) && Wrap(s.rin + 1, |s.buf|) == s.rout
    ensures Isr(s, rounds) == s.(re := Isr(s, rounds).re) && (Isr(s, rounds).re ==> s.re)
    decreases |rounds|
  {
    hide Contents;
    if rounds != [] && (rounds[0].ri || rounds[0].wi) {
      IsrKeepsFull(if rounds[0].ri then Fill(s, 1, rounds[0].fifo) else s, rounds[1..]);
    }
  }

  /** The spin test has no aliasing: while a read waits, rx_in equals its snapshot exactly when nothing has arrived. */
  lemma SpinHasNoAliasing(buf: seq<Byte>, timeout: nat, events: seq<Event>)
    requires 2 <= |buf| && Inv(Init(buf, timeout))
    ensures var s := Run(Init(buf, timeout), events);
      s.pc.SpinIn? || s.pc.SpinHost? || s.pc.Recheck? ==>
        && (s.rin == s.call.inp <==> |s.popped| == s.call.snap)
        && (s.rin == s.call.inp <==> Contents(s.buf, s.rout, s.rin) == [])
  {
    hide Contents;
    var s := Run(Init(buf, timeout), events);
    assert PcOk(s);
  }

  /** A read that stops short of its space stops because, when it last looked, every byte that had arrived by then had
      been delivered. */
  lemma ShortReadsDrain(buf: seq<Byte>, timeout: nat, events: seq<Event>)
    requires 2 <= |buf| && Inv(Init(buf, timeout))
    ensures var s := Run(Init(buf, timeout), events);
      s.pc.Finish? && 0 < |s.call.got| < s.call.space ==> Delivered(s) == s.popped[..s.call.snap]
  {
    hide Contents;
    var s := Run(Init(buf, timeout), events);
    if s.pc.Finish? && 0 < |s.call.got| < s.call.space {
      assert |Delivered(s)| == s.call.snap;
      assert s.popped[..s.call.snap] == Delivered(s);
    }
  }

  lemma ApplyKeepsHonest(s: Rx, e: Event)
    requires Inv(s) && s.honest && (e.Int? ==> HonestInterrupt(e.e))
    ensures Apply(s, e).honest
  {
    hide Contents;
    if e.Int? { var x := InterruptEffect(s, e.e); }
  }

  lemma {:induction false} HonestRun(s: Rx, events: seq<Event>)
    requires Inv(s) && s.honest
    requires forall i :: 0 <= i < |events| && events[i].Int? ==> HonestInterrupt(events[i].e)
    ensures Run(s, events).honest
  {
    hide Contents;
    if events != [] {
      var front := events[..|events| - 1];
      assert forall i :: 0 <= i < |front| ==> front[i] == events[i];
      HonestRun(s, front);
      ApplyKeepsHonest(Run(s, front), events[|events| - 1]);
    }
  }

  lemma MaskedMeansBytes(s: Rx, space: int, nonblock: bool)
    requires Inv(s) && s.honest && s.pc.Idle? && !s.re && space > 0
    ensures Indices(s.buf, s.rout, s.rin) && Contents(s.buf, s.rout, s.rin) != []
    ensures var a := Apply(s, Read(space, nonblock)); Inv(a) && Inv(StepOf(a)) && StepOf(StepOf(a)).pc.Copy?
  {
    hide Contents, Delivered, EntryOk, SnapshotOk;
    var a := Apply(s, Read(space, nonblock));
    ApplyKeepsInv(s, Read(space, nonblock));
    StepKeepsInv(a);
    PieceIsHeld(s.buf, s.rout, s.rin);
  }

  /** No lost wake-up: with an honest device, the read interrupt is only ever left off while the ring holds bytes, so
      that the next read finds some; and every read that takes bytes ends with the interrupt enabled. */
  lemma NoLostWakeup(buf: seq<Byte>, timeout: nat, events: seq<Event>, space: int, nonblock: bool)
    requires 2 <= |buf| && Inv(Init(buf, timeout)) && space > 0
    requires forall i :: 0 <= i < |events| && events[i].Int? ==> HonestInterrupt(events[i].e)
    ensures var s := Run(Init(buf, timeout), events);
      && (s.pc.Idle? && !s.re ==>
           && Indices(s.buf, s.rout, s.rin) && Contents(s.buf, s.rout, s.rin) != []
           && var a := Apply(s, Read(space, nonblock));
              Inv(a) && Inv(StepOf(a)) && StepOf(StepOf(a)).pc.Copy?)
      && (s.pc.Finish? && s.call.got != [] ==> StepOf(s).re && StepOf(s).pc.Idle?)
  {
    hide Run, Inv, Contents, Apply;
    HonestRun(Init(buf, timeout), events);
    var s := Run(Init(buf, timeout), events);
    if s.pc.Idle? && !s.re { MaskedMeansBytes(s, space, nonblock); }
  }
}
