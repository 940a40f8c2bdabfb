/** The transmit side of the fast JTAG UART driver as a machine of small steps: every shared access of write() and
    close() is one step, and interrupts may come between any two of them. */
module UartTransmit {
  import opened Words
  import opened Errno
  import opened Ring
  import opened UartHardware

  // Where the foreground stands; the arguments are the locals in, n and the byte counter of memcpy.
  datatype Pc =
    | Idle
    | Test
    | SawIn(inp: nat)
    | Copy(inp: nat, n: nat, j: nat)
    | Kick
    | AfterKick
    | SpinOut
    | SpinHost
    | HostTest
    | CloseTest(nonblock: bool)
    | CloseHost(nonblock: bool)

  // The arguments and locals of the write in progress. The last two are bookkeeping: how much was sent when out was
  // read, and whether bytes were published since the last kick; done stands for ptr - start.
  datatype Call = Call(data: seq<Byte>, count: int, nonblock: bool, done: nat, out: nat, snap: nat, dirty: bool)

  const NO_CALL := Call([], 0, false, 0, 0, 0, false)

  // A finished call: its arguments, what host_inactive, the time-out and the ring were when it returned, and its result.
  datatype Entry =
    | Wrote(data: seq<Byte>, count: int, nonblock: bool, host: nat, rc: int)
    | Closed(nonblock: bool, drained: bool, host: nat, timeout: nat, rc: int)

  datatype Tx = Tx(buf: seq<Byte>, tin: nat, tout: nat, we: bool, hostInactive: nat, timeout: nat, pc: Pc, call: Call,
                   sent: seq<Byte>, log: seq<Entry>)

  datatype Event =
    | Write(data: seq<Byte>, count: int, nonblock: bool)
    | Close(nonblock: bool)
    | SetTimeout(timeout: nat)
    | Step
    | Int(e: Interrupt)

  function Init(buf: seq<Byte>, timeout: nat): Tx {
    Tx(buf, 0, 0, false, 0, timeout, Idle, NO_CALL, [], [])
  }

  // ---------------------------------------------------------------- interrupt level

  // The write half of the interrupt routine: fill the device FIFO, and mask the interrupt if room is left over.
  function Service(s: Tx, space: nat): Tx
    requires Indices(s.buf, s.tout, s.tin)
    decreases space
  {
    if space > 0 && s.tout != s.tin then
      Service(s.(sent := s.sent + [s.buf[s.tout]], tout := Wrap(s.tout + 1, |s.buf|)), space - 1)
    else if space > 0 then s.(we := false)
    else s
  }

  function Isr(s: Tx, rounds: seq<Round>): Tx
    requires Indices(s.buf, s.tout, s.tin)
    decreases |rounds|
  {
    if rounds == [] || (!rounds[0].ri && !rounds[0].wi) then s
    else
      ServiceKeepsShape(s, rounds[0].wspace);
      Isr(if rounds[0].wi then Service(s, rounds[0].wspace) else s, rounds[1..])
  }

  function Interrupted(s: Tx, e: Interrupt): Tx
    requires Indices(s.buf, s.tout, s.tin)
  {
    match e
    case Irq(rounds) => Isr(s, rounds)
    case Alarm(ac) => s.(hostInactive := HostTick(s.hostInactive, ac))
  }

  // ---------------------------------------------------------------- foreground

  function Return(s: Tx): Tx {
    var c := s.call;
    var rc := if c.done > 0 then c.done else if c.nonblock then -EWOULDBLOCK else -EIO;
    s.(pc := Idle, log := s.log + [Wrote(c.data, c.count, c.nonblock, s.hostInactive, rc)])
  }

  function ReturnClose(s: Tx, nonblock: bool, rc: int): Tx {
    s.(pc := Idle, log := s.log + [Closed(nonblock, s.tout == s.tin, s.hostInactive, s.timeout, rc)])
  }

  function StepOf(s: Tx): Tx
    requires Inv(s)
  {
    var c := s.call;
    match s.pc
    case Idle => s
    case Test => s.(pc := if c.count - c.done > 0 then SawIn(s.tin) else Kick)
    case SawIn(inp) =>
      var n := Room(|s.buf|, inp, s.tout);
      s.(call := c.(out := s.tout, snap := |s.sent|),
         pc := if n == 0 then Kick else Copy(inp, Min(n, c.count - c.done), 0))
    case Copy(inp, n, j) =>
      if j < n then
        s.(buf := s.buf[inp + j := c.data[c.done + j]], pc := Copy(inp, n, j + 1))
      else
        s.(tin := Wrap(inp + n, |s.buf|), call := c.(done := c.done + n, dirty := true), pc := Test)
    case Kick => s.(we := true, call := c.(dirty := false), pc := AfterKick)
    case AfterKick =>
      if c.count - c.done > 0 && !c.nonblock then s.(pc := SpinOut) else Return(s)
    case SpinOut => s.(pc := if c.out == s.tout then SpinHost else HostTest)
    case SpinHost => s.(pc := if s.hostInactive < s.timeout then SpinOut else HostTest)
    case HostTest =>
      if s.hostInactive != 0 then Return(s) else s.(pc := Test)
    case CloseTest(nb) =>
      if s.tout != s.tin then s.(pc := CloseHost(nb)) else ReturnClose(s, nb, 0)
    case CloseHost(nb) =>
      if s.hostInactive < s.timeout then
        if nb then ReturnClose(s, nb, -EWOULDBLOCK) else s.(pc := CloseTest(nb))
      else ReturnClose(s, nb, 0)
  }

  // A call can only begin when none is in progress; an event that cannot happen changes nothing.
  function Apply(s: Tx, e: Event): Tx
    requires Inv(s)
  {
    match e
    case Write(data, count, nonblock) =>
      if s.pc.Idle? && count <= |data| then
        s.(pc := Test, call := Call(data, count, nonblock, 0, 0, 0, false))
      else s
    case Close(nonblock) => if s.pc.Idle? then s.(pc := CloseTest(nonblock)) else s
    case SetTimeout(t) => if s.pc.Idle? then s.(timeout := t) else s
    case Step => StepOf(s)
    case Int(i) => Interrupted(s, i)
  }

  /** Every run keeps the invariant, whatever the calls and wherever the interrupts come. */
  function Run(s: Tx, events: seq<Event>): (r: Tx)
    requires Inv(s)
    ensures Inv(r)
  {
    if events == [] then s
    else
      var p := Run(s, events[..|events| - 1]);
      ApplyKeepsInv(p, events[|events| - 1]);
      Apply(p, events[|events| - 1])
  }

  // ---------------------------------------------------------------- the invariant

  // The bytes a finished call says it took: the first rc of a write that returned a positive rc.
  function Taken(e: Entry): seq<Byte> {
    if e.Wrote? && 0 < e.rc <= |e.data| then e.data[..e.rc] else []
  }

  function TakenByAll(log: seq<Entry>): seq<Byte> {
    if log == [] then [] else TakenByAll(log[..|log| - 1]) + Taken(log[|log| - 1])
  }

  predicate InWrite(pc: Pc) { !pc.Idle? && !pc.CloseTest? && !pc.CloseHost? }

  // What the callers have been told was accepted, and what the call in progress has taken so far.
  function Accepted(s: Tx): seq<Byte> {
    TakenByAll(s.log) + (if InWrite(s.pc) && s.call.done <= |s.call.data| then s.call.data[..s.call.done] else [])
  }

  // A short count needs O_NONBLOCK or an absent host, and so does an error from a write of at least one byte. A close
  // succeeds with everything sent or the host timed out, and is refused only in non-blocking mode.
  ghost predicate EntryOk(e: Entry) {
    match e
    case Wrote(data, count, nonblock, host, rc) =>
      && (rc > 0 ==> rc <= count <= |data| && (rc < count ==> nonblock || host != 0))
      && (rc <= 0 ==> rc == if nonblock then -EWOULDBLOCK else -EIO)
      && (rc <= 0 && count > 0 ==> nonblock || host != 0)
    case Closed(nonblock, drained, host, timeout, rc) =>
      if rc == 0 then drained || host >= timeout else rc == -EWOULDBLOCK && nonblock && host < timeout
  }

  ghost predicate CallOk(c: Call) {
    c.count <= |c.data| && c.done <= (if c.count > 0 then c.count else 0)
  }

  // The ring was full when out was read, and has only been drained since.
  ghost predicate SnapshotOk(s: Tx)
    requires Indices(s.buf, s.tout, s.tin)
  {
    var c := s.call;
    && c.out < |s.buf| && c.snap <= |s.sent| && |s.sent| - c.snap < |s.buf|
    && s.tout == Wrap(c.out + (|s.sent| - c.snap), |s.buf|)
    && |Contents(s.buf, s.tout, s.tin)| == |s.buf| - 1 - (|s.sent| - c.snap)
  }

  ghost predicate PcOk(s: Tx)
    requires Indices(s.buf, s.tout, s.tin) && CallOk(s.call)
  {
    var c := s.call;
    match s.pc
    case Idle | Test | CloseTest(_) | CloseHost(_) => true
    case SawIn(inp) => inp == s.tin && c.done < c.count
    case Copy(inp, n, j) =>
      && inp == s.tin && j <= n && 1 <= n && c.done + n <= c.count
      && inp + n <= |s.buf| && |Contents(s.buf, s.tout, s.tin)| + n < |s.buf|
      && s.buf[inp..inp + j] == c.data[c.done..c.done + j]
    case Kick | AfterKick => c.done < c.count ==> SnapshotOk(s)
    case SpinOut | SpinHost => c.done < c.count && !c.nonblock && SnapshotOk(s)
    case HostTest => c.done < c.count && !c.nonblock
  }

  predicate MayBeUnkicked(s: Tx) {
    (s.pc.Test? || s.pc.SawIn? || s.pc.Copy? || s.pc.Kick?) && s.call.dirty
  }

  ghost predicate Inv(s: Tx) {
    && Indices(s.buf, s.tout, s.tin)
    && s.sent + Contents(s.buf, s.tout, s.tin) == Accepted(s)
    && (forall i :: 0 <= i < |s.log| ==> EntryOk(s.log[i]))
    && (InWrite(s.pc) ==> CallOk(s.call) && PcOk(s))
    && (Contents(s.buf, s.tout, s.tin) != [] && !s.we ==> MayBeUnkicked(s))
  }

  // ---------------------------------------------------------------- interrupts keep it

  lemma ServiceKeepsShape(s: Tx, space: nat)
    requires Indices(s.buf, s.tout, s.tin)
    ensures var r := Service(s, space);
      Indices(r.buf, r.tout, r.tin) && r == s.(tout := r.tout, sent := r.sent, we := r.we)
    decreases space
  {
  }

  // An interrupt drains k bytes off the front of the ring, and masks itself only on an empty ring.
  ghost predicate Drains(s: Tx, r: Tx, k: nat)
    requires Indices(s.buf, s.tout, s.tin)
  {
    && k <= |Contents(s.buf, s.tout, s.tin)|
    && r == s.(tout := r.tout, sent := r.sent, we := r.we, hostInactive := r.hostInactive)
    && r.tout == Wrap(s.tout + k, |s.buf|)
    && r.sent == s.sent + Contents(s.buf, s.tout, s.tin)[..k]
    && Contents(r.buf, r.tout, r.tin) == Contents(s.buf, s.tout, s.tin)[k..]
    && (r.we ==> s.we)
    && (s.we && !r.we ==> Contents(r.buf, r.tout, r.tin) == [])
  }

  lemma DrainsNone(s: Tx)
    requires Indices(s.buf, s.tout, s.tin)
    ensures Drains(s, s, 0)
  {
  }

  lemma DrainsOne(s: Tx)
    requires Indices(s.buf, s.tout, s.tin) && s.tout != s.tin
    ensures Drains(s, s.(sent := s.sent + [s.buf[s.tout]], tout := Wrap(s.tout + 1, |s.buf|)), 1)
  {
    Pop(s.buf, s.tout, s.tin);
  }

  lemma DrainsCompose(s: Tx, m: Tx, r: Tx, j: nat, k: nat)
    requires Indices(s.buf, s.tout, s.tin) && Drains(s, m, j)
    requires Indices(m.buf, m.tout, m.tin) && Drains(m, r, k)
    ensures Drains(s, r, j + k)
  {
    hide Contents;
    var held := Contents(s.buf, s.tout, s.tin);
    assert held[..j] + held[j..][..k] == held[..j + k];
    assert held[j..][k..] == held[j + k..];
    assert s.sent + held[..j] + held[j..][..k] == s.sent + (held[..j] + held[j..][..k]);
  }

  // What one service does: as much of the ring as the device has room for, masking the interrupt if room is left.
  lemma {:induction false} ServiceEffect(s: Tx, space: nat) returns (k: nat)
    requires Indices(s.buf, s.tout, s.tin)
    ensures var r := Service(s, space);
      && k == Min(space, |Contents(s.buf, s.tout, s.tin)|) && Drains(s, r, k)
      && r.we == (s.we && space <= |Contents(s.buf, s.tout, s.tin)|)
    decreases space
  {
    hide Contents;
    k := 0;
    if space > 0 && s.tout != s.tin {
      var m := s.(sent := s.sent + [s.buf[s.tout]], tout := Wrap(s.tout + 1, |s.buf|));
      DrainsOne(s);
      k := ServiceEffect(m, space - 1);
      DrainsCompose(s, m, Service(s, space), 1, k);
      k := k + 1;
    }
  }

  /** The passes of one interrupt send, in order, as much of the ring as they find room for altogether, and mask the write
      interrupt exactly if they find more. */
  lemma {:induction false} IsrEffect(s: Tx, rounds: seq<Round>) returns (k: nat)
    requires Indices(s.buf, s.tout, s.tin)
    ensures Drains(s, Isr(s, rounds), k)
    ensures k == Min(SpaceOver(rounds), |Contents(s.buf, s.tout, s.tin)|)
    ensures Isr(s, rounds).we == (s.we && SpaceOver(rounds) <= |Contents(s.buf, s.tout, s.tin)|)
    decreases |rounds|
  {
    hide Contents, Service;
    DrainsNone(s);
    k := 0;
    if rounds != [] && (rounds[0].ri || rounds[0].wi) {
      var m := s;
      if rounds[0].wi {
        k := ServiceEffect(s, rounds[0].wspace);
        m := Service(s, rounds[0].wspace);
        ServiceKeepsShape(s, rounds[0].wspace);
      }
      var j := IsrEffect(m, rounds[1..]);
      DrainsCompose(s, m, Isr(m, rounds[1..]), k, j);
      k := k + j;
    }
  }

  lemma InterruptEffect(s: Tx, e: Interrupt) returns (k: nat)
    requires Indices(s.buf, s.tout, s.tin)
    ensures Drains(s, Interrupted(s, e), k)
  {
    hide Contents;
    k := 0;
    if e.Irq? { k := IsrEffect(s, e.rounds); }
  }

  lemma AcceptedSame(s: Tx, r: Tx)
    requires r.log == s.log && r.call.data == s.call.data && r.call.done == s.call.done
    requires InWrite(r.pc) == InWrite(s.pc)
    ensures Accepted(r) == Accepted(s)
  {
  }

  // What is sent moves from the front of the ring to the end of what was sent.
  lemma DrainKeepsStream(s: Tx, r: Tx, k: nat)
    requires Indices(s.buf, s.tout, s.tin) && Drains(s, r, k) && Indices(r.buf, r.tout, r.tin)
    ensures r.sent + Contents(r.buf, r.tout, r.tin) == s.sent + Contents(s.buf, s.tout, s.tin)
  {
    hide Contents;
    var held := Contents(s.buf, s.tout, s.tin);
    assert held[..k] + held[k..] == held;
  }

  lemma InterruptKeepsInv(s: Tx, e: Interrupt)
    requires Inv(s)
    ensures Inv(Interrupted(s, e))
  {
    hide Contents, Accepted, EntryOk, Interrupted;
    var k := InterruptEffect(s, e);
    var r := Interrupted(s, e);
    DrainKeepsStream(s, r, k);
    AcceptedSame(s, r);
  }

  // ---------------------------------------------------------------- the foreground keeps it

  lemma ReturnKeepsInv(s: Tx)
    requires Inv(s) && InWrite(s.pc)
    requires s.call.done < s.call.count ==> s.call.nonblock || s.hostInactive != 0
    requires Contents(s.buf, s.tout, s.tin) != [] ==> s.we
    ensures Inv(Return(s))
  {
    hide Contents;
    var r := Return(s);
    assert r.log[..|r.log| - 1] == s.log;
    assert Accepted(r) == Accepted(s);
  }

  lemma ReturnCloseKeepsInv(s: Tx, nonblock: bool, rc: int)
    requires Inv(s) && (s.pc.CloseTest? || s.pc.CloseHost?)
    requires EntryOk(Closed(nonblock, s.tout == s.tin, s.hostInactive, s.timeout, rc))
    ensures Inv(ReturnClose(s, nonblock, rc))
  {
    hide Contents;
    var r := ReturnClose(s, nonblock, rc);
    assert r.log[..|r.log| - 1] == s.log;
    assert Accepted(r) == Accepted(s);
  }

  lemma ReadOutKeepsInv(s: Tx)
    requires Inv(s) && s.pc.SawIn?
    ensures Inv(StepOf(s))
  {
    hide Contents, Accepted, EntryOk;
    AcceptedSame(s, StepOf(s));
    RoomIsFree(s.buf, s.tout, s.tin);
  }

  lemma CopiedSoFar(buf: seq<Byte>, inp: nat, j: nat, data: seq<Byte>, done: nat)
    requires inp + j < |buf| && done + j < |data| && buf[inp..inp + j] == data[done..done + j]
    ensures buf[inp + j := data[done + j]][inp..inp + (j + 1)] == data[done..done + (j + 1)]
  {
    var r := buf[inp + j := data[done + j]];
    assert r[inp..inp + (j + 1)] == buf[inp..inp + j] + [data[done + j]];
    assert data[done..done + (j + 1)] == data[done..done + j] + [data[done + j]];
  }

  // Storing a byte cannot touch a live slot, however far the interrupt has moved tx_out since it was read.
  lemma CopyByteKeepsInv(s: Tx)
    requires Inv(s) && s.pc.Copy? && s.pc.j < s.pc.n
    ensures Inv(StepOf(s)) && Contents(StepOf(s).buf, s.tout, s.tin) == Contents(s.buf, s.tout, s.tin)
  {
    hide Contents, Accepted, EntryOk, SnapshotOk;
    var c := s.call;
    var Copy(inp, n, j) := s.pc;
    StoreFree(s.buf, s.tout, s.tin, j, c.data[c.done + j]);
    CopiedSoFar(s.buf, inp, j, c.data, c.done);
    AcceptedSame(s, StepOf(s));
  }

  // Publishing tx_in hands exactly the n copied bytes to the interrupt routine.
  lemma PublishAppends(s: Tx)
    requires Inv(s) && s.pc.Copy? && s.pc.j == s.pc.n
    ensures var r := StepOf(s);
      && Indices(r.buf, r.tout, r.tin)
      && Contents(r.buf, r.tout, r.tin)
         == Contents(s.buf, s.tout, s.tin) + s.call.data[s.call.done..s.call.done + s.pc.n]
  {
    hide Contents;
    Publish(s.buf, s.tout, s.tin, s.pc.n);
  }

  lemma PrefixGrows(x: seq<Byte>, data: seq<Byte>, a: nat, n: nat)
    requires a + n <= |data|
    ensures x + data[..a] + data[a..a + n] == x + data[..a + n]
  {
    assert data[..a] + data[a..a + n] == data[..a + n];
  }

  lemma PublishAccepts(s: Tx)
    requires Inv(s) && s.pc.Copy? && s.pc.j == s.pc.n
    ensures Accepted(StepOf(s)) == Accepted(s) + s.call.data[s.call.done..s.call.done + s.pc.n]
  {
    hide Contents, TakenByAll, EntryOk, SnapshotOk;
    PrefixGrows(TakenByAll(s.log), s.call.data, s.call.done, s.pc.n);
  }

  lemma PublishKeepsInv(s: Tx)
    requires Inv(s) && s.pc.Copy? && s.pc.j == s.pc.n
    ensures Inv(StepOf(s))
  {
    hide Contents;
    var r := StepOf(s);
    var chunk := s.call.data[s.call.done..s.call.done + s.pc.n];
    PublishAppends(s);
    PublishAccepts(s);
    calc {
      r.sent + Contents(r.buf, r.tout, r.tin);
      s.sent + (Contents(s.buf, s.tout, s.tin) + chunk);
      (s.sent + Contents(s.buf, s.tout, s.tin)) + chunk;
      Accepted(s) + chunk;
      Accepted(r);
    }
    assert PcOk(r);
  }

  // The steps that only move the program counter or take a snapshot.
  lemma LocalStepKeepsInv(s: Tx)
    requires Inv(s) && (s.pc.Idle? || s.pc.Test? || s.pc.Kick? || s.pc.SpinOut? || s.pc.SpinHost?)
    ensures Inv(StepOf(s))
  {
    hide Contents, Accepted, EntryOk;
    AcceptedSame(s, StepOf(s));
  }

  lemma AfterKickKeepsInv(s: Tx)
    requires Inv(s) && s.pc.AfterKick?
    ensures Inv(StepOf(s))
  {
    hide Contents, Accepted, EntryOk;
    if s.call.done >= s.call.count || s.call.nonblock { ReturnKeepsInv(s); } else { AcceptedSame(s, StepOf(s)); }
  }

  lemma HostTestKeepsInv(s: Tx)
    requires Inv(s) && s.pc.HostTest?
    ensures Inv(StepOf(s))
  {
    hide Contents, Accepted, EntryOk;
    if s.hostInactive != 0 { ReturnKeepsInv(s); } else { AcceptedSame(s, StepOf(s)); }
  }

  lemma CloseTestKeepsInv(s: Tx)
    requires Inv(s) && s.pc.CloseTest?
    ensures Inv(StepOf(s))
  {
    hide Contents, Accepted;
    if s.tout == s.tin { ReturnCloseKeepsInv(s, s.pc.nonblock, 0); } else { AcceptedSame(s, StepOf(s)); }
  }

  lemma CloseHostKeepsInv(s: Tx)
    requires Inv(s) && s.pc.CloseHost?
    ensures Inv(StepOf(s))
  {
    hide Contents, Accepted;
    if s.hostInactive >= s.timeout {
      ReturnCloseKeepsInv(s, s.pc.nonblock, 0);
    } else if s.pc.nonblock {
      ReturnCloseKeepsInv(s, s.pc.nonblock, -EWOULDBLOCK);
    } else {
      AcceptedSame(s, StepOf(s));
    }
  }

  lemma StepKeepsInv(s: Tx)
    requires Inv(s)
    ensures Inv(StepOf(s))
  {
    hide Contents, StepOf, Accepted, EntryOk, SnapshotOk;
    match s.pc
    case Idle | Test | Kick | SpinOut | SpinHost => LocalStepKeepsInv(s);
    case SawIn(_) => ReadOutKeepsInv(s);
    case Copy(_, n, j) => if j < n { CopyByteKeepsInv(s); } else { PublishKeepsInv(s); }
    case AfterKick => AfterKickKeepsInv(s);
    case HostTest => HostTestKeepsInv(s);
    case CloseTest(_) => CloseTestKeepsInv(s);
    case CloseHost(_) => CloseHostKeepsInv(s);
  }

  lemma ApplyKeepsInv(s: Tx, e: Event)
    requires Inv(s)
    ensures Inv(Apply(s, e))
  {
    hide Contents;
    match e
    case Write(_, _, _) => assert Accepted(Apply(s, e)) == Accepted(s);
    case Close(_) => assert Accepted(Apply(s, e)) == Accepted(s);
    case SetTimeout(_) =>
    case Step => StepKeepsInv(s);
    case Int(i) => InterruptKeepsInv(s, i);
  }

  // ---------------------------------------------------------------- what holds in every run

  // The part of the write in progress that has been taken already.
  function InProgress(s: Tx): seq<Byte>
    requires InWrite(s.pc) ==> s.call.done <= |s.call.data|
  {
    if InWrite(s.pc) then s.call.data[..s.call.done] else []
  }

  lemma InitInv(buf: seq<Byte>, timeout: nat)
    requires 2 <= |buf|
    ensures Inv(Init(buf, timeout))
  {
    hide Contents;
    assert Accepted(Init(buf, timeout)) == [];
  }

  /** Transmit refinement: what went to the DATA register, followed by what the ring holds, is the concatenation of the
      prefixes that the finished writes reported and the prefix the running write has taken. */
  lemma TransmitRefinement(buf: seq<Byte>, timeout: nat, events: seq<Event>)
    requires 2 <= |buf|
    ensures Inv(Init(buf, timeout))
    ensures var s := Run(Init(buf, timeout), events);
      && (InWrite(s.pc) ==> s.call.done <= |s.call.data|)
      && s.sent + Contents(s.buf, s.tout, s.tin) == TakenByAll(s.log) + InProgress(s)
      && |TakenByAll(s.log) + InProgress(s)| - |s.sent| <= |s.buf| - 1
      && forall i :: 0 <= i < |s.log| ==> EntryOk(s.log[i])
  {
    hide Contents;
    InitInv(buf, timeout);
    var s := Run(Init(buf, timeout), events);
    assert |s.sent + Contents(s.buf, s.tout, s.tin)| == |s.sent| + |Contents(s.buf, s.tout, s.tin)|;
  }

  lemma StepKeepsLive(s: Tx)
    requires Inv(s)
    ensures var r := StepOf(s);
      && r.tout == s.tout && r.sent == s.sent && Indices(r.buf, r.tout, r.tin) && Indices(s.buf, s.tout, s.tin)
      && Contents(s.buf, s.tout, s.tin) <= Contents(r.buf, r.tout, r.tin)
      && (r.tin == s.tin ==> Contents(s.buf, s.tout, s.tin) == Contents(r.buf, r.tout, r.tin))
  {
    hide Contents, Accepted, EntryOk, SnapshotOk;
    if s.pc.Copy? {
      if s.pc.j < s.pc.n { CopyByteKeepsInv(s); } else { PublishAppends(s); }
    }
  }

  /** No step of a write touches a byte the interrupt routine may still send: between interrupts the ring is unchanged
      or grows at its end by the block just published. */
  lemma LiveBytesKept(buf: seq<Byte>, timeout: nat, events: seq<Event>)
    requires 2 <= |buf| && Inv(Init(buf, timeout))
    ensures var s := Run(Init(buf, timeout), events); var r := StepOf(s);
      && r.tout == s.tout && r.sent == s.sent && Indices(r.buf, r.tout, r.tin) && Indices(s.buf, s.tout, s.tin)
      && Contents(s.buf, s.tout, s.tin) <= Contents(r.buf, r.tout, r.tin)
      && (r.tin == s.tin ==> Contents(s.buf, s.tout, s.tin) == Contents(r.buf, r.tout, r.tin))
  {
    hide Run, Init, Inv, StepOf, Contents;
    StepKeepsLive(Run(Init(buf, timeout), events));
  }

  // A step that leaves what was sent alone and the ring grown at most at its end accepts more, at most.
  lemma Grown(s: Tx, r: Tx)
    requires Inv(s) && Inv(r) && r.sent == s.sent
    requires Contents(s.buf, s.tout, s.tin) <= Contents(r.buf, r.tout, r.tin)
    ensures Accepted(s) <= Accepted(r)
  {
    hide Contents, Accepted, PcOk, EntryOk, CallOk;
    var held, grown := Contents(s.buf, s.tout, s.tin), Contents(r.buf, r.tout, r.tin);
    assert grown == held + grown[|held|..];
    assert s.sent + grown == s.sent + held + grown[|held|..];
  }

  lemma InterruptGrows(s: Tx, e: Interrupt)
    requires Inv(s)
    ensures var r := Interrupted(s, e); s.sent <= r.sent && Accepted(s) == Accepted(r)
  {
    hide Contents, Accepted, PcOk, EntryOk, CallOk, Interrupted;
    var k := InterruptEffect(s, e);
    AcceptedSame(s, Interrupted(s, e));
  }

  lemma ApplyGrows(s: Tx, e: Event)
    requires Inv(s)
    ensures var r := Apply(s, e); s.sent <= r.sent && Accepted(s) <= Accepted(r)
  {
    hide Inv, Contents, Accepted, StepOf, Interrupted;
    ApplyKeepsInv(s, e);
    match e
    case Int(i) => InterruptGrows(s, i);
    case Step =>
      StepKeepsLive(s);
      Grown(s, StepOf(s));
    case Write(_, _, _) => Grown(s, Apply(s, e));
    case Close(_) => Grown(s, Apply(s, e));
    case SetTimeout(_) => Grown(s, Apply(s, e));
  }

  /** Nothing accepted is ever dropped, changed or reordered: from any state on, what has been sent and what has been
      accepted only grow at their ends, and what has been sent is always a prefix of what has been accepted. */
  lemma {:induction false} StreamsOnlyGrow(s: Tx, events: seq<Event>)
    requires Inv(s)
    ensures var r := Run(s, events); s.sent <= r.sent <= Accepted(r) && Accepted(s) <= Accepted(r)
  {
    hide Contents, Accepted, Apply, PcOk;
    if events != [] {
      StreamsOnlyGrow(s, events[..|events| - 1]);
      ApplyGrows(Run(s, events[..|events| - 1]), events[|events| - 1]);
    }
  }

  /** The spin test has no aliasing: while a write waits, tx_out equals its snapshot exactly when nothing has been sent
      since the snapshot was taken, and at that moment the ring was full. */
  lemma SpinHasNoAliasing(buf: seq<Byte>, timeout: nat, events: seq<Event>)
    requires 2 <= |buf| && Inv(Init(buf, timeout))
    ensures var s := Run(Init(buf, timeout), events);
      s.pc.SpinOut? || s.pc.SpinHost? ==>
        && (s.tout == s.call.out <==> |s.sent| == s.call.snap)
        && |Accepted(s)| - s.call.snap == |s.buf| - 1
  {
    hide Contents;
    var s := Run(Init(buf, timeout), events);
    if s.pc.SpinOut? || s.pc.SpinHost? {
      assert |Accepted(s)| == |s.sent| + |Contents(s.buf, s.tout, s.tin)|;
    }
  }

  lemma WaitingIsFull(s: Tx)
    requires Inv(s) && s.pc.SpinOut? && s.tout == s.call.out
    ensures s.we && |s.sent| == s.call.snap && |Contents(s.buf, s.tout, s.tin)| == |s.buf| - 1 > 0
  {
    hide Contents, Accepted, EntryOk;
  }

  // An interrupt that finds room sends something.
  lemma RoomSends(s: Tx, rounds: seq<Round>)
    requires Indices(s.buf, s.tout, s.tin) && Contents(s.buf, s.tout, s.tin) != []
    requires rounds != [] && rounds[0].wi && rounds[0].wspace > 0
    ensures var r := Isr(s, rounds); |s.sent| < |r.sent| && r.call == s.call && r.pc == s.pc
  {
    hide Contents, Service;
    var j := ServiceEffect(s, rounds[0].wspace);
    var m := Service(s, rounds[0].wspace);
    ServiceKeepsShape(s, rounds[0].wspace);
    var k := IsrEffect(m, rounds[1..]);
    assert Isr(s, rounds) == Isr(m, rounds[1..]);
  }

  lemma SentReleases(r: Tx)
    requires Inv(r) && r.pc.SpinOut? && |r.sent| > r.call.snap
    ensures StepOf(r).pc == HostTest
  {
    hide Contents, Accepted, EntryOk;
  }

  /** No lost wake-up: unless a write has published bytes and not yet reached its kick, bytes in the ring mean that the
      write interrupt is enabled; and a waiting write is let go by the first interrupt that finds room in the device. */
  lemma NoLostWakeup(buf: seq<Byte>, timeout: nat, events: seq<Event>, rounds: seq<Round>)
    requires 2 <= |buf| && Inv(Init(buf, timeout))
    ensures var s := Run(Init(buf, timeout), events);
      && (Contents(s.buf, s.tout, s.tin) != [] && !MayBeUnkicked(s) ==> s.we)
      && (s.pc.SpinOut? && s.tout == s.call.out ==> s.we)
      && (s.pc.SpinOut? && s.tout == s.call.out && rounds != [] && rounds[0].wi && rounds[0].wspace > 0 ==>
           Inv(Isr(s, rounds)) && StepOf(Isr(s, rounds)).pc == HostTest)
  {
    hide Contents, Isr, StepOf, Accepted, EntryOk, SnapshotOk, Run, Init;
    var s := Run(Init(buf, timeout), events);
    if s.pc.SpinOut? && s.tout == s.call.out {
      WaitingIsFull(s);
      if rounds != [] && rounds[0].wi && rounds[0].wspace > 0 {
        InterruptKeepsInv(s, Irq(rounds));
        RoomSends(s, rounds);
        hide Inv;
        SentReleases(Isr(s, rounds));
      }
    }
  }

  // From s to r no call returns, or one does and its entry says what was the case in s.
  ghost predicate ReturnsTruly(s: Tx, r: Tx) {
    var c := s.call;
    r.log == s.log || (r.pc.Idle? && |r.log| == |s.log| + 1 && r.log[..|s.log|] == s.log && match r.log[|s.log|]
      case Wrote(data, count, nonblock, host, rc) =>
        && InWrite(s.pc) && (data, count, nonblock) == (c.data, c.count, c.nonblock) && host == s.hostInactive
        && (c.done < count ==> nonblock || s.hostInactive != 0)
        && rc == if c.done > 0 then c.done else if nonblock then -EWOULDBLOCK else -EIO
      case Closed(nonblock, drained, host, timeout, rc) =>
        && (drained <==> s.tout == s.tin) && host == s.hostInactive && timeout == s.timeout
        && (rc == 0 ==> s.sent == TakenByAll(s.log) || s.hostInactive >= s.timeout))
  }

  lemma DrainedMeansSent(s: Tx)
    requires Inv(s) && s.pc.CloseTest? && s.tout == s.tin
    ensures s.sent == TakenByAll(s.log)
  {
    hide TakenByAll, EntryOk;
    assert Contents(s.buf, s.tout, s.tin) == [];
    assert s.sent + [] == Accepted(s) == TakenByAll(s.log);
  }

  lemma StepReturns(s: Tx)
    requires Inv(s)
    ensures ReturnsTruly(s, StepOf(s))
  {
    hide Contents, EntryOk, Accepted, TakenByAll, SnapshotOk;
    if s.pc.CloseTest? && s.tout == s.tin { DrainedMeansSent(s); }
  }

  lemma InterruptReturnsNothing(s: Tx, e: Interrupt)
    requires Inv(s)
    ensures Interrupted(s, e).log == s.log
  {
    hide Contents, Accepted, EntryOk, PcOk;
    var k := InterruptEffect(s, e);
  }

  /** What a call reports is what was the case when it returned: in every run only a foreground step returns; a write then
      answers with the bytes it has taken, fewer than asked only in non-blocking mode or at a moment when host_inactive is
      not zero; a close then answers 0 only with everything accepted sent or host_inactive at the time-out. */
  lemma ReturnsAreTrue(buf: seq<Byte>, timeout: nat, events: seq<Event>, e: Event)
    requires 2 <= |buf| && Inv(Init(buf, timeout))
    ensures var s := Run(Init(buf, timeout), events); var r := Apply(s, e);
      ReturnsTruly(s, r) && (r.log != s.log ==> e.Step?)
  {
    hide Run, Init, Inv, StepOf, Contents, TakenByAll;
    var s := Run(Init(buf, timeout), events);
    if e.Step? { StepReturns(s); }
    if e.Int? { InterruptReturnsNothing(s, e.e); }
  }

  lemma CloseStep(s: Tx)
    requires Inv(s)
    ensures s.pc.CloseTest? && StepOf(s).pc.Idle? ==>
      StepOf(s).log == s.log + [Closed(s.pc.nonblock, true, s.hostInactive, s.timeout, 0)]
      && s.sent == TakenByAll(s.log)
    ensures s.pc.CloseHost? && StepOf(s).pc.Idle? ==>
      StepOf(s).log == s.log + [Closed(s.pc.nonblock, s.tout == s.tin, s.hostInactive, s.timeout,
                                       if s.hostInactive >= s.timeout then 0 else -EWOULDBLOCK)]
      && (s.hostInactive < s.timeout ==> s.pc.nonblock)
  {
    hide Contents, TakenByAll, EntryOk, Accepted;
    if s.pc.CloseTest? && s.tout == s.tin { DrainedMeansSent(s); }
  }

  /** Close drains: it returns from its first test only when every byte ever accepted has been sent, and from its second
      only when the host has timed out, with 0, or in non-blocking mode before that, with -EWOULDBLOCK. */
  lemma CloseDrains(buf: seq<Byte>, timeout: nat, events: seq<Event>)
    requires 2 <= |buf| && Inv(Init(buf, timeout))
    ensures var s := Run(Init(buf, timeout), events); var r := StepOf(s);
      && (s.pc.CloseTest? && r.pc.Idle? ==>
           r.log == s.log + [Closed(s.pc.nonblock, true, s.hostInactive, s.timeout, 0)] && s.sent == TakenByAll(s.log))
      && (s.pc.CloseHost? && r.pc.Idle? ==>
           && r.log == s.log + [Closed(s.pc.nonblock, s.tout == s.tin, s.hostInactive, s.timeout,
                                       if s.hostInactive >= s.timeout then 0 else -EWOULDBLOCK)]
           && (s.hostInactive < s.timeout ==> s.pc.nonblock))
  {
    hide Run, Init, Inv, StepOf;
    CloseStep(Run(Init(buf, timeout), events));
  }

  // ---------------------------------------------------------------- a write that waits gets on

  // Waiting on a full ring.
  predicate Waiting(s: Tx) { s.pc.SpinOut? && s.tout == s.call.out }

  // How far a blocking write is from waiting or returning, if left alone: bytes to go, where it stands, bytes to copy.
  function ToGo(s: Tx): nat { if s.call.done < s.call.count then s.call.count - s.call.done else 0 }

  function PcRank(s: Tx): nat {
    var stale := s.tout != s.call.out && s.call.done < s.call.count;
    match s.pc
    case SpinHost => 14
    case Kick => if stale then 13 else 3
    case AfterKick => if stale then 12 else 2
    case SpinOut => if stale then 11 else 1
    case HostTest => 10
    case Test => 9
    case SawIn(_) => 8
    case Copy(_, _, _) => 7
    case _ => 0
  }

  function CopyRank(s: Tx): nat { if s.pc.Copy? && s.pc.j <= s.pc.n then s.pc.n - s.pc.j else 0 }

  // A blocking write of some bytes, with the host there.
  ghost predicate Blocking(s: Tx) {
    Inv(s) && InWrite(s.pc) && !s.call.nonblock && s.hostInactive == 0 && s.call.count > 0
  }

  ghost predicate Completed(s: Tx, r: Tx) {
    r.pc.Idle? && r.log == s.log + [Wrote(s.call.data, s.call.count, false, 0, s.call.count)]
  }

  // The same write, some way on, with nothing sent meanwhile.
  ghost predicate Onward(s: Tx, r: Tx) {
    && Blocking(r) && r.log == s.log && r.sent == s.sent && r.call.data == s.call.data && r.call.count == s.call.count
    && s.call.done <= r.call.done && |r.buf| == |s.buf|
  }

  ghost predicate Nearer(r: Tx, s: Tx) {
    ToGo(r) < ToGo(s)
    || (ToGo(r) == ToGo(s) && (PcRank(r) < PcRank(s) || (PcRank(r) == PcRank(s) && CopyRank(r) < CopyRank(s))))
  }

  lemma StepGetsOn(s: Tx)
    requires Blocking(s) && !Waiting(s)
    ensures var r := StepOf(s); Inv(r) && (Completed(s, r) || (Onward(s, r) && Nearer(r, s)))
  {
    StepKeepsInv(s);
    assert CallOk(s.call) && PcOk(s);
    StepMoves(s);
    hide Inv, StepOf, Nearer, Completed;
  }

  // The step itself, apart from the invariant.
  lemma StepMoves(s: Tx)
    requires Blocking(s) && !Waiting(s) && CallOk(s.call) && Indices(s.buf, s.tout, s.tin) && PcOk(s)
    ensures var r := StepOf(s);
      Completed(s, r)
      || (InWrite(r.pc) && !r.call.nonblock && r.hostInactive == 0 && r.call.count > 0 && r.log == s.log && r.sent == s.sent
          && r.call.data == s.call.data && r.call.count == s.call.count && s.call.done <= r.call.done
          && |r.buf| == |s.buf| && Nearer(r, s))
  {
    hide Contents, Accepted, EntryOk, SnapshotOk;
  }

  lemma RunConcat(s: Tx, a: seq<Event>, b: seq<Event>)
    requires Inv(s)
    ensures Run(s, a + b) == Run(Run(s, a), b)
    decreases |b|
  {
    hide Inv, Apply;
    if b == [] {
      assert a + b == a;
    } else {
      var c := b[..|b| - 1];
      RunConcat(s, a, c);
      assert (a + b)[..|a + b| - 1] == a + c;
    }
  }

  lemma RunOne(s: Tx, e: Event)
    requires Inv(s)
    ensures Run(s, [e]) == Apply(s, e)
  {
    assert [e][..0] == [];
  }

  // Left alone, a blocking write completes, or comes to wait.
  lemma {:induction false} GetsOn(s: Tx) returns (events: seq<Event>)
    requires Blocking(s)
    ensures forall i :: 0 <= i < |events| ==> events[i] == Step
    ensures var r := Run(s, events); Completed(s, r) || (Onward(s, r) && Waiting(r))
    decreases ToGo(s), PcRank(s), CopyRank(s)
  {
    hide Inv, StepOf, ToGo, PcRank, CopyRank, Waiting, Run;
    if Waiting(s) {
      events := [];
      Alone(s);
    } else {
      StepGetsOn(s);
      BlockingInv(s);
      RunOne(s, Step);
      var r := StepOf(s);
      if Completed(s, r) {
        events := [Step];
      } else {
        var rest := GetsOn(r);
        events := [Step] + rest;
        RunConcat(s, [Step], rest);
      }
    }
  }

  lemma Alone(s: Tx)
    requires Blocking(s)
    ensures Run(s, []) == s && Onward(s, s)
  {
  }

  // What an interrupt with room does to a waiting write.
  predicate Useful(rounds: seq<Round>) { rounds != [] && rounds[0].wi && rounds[0].wspace > 0 }

  lemma UsefulMakesRoom(s: Tx, rounds: seq<Round>)
    requires Blocking(s) && Waiting(s) && Useful(rounds)
    ensures var r := Isr(s, rounds);
      Blocking(r) && r.log == s.log && r.call == s.call && |r.buf| == |s.buf| && |s.sent| < |r.sent|
  {
    InterruptKeepsInv(s, Irq(rounds));
    WaitingIsFull(s);
    RoomSends(s, rounds);
    var k := IsrEffect(s, rounds);
    assert Isr(s, rounds).hostInactive == s.hostInactive by { IsrHost(s, rounds); }
    hide Contents, Inv, Isr;
  }

  lemma {:induction false} IsrHost(s: Tx, rounds: seq<Round>)
    requires Indices(s.buf, s.tout, s.tin)
    ensures Isr(s, rounds).hostInactive == s.hostInactive
    decreases |rounds|
  {
    hide Contents;
    if rounds != [] && (rounds[0].ri || rounds[0].wi) {
      ServiceKeepsShape(s, rounds[0].wspace);
      IsrHost(if rounds[0].wi then Service(s, rounds[0].wspace) else s, rounds[1..]);
    }
  }

  // While it waits the write has got N - 1 bytes beyond what was sent.
  lemma WaitingHas(s: Tx)
    requires Blocking(s) && Waiting(s)
    ensures |TakenByAll(s.log)| + s.call.done == |s.sent| + |s.buf| - 1 && s.call.done < s.call.count
  {
    WaitingIsFull(s);
    assert |s.sent + Contents(s.buf, s.tout, s.tin)| == |Accepted(s)|;
    hide Contents, TakenByAll, EntryOk;
  }

  // The interrupts of a run.
  function Interrupts(events: seq<Event>): seq<Interrupt> {
    if events == [] then []
    else
      var last := events[|events| - 1];
      Interrupts(events[..|events| - 1]) + if last.Int? then [last.e] else []
  }

  lemma InterruptsConcat(a: seq<Event>, b: seq<Event>)
    ensures Interrupts(a + b) == Interrupts(a) + Interrupts(b)
    decreases |b|
  {
    if b == [] {
      assert a + b == a;
    } else {
      InterruptsConcat(a, b[..|b| - 1]);
      assert (a + b)[..|a + b| - 1] == a + b[..|b| - 1];
    }
  }

  lemma {:induction false} StepsInterruptNothing(events: seq<Event>)
    requires forall i :: 0 <= i < |events| ==> events[i] == Step
    ensures Interrupts(events) == []
  {
    if events != [] { StepsInterruptNothing(events[..|events| - 1]); }
  }

  // A run of foreground steps and of these interrupts.
  ghost predicate Interleaves(events: seq<Event>, interrupts: seq<Interrupt>) {
    Interrupts(events) == interrupts && forall i :: 0 <= i < |events| ==> events[i] == Step || events[i].Int?
  }

  lemma InterleavesConcat(a: seq<Event>, x: seq<Interrupt>, b: seq<Event>, y: seq<Interrupt>)
    requires Interleaves(a, x) && Interleaves(b, y)
    ensures Interleaves(a + b, x + y)
  {
    InterruptsConcat(a, b);
  }

  lemma Nearest(w: Tx, v: Tx)
    requires Blocking(w) && Waiting(w) && Blocking(v) && Waiting(v) && |w.sent| < |v.sent| && v.log == w.log
    requires |v.buf| == |w.buf| && v.call.count == w.call.count
    ensures 0 < ToGo(v) < ToGo(w)
  {
    hide Blocking, Waiting;
    WaitingHas(w);
    WaitingHas(v);
  }

  // One interrupt with room, and what the write does with it.
  lemma OneRound(w: Tx, e: Interrupt) returns (events: seq<Event>)
    requires Blocking(w) && Waiting(w) && e.Irq? && Useful(e.rounds)
    ensures Inv(w) && Interleaves(events, [e])
    ensures var v := Run(w, events);
      Completed(w, v)
      || (Blocking(v) && Waiting(v) && v.log == w.log && v.call.data == w.call.data && v.call.count == w.call.count
          && ToGo(v) < ToGo(w))
  {
    hide Run, Isr, StepOf, Accepted, Waiting, ToGo;
    UsefulMakesRoom(w, e.rounds);
    var u := Isr(w, e.rounds);
    BlockingInv(w);
    BlockingInv(u);
    RunOne(w, Int(e));
    var steps := GetsOn(u);
    StepsInterruptNothing(steps);
    events := [Int(e)] + steps;
    assert Interrupts([Int(e)]) == [e];
    InterleavesConcat([Int(e)], [e], steps, []);
    assert [e] + [] == [e];
    RunConcat(w, [Int(e)], steps);
    var v := Run(u, steps);
    if !Completed(u, v) { Nearest(w, v); }
  }

  lemma {:induction false} RoundsComplete(w: Tx, useful: seq<Interrupt>) returns (events: seq<Event>, n: nat)
    requires Blocking(w) && Waiting(w) && 0 < ToGo(w) <= |useful|
    requires forall i :: 0 <= i < |useful| ==> useful[i].Irq? && Useful(useful[i].rounds)
    ensures Inv(w) && n <= |useful| && Interleaves(events, useful[..n]) && Completed(w, Run(w, events))
    decreases |useful|
  {
    hide Run, Inv, Blocking, Waiting, ToGo, Interleaves;
    events := OneRound(w, useful[0]);
    n := 1;
    assert useful[..1] == [useful[0]];
    var v := Run(w, events);
    if !Completed(w, v) {
      StillToGo(v);
      var rest, m := RoundsComplete(v, useful[1..]);
      RunConcat(w, events, rest);
      InterleavesConcat(events, [useful[0]], rest, useful[1..][..m]);
      assert [useful[0]] + useful[1..][..m] == useful[..m + 1];
      events, n := events + rest, m + 1;
    }
  }

  lemma StillToGo(v: Tx)
    requires Blocking(v) && Waiting(v)
    ensures 0 < ToGo(v)
  {
    WaitingHas(v);
  }

  /** A blocking write with the host there completes once it has been interrupted, while it waits, with room in the device FIFO
      as often as it has bytes to go: for every such sequence of interrupts there is a run of some of them, with foreground
      steps between, in which the write answers count. */
  lemma WaitingWriteCompletes(s: Tx, useful: seq<Interrupt>) returns (events: seq<Event>, n: nat)
    requires Blocking(s) && ToGo(s) <= |useful|
    requires forall i :: 0 <= i < |useful| ==> useful[i].Irq? && Useful(useful[i].rounds)
    ensures Inv(s) && n <= |useful| && Interleaves(events, useful[..n]) && Completed(s, Run(s, events))
  {
    hide Run, Inv, StepOf, Accepted, Waiting;
    events := GetsOn(s);
    n := 0;
    StepsInterruptNothing(events);
    BlockingInv(s);
    var w := Run(s, events);
    if !Completed(s, w) {
      StillToGo(w);
      var rest;
      rest, n := RoundsComplete(w, useful);
      RunConcat(s, events, rest);
      InterleavesConcat(events, [], rest, useful[..n]);
      assert [] + useful[..n] == useful[..n];
      events := events + rest;
    }
  }

  lemma BlockingInv(s: Tx)
    requires Blocking(s)
    ensures Inv(s)
  {
  }
}
