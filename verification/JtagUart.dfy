/** The fast JTAG UART driver as it is written: one state record with two array buffers, an interrupt routine, and
    foreground calls that an interrupt may preempt before any shared access. Two ghost machines run alongside, and every
    statement that touches shared state is one step of one of them. */
module JtagUart {
  import opened Words
  import opened Errno
  import opened Ring
  import opened UartHardware
  import T = UartTransmit
  import R = UartReceive

  // What a call came to: its result, or a spin that nothing ends once the schedule of preemptions is used up.
  datatype Outcome = Returned(rc: int) | Spinning

  lemma RunSnocT(s: T.Tx, events: seq<T.Event>, e: T.Event)
    requires T.Inv(s)
    ensures T.Run(s, events + [e]) == T.Apply(T.Run(s, events), e)
  {
    assert (events + [e])[..|events|] == events;
  }

  lemma RunSnocR(s: R.Rx, events: seq<R.Event>, e: R.Event)
    requires R.Inv(s)
    ensures R.Run(s, events + [e]) == R.Apply(R.Run(s, events), e)
  {
    assert (events + [e])[..|events|] == events;
  }

  class Uart {
    var timeout: nat
    var re: bool
    var we: bool
    var hostInactive: nat
    var rxIn: nat
    var rxOut: nat
    var txIn: nat
    var txOut: nat
    const rxBuf: array<Byte>
    const txBuf: array<Byte>

    // The machines, the states they started from and the events they have seen.
    ghost var tx: T.Tx
    ghost var rx: R.Rx
    ghost const tx0: T.Tx
    ghost const rx0: R.Rx
    ghost var txEvents: seq<T.Event>
    ghost var rxEvents: seq<R.Event>

    ghost predicate MatchesTx(s: T.Tx)
      reads this`txIn, this`txOut, this`we, this`hostInactive, this`timeout, txBuf
    {
      s.buf == txBuf[..] && s.tin == txIn && s.tout == txOut && s.we == we
      && s.hostInactive == hostInactive && s.timeout == timeout
    }

    ghost predicate MatchesRx(s: R.Rx)
      reads this`rxIn, this`rxOut, this`re, this`hostInactive, this`timeout, rxBuf
    {
      s.buf == rxBuf[..] && s.rin == rxIn && s.rout == rxOut && s.re == re
      && s.hostInactive == hostInactive && s.timeout == timeout
    }

    // The ghost machines are where their runs from reset have brought them.
    ghost predicate Ran()
      reads this`tx, this`rx, this`txEvents, this`rxEvents
    {
      && 2 <= |tx0.buf| && tx0 == T.Init(tx0.buf, tx0.timeout) && T.Inv(tx0) && tx == T.Run(tx0, txEvents)
      && 2 <= |rx0.buf| && rx0 == R.Init(rx0.buf, rx0.timeout) && R.Inv(rx0) && rx == R.Run(rx0, rxEvents)
    }

    ghost predicate Valid()
      reads this, rxBuf, txBuf
    {
      rxBuf != txBuf && Ran() && MatchesTx(tx) && MatchesRx(rx)
    }

    // altera_avalon_jtag_uart_init; alarmStarted says whether alt_alarm_start succeeded.
    constructor (bufLen: nat, defaultTimeout: nat, alarmStarted: bool)
      requires 2 <= bufLen
      ensures Valid() && txEvents == [] && rxEvents == []
      ensures tx.pc.Idle? && rx.pc.Idle? && tx.log == [] && rx.log == []
      ensures re && !we && hostInactive == 0 && timeout == if alarmStarted then defaultTimeout else INT_MAX
      ensures rxBuf.Length == txBuf.Length == bufLen && rxIn == rxOut == txIn == txOut == 0
    {
      rxBuf := new Byte[bufLen](_ => 0);
      txBuf := new Byte[bufLen](_ => 0);
      rxIn, rxOut, txIn, txOut := 0, 0, 0, 0;
      re, we := true, false;
      hostInactive := 0;
      var t := if alarmStarted then defaultTimeout else INT_MAX;
      timeout := t;
      ghost var zeros := seq(bufLen, _ => 0 as Byte);
      tx0, rx0 := T.Init(zeros, t), R.Init(zeros, t);
      tx, rx := T.Init(zeros, t), R.Init(zeros, t);
      txEvents, rxEvents := [], [];
      new;
      T.InitInv(tx0.buf, timeout);
      R.InitInv(rx0.buf, timeout);
    }

    ghost method TxDo(e: T.Event)
      requires Ran()
      modifies this`tx, this`txEvents
      ensures Ran() && T.Inv(old(tx)) && tx == T.Apply(old(tx), e)
      ensures txEvents == old(txEvents) + [e]
    {
      RunSnocT(tx0, txEvents, e);
      txEvents := txEvents + [e];
      tx := T.Run(tx0, txEvents);
    }

    ghost method RxDo(e: R.Event)
      requires Ran()
      modifies this`rx, this`rxEvents
      ensures Ran() && R.Inv(old(rx)) && rx == R.Apply(old(rx), e)
      ensures rxEvents == old(rxEvents) + [e]
    {
      RunSnocR(rx0, rxEvents, e);
      rxEvents := rxEvents + [e];
      rx := R.Run(rx0, rxEvents);
    }

    // ---------------------------------------------------------------- interrupt level

    // The bytes the receive ring holds.
    ghost function Received(): seq<Byte>
      reads this`rxIn, this`rxOut, rxBuf
      requires Indices(rxBuf[..], rxOut, rxIn)
    {
      Contents(rxBuf[..], rxOut, rxIn)
    }

    /** The read half of one pass of the interrupt loop: taken, at the end of the ring, are the bytes of the leading valid reads of
        the DATA register, all of them or as many as there is room for. */
    method ServiceRead(fifo: seq<DataRead>, ghost s: R.Rx) returns (taken: seq<Byte>, ghost r: R.Rx)
      requires rxBuf != txBuf && MatchesRx(s) && Indices(s.buf, s.rout, s.rin)
      modifies this`rxIn, this`re, rxBuf
      ensures r == R.Fill(s, 1, fifo) && Indices(r.buf, r.rout, r.rin) && MatchesRx(r)
      ensures |taken| <= |fifo| && forall i :: 0 <= i < |taken| ==> fifo[i].valid && taken[i] == fifo[i].b
      ensures Received() == old(Received()) + taken
      ensures |Received()| == rxBuf.Length - 1 || |taken| == |fifo| || !fifo[|taken|].valid
    {
      taken, r := Take(fifo, s);
      R.FillTakes(s, 1, fifo);
      SameSuffix(s.popped, taken, Arriving(R.Free(s), fifo));
      hide R.Fill, Contents;
    }

    // What it does to the machine.
    method Take(fifo: seq<DataRead>, ghost s: R.Rx) returns (taken: seq<Byte>, ghost r: R.Rx)
      requires rxBuf != txBuf && MatchesRx(s) && Indices(s.buf, s.rout, s.rin)
      modifies this`rxIn, this`re, rxBuf
      ensures r == R.Fill(s, 1, fifo) && Indices(r.buf, r.rout, r.rin) && MatchesRx(r)
      ensures r.popped == s.popped + taken
    {
      R.FillKeepsShape(s, 1, fifo);
      r := s;
      taken := [];
      var k := 0;
      var avail := 1;
      while true
        invariant 0 <= k <= |fifo|
        invariant MatchesRx(r) && Indices(r.buf, r.rout, r.rin)
        invariant R.Fill(r, avail, fifo[k..]) == R.Fill(s, 1, fifo)
        invariant r.popped == s.popped + taken
        decreases |fifo| - k
      {
        var next := Wrap(rxIn + 1, rxBuf.Length);
        if next == rxOut { break; }
        var data := if k < |fifo| then fifo[k] else NO_DATA;
        if k == |fifo| || !data.valid {
          avail := data.avail;
          r := r.(re := r.re && avail == 0);
          if avail != 0 { re := false; }
          return;
        }
        rxBuf[rxIn] := data.b;
        rxIn := Wrap(rxIn + 1, rxBuf.Length);
        avail := data.avail;
        taken := taken + [data.b];
        r := r.(buf := r.buf[r.rin := data.b], rin := Wrap(r.rin + 1, |r.buf|), popped := r.popped + [data.b]);
        assert fifo[k..][1..] == fifo[k + 1..];
        k := k + 1;
      }
      if avail != 0 {
        re := false;
        r := r.(re := false);
      }
    }

    // The bytes the transmit ring holds.
    ghost function Pending(): seq<Byte>
      reads this`txIn, this`txOut, txBuf
      requires Indices(txBuf[..], txOut, txIn)
    {
      Contents(txBuf[..], txOut, txIn)
    }

    /** The write half: data, off the front of the ring, is what goes to the DATA register, all there is or as much as there is
        space for; the write interrupt is masked if space is left. */
    method ServiceWrite(wspace: nat, ghost s: T.Tx) returns (data: seq<Byte>, ghost r: T.Tx)
      requires rxBuf != txBuf && MatchesTx(s) && Indices(s.buf, s.tout, s.tin)
      modifies this`txOut, this`we
      ensures r == T.Service(s, wspace) && Indices(r.buf, r.tout, r.tin) && MatchesTx(r)
      ensures r.sent == s.sent + data
      ensures old(Pending()) == data + Pending() && |data| == Min(wspace, |old(Pending())|)
      ensures we == (old(we) && wspace <= |old(Pending())|)
    {
      data, r := Send(wspace, s);
      ghost var k := T.ServiceEffect(s, wspace);
      DrainedIs(s, r, k, data);
      hide T.Service, Contents;
    }

    lemma DrainedIs(s: T.Tx, r: T.Tx, k: nat, data: seq<Byte>)
      requires Indices(s.buf, s.tout, s.tin) && Indices(r.buf, r.tout, r.tin)
      requires T.Drains(s, r, k) && r.sent == s.sent + data
      ensures Contents(s.buf, s.tout, s.tin) == data + Contents(r.buf, r.tout, r.tin) && |data| == k
    {
      hide Contents;
      SameSuffix(s.sent, data, Contents(s.buf, s.tout, s.tin)[..k]);
    }

    // What it does to the machine.
    method Send(wspace: nat, ghost s: T.Tx) returns (data: seq<Byte>, ghost r: T.Tx)
      requires rxBuf != txBuf && MatchesTx(s) && Indices(s.buf, s.tout, s.tin)
      modifies this`txOut, this`we
      ensures r == T.Service(s, wspace) && Indices(r.buf, r.tout, r.tin) && MatchesTx(r)
      ensures r.sent == s.sent + data
    {
      T.ServiceKeepsShape(s, wspace);
      r := s;
      data := [];
      var space := wspace;
      while space > 0 && txOut != txIn
        invariant MatchesTx(r) && Indices(r.buf, r.tout, r.tin)
        invariant T.Service(r, space) == T.Service(s, wspace)
        invariant r.sent == s.sent + data
      {
        r := r.(sent := r.sent + [txBuf[txOut]], tout := Wrap(r.tout + 1, |r.buf|));
        data := data + [txBuf[txOut]];
        txOut := Wrap(txOut + 1, txBuf.Length);
        space := space - 1;
      }
      if space > 0 {
        we := false;
        r := r.(we := false);
      }
    }

    // The interrupt loop, until the CONTROL register shows neither RI nor WI; data is what goes to the DATA register, and taken
    // what comes from it.
    method Passes(rounds: seq<Round>, ghost s: T.Tx, ghost q: R.Rx)
      returns (data: seq<Byte>, taken: seq<Byte>, ghost s': T.Tx, ghost q': R.Rx)
      requires rxBuf != txBuf && MatchesTx(s) && Indices(s.buf, s.tout, s.tin)
      requires MatchesRx(q) && Indices(q.buf, q.rout, q.rin)
      modifies this`rxIn, this`re, this`txOut, this`we, rxBuf
      ensures s' == T.Isr(s, rounds) && MatchesTx(s') && s'.sent == s.sent + data
      ensures q' == R.Isr(q, rounds) && MatchesRx(q') && q'.popped == q.popped + taken
    {
      hide T.Service, R.Fill, Contents;
      s', q' := s, q;
      data, taken := [], [];
      var i := 0;
      while i < |rounds| && (rounds[i].ri || rounds[i].wi)
        invariant 0 <= i <= |rounds| && s'.sent == s.sent + data && q'.popped == q.popped + taken
        invariant MatchesTx(s') && Indices(s'.buf, s'.tout, s'.tin) && T.Isr(s', rounds[i..]) == T.Isr(s, rounds)
        invariant MatchesRx(q') && Indices(q'.buf, q'.rout, q'.rin) && R.Isr(q', rounds[i..]) == R.Isr(q, rounds)
      {
        assert rounds[i..][1..] == rounds[i + 1..];
        if rounds[i].ri {
          var more;
          more, q' := Take(rounds[i].fifo, q');
          taken := taken + more;
        }
        if rounds[i].wi {
          var more;
          more, s' := Send(rounds[i].wspace, s');
          data := data + more;
        }
        i := i + 1;
      }
    }

    // Where the foreground of either machine stands; no interrupt moves it.
    ghost function TxFront(): (T.Pc, T.Call, seq<T.Entry>)
      reads this`tx
    {
      (tx.pc, tx.call, tx.log)
    }

    ghost function RxFront(): (R.Pc, R.Call, seq<R.Entry>)
      reads this`rx
    {
      (rx.pc, rx.call, rx.log)
    }

    // An interrupt of the transmit machine, seen from the foreground.
    ghost method TxInterrupt(e: Interrupt)
      requires Ran()
      modifies this`tx, this`txEvents
      ensures Ran() && txEvents == old(txEvents) + [T.Int(e)]
      ensures Indices(old(tx).buf, old(tx).tout, old(tx).tin) && tx == T.Interrupted(old(tx), e)
      ensures TxFront() == old(TxFront())
    {
      hide T.Run, R.Run, R.Inv, Contents, T.Accepted, T.EntryOk;
      ghost var k := T.InterruptEffect(tx, e);
      TxDo(T.Int(e));
    }

    ghost method RxInterrupt(e: Interrupt)
      requires Ran()
      modifies this`rx, this`rxEvents
      ensures Ran() && rxEvents == old(rxEvents) + [R.Int(e)]
      ensures Indices(old(rx).buf, old(rx).rout, old(rx).rin) && rx == R.Interrupted(old(rx), e)
      ensures RxFront() == old(RxFront())
    {
      hide T.Run, R.Run, T.Inv, Contents, R.Delivered, R.EntryOk;
      ghost var x := R.InterruptEffect(rx, e);
      RxDo(R.Int(e));
    }

    /** The interrupt routine is one event of each machine, and leaves the foreground where it was; what it writes to the DATA
        register comes off the front of the transmit ring, as far as its passes find space, and what it takes from there, the
        leading valid reads of each pass as far as there is room, goes to the end of the receive ring. */
    method Irq(rounds: seq<Round>) returns (data: seq<Byte>, taken: seq<Byte>)
      requires Valid()
      modifies this, rxBuf
      ensures Valid() && TxFront() == old(TxFront()) && RxFront() == old(RxFront())
      ensures hostInactive == old(hostInactive) && timeout == old(timeout)
      ensures tx.sent == old(tx.sent) + data && rx.popped == old(rx.popped) + taken
      ensures Indices(old(txBuf[..]), old(txOut), old(txIn)) && Indices(txBuf[..], txOut, txIn)
      ensures old(Pending()) == data + Pending() && |data| == Min(SpaceOver(rounds), |old(Pending())|)
      ensures we == (old(we) && SpaceOver(rounds) <= |old(Pending())|)
      ensures Indices(old(rxBuf[..]), old(rxOut), old(rxIn)) && Indices(rxBuf[..], rxOut, rxIn)
      ensures Received() == old(Received()) + taken
      ensures taken == ArrivingOver(rxBuf.Length - 1 - |old(Received())|, rounds)
      ensures txEvents == old(txEvents) + [T.Int(UartHardware.Irq(rounds))]
      ensures rxEvents == old(rxEvents) + [R.Int(UartHardware.Irq(rounds))]
    {
      hide *;
      ghost var t0, r0 := tx, rx;
      RingsHold();
      data, taken := Serve(rounds);
      RingsHold();
      Served(t0, tx, r0, rx, rounds, data, taken);
    }

    // The rings are those of the machines.
    lemma RingsHold()
      requires Valid()
      ensures Indices(tx.buf, tx.tout, tx.tin) && Indices(rx.buf, rx.rout, rx.rin)
      ensures Indices(txBuf[..], txOut, txIn) && Indices(rxBuf[..], rxOut, rxIn)
      ensures Pending() == Contents(tx.buf, tx.tout, tx.tin) && Received() == Contents(rx.buf, rx.rout, rx.rin)
      ensures |rx.buf| == rxBuf.Length && tx.we == we
    {
      StateInv();
    }

    lemma Served(t0: T.Tx, t1: T.Tx, r0: R.Rx, r1: R.Rx, rounds: seq<Round>, data: seq<Byte>, taken: seq<Byte>)
      requires Indices(t0.buf, t0.tout, t0.tin) && t1 == T.Isr(t0, rounds) && Indices(t1.buf, t1.tout, t1.tin)
      requires Indices(r0.buf, r0.rout, r0.rin) && r1 == R.Interrupted(r0, UartHardware.Irq(rounds))
      requires Indices(r1.buf, r1.rout, r1.rin) && t1.sent == t0.sent + data && r1.popped == r0.popped + taken
      ensures Contents(t0.buf, t0.tout, t0.tin) == data + Contents(t1.buf, t1.tout, t1.tin)
      ensures |data| == Min(SpaceOver(rounds), |Contents(t0.buf, t0.tout, t0.tin)|)
      ensures t1.we == (t0.we && SpaceOver(rounds) <= |Contents(t0.buf, t0.tout, t0.tin)|)
      ensures Contents(r1.buf, r1.rout, r1.rin) == Contents(r0.buf, r0.rout, r0.rin) + taken
      ensures taken == ArrivingOver(|r0.buf| - 1 - |Contents(r0.buf, r0.rout, r0.rin)|, rounds)
    {
      hide T.Isr, R.Interrupted, Contents;
      var k := T.IsrEffect(t0, rounds);
      DrainedIs(t0, t1, k, data);
      var x := R.InterruptEffect(r0, UartHardware.Irq(rounds));
      SameSuffix(r0.popped, taken, x);
    }

    method Serve(rounds: seq<Round>) returns (data: seq<Byte>, taken: seq<Byte>)
      requires Valid()
      modifies this, rxBuf
      ensures Valid() && TxFront() == old(TxFront()) && RxFront() == old(RxFront())
      ensures hostInactive == old(hostInactive) && timeout == old(timeout)
      ensures tx.sent == old(tx.sent) + data && rx.popped == old(rx.popped) + taken
      ensures Indices(old(tx).buf, old(tx).tout, old(tx).tin) && tx == T.Isr(old(tx), rounds)
      ensures Indices(old(rx).buf, old(rx).rout, old(rx).rin) && rx == R.Interrupted(old(rx), UartHardware.Irq(rounds))
      ensures txEvents == old(txEvents) + [T.Int(UartHardware.Irq(rounds))]
      ensures rxEvents == old(rxEvents) + [R.Int(UartHardware.Irq(rounds))]
    {
      hide T.Run, R.Run, T.Inv, R.Inv, T.Isr, R.Isr, Contents;
      ghost var t0, r0 := tx, rx;
      TxInterrupt(UartHardware.Irq(rounds));
      RxInterrupt(UartHardware.Irq(rounds));
      ghost var s, q;
      data, taken, s, q := Passes(rounds, t0, r0.(honest := r0.honest && HonestRounds(rounds)));
    }

    // altera_avalon_jtag_uart_timeout, on a CONTROL register whose AC bit is ac.
    method Timeout(ac: bool)
      requires Valid()
      modifies this
      ensures Valid() && TxFront() == old(TxFront()) && RxFront() == old(RxFront())
      ensures hostInactive == HostTick(old(hostInactive), ac) && timeout == old(timeout)
      ensures ac ==> hostInactive == 0
      ensures !ac ==> hostInactive == if old(hostInactive) < INT_MAX - 2 then old(hostInactive) + 1 else old(hostInactive)
      ensures txEvents == old(txEvents) + [T.Int(Alarm(ac))] && rxEvents == old(rxEvents) + [R.Int(Alarm(ac))]
    {
      hide T.Run, R.Run, T.Inv, R.Inv, Contents;
      TxInterrupt(Alarm(ac));
      RxInterrupt(Alarm(ac));
      if ac {
        hostInactive := 0;
      } else if hostInactive < INT_MAX - 2 {
        hostInactive := hostInactive + 1;
      }
    }

    // ---------------------------------------------------------------- foreground

    // The first i entries of the schedule have come since host_inactive was h.
    ghost predicate Watched(h: nat, schedule: seq<seq<Interrupt>>, i: nat)
      reads this`hostInactive
    {
      i <= |schedule| && hostInactive == HostAt(h, schedule, i)
    }

    // The interrupts that come before the next shared access: the i-th entry of the schedule, if there is one.
    method Preempt(schedule: seq<seq<Interrupt>>, i: nat, ghost h: nat) returns (j: nat)
      requires Valid() && Watched(h, schedule, i)
      modifies this, rxBuf
      ensures Valid() && TxFront() == old(TxFront()) && RxFront() == old(RxFront())
      ensures Watched(h, schedule, j) && timeout == old(timeout)
      ensures j == if i < |schedule| then i + 1 else i
      ensures i == |schedule| ==> rxIn == old(rxIn) && txOut == old(txOut) && txIn == old(txIn)
    {
      hide T.Run, R.Run, T.Inv, R.Inv, Contents, HostTick;
      if i == |schedule| { return i; }
      var k := 0;
      while k < |schedule[i]|
        invariant 0 <= k <= |schedule[i]| && timeout == old(timeout)
        invariant hostInactive == HostAfter(old(hostInactive), schedule[i][..k])
        invariant Valid() && TxFront() == old(TxFront()) && RxFront() == old(RxFront())
      {
        assert schedule[i][..k + 1][..k] == schedule[i][..k];
        match schedule[i][k] {
          case Irq(rounds) => var data, taken := Irq(rounds);
          case Alarm(ac) => Timeout(ac);
        }
        k := k + 1;
      }
      assert schedule[i][..k] == schedule[i];
      j := i + 1;
    }

    // One foreground step of the transmit machine.
    ghost method TxStep()
      requires Ran()
      modifies this`tx, this`txEvents
      ensures Ran()
      ensures T.Inv(old(tx)) && T.Inv(tx) && tx == T.StepOf(old(tx))
    {
      hide T.Run, R.Run, T.Inv, R.Inv, T.StepOf;
      TxDo(T.Step);
    }

    // The write in progress, in terms of the locals of write().
    ghost predicate Writing(data: seq<Byte>, count: int, nonblock: bool, done: nat)
      reads this`tx
    {
      var c := tx.call;
      c.data == data && c.count == count && c.nonblock == nonblock && c.done == done
    }

    // ---- the shared accesses of write() and close(), one method each

    method ReadTxIn() returns (inp: nat)
      requires Valid() && tx.pc.Test? && tx.call.done < tx.call.count
      modifies this`tx, this`txEvents
      ensures Valid()
      ensures inp < txBuf.Length && TxFront() == (T.SawIn(inp), old(tx.call), old(tx.log))
    {
      hide T.Run, R.Run, R.Inv, Contents, T.Accepted, T.EntryOk, T.SnapshotOk;
      TxStep();
      inp := txIn;
    }

    // Reads tx_out and computes the room for at most left bytes.
    method ReadTxOut(inp: nat, left: nat) returns (out: nat, n: nat)
      requires Valid() && tx.pc == T.SawIn(inp) && inp < txBuf.Length
      requires tx.call.count - tx.call.done == left > 0
      modifies this`tx, this`txEvents
      ensures Valid()
      ensures tx.pc == (if n == 0 then T.Kick else T.Copy(inp, n, 0)) && n <= left
      ensures tx.call == old(tx.call).(out := out, snap := tx.call.snap) && tx.log == old(tx.log) && out == txOut
    {
      hide T.Run, R.Run, R.Inv, Contents, T.Accepted, T.EntryOk, T.SnapshotOk;
      out := txOut;
      if inp < out {
        n := out - 1 - inp;
      } else if out > 0 {
        n := txBuf.Length - inp;
      } else {
        n := txBuf.Length - 1 - inp;
      }
      assert n == Room(|tx.buf|, inp, tx.tout);
      if n > left { n := left; }
      TxStep();
    }

    method StoreTxByte(inp: nat, n: nat, j: nat, data: seq<Byte>, done: nat)
      requires Valid() && tx.pc == T.Copy(inp, n, j) && j < n && tx.call.data == data && tx.call.done == done
      modifies this`tx, this`txEvents, txBuf
      ensures Valid()
      ensures TxFront() == (T.Copy(inp, n, j + 1), old(tx.call), old(tx.log))
    {
      hide T.Run, R.Run, R.Inv, Contents, T.Accepted, T.EntryOk, T.SnapshotOk;
      TxStep();
      txBuf[inp + j] := data[done + j];
    }

    method PublishTxIn(inp: nat, n: nat)
      requires Valid() && tx.pc == T.Copy(inp, n, n)
      modifies this`tx, this`txEvents, this`txIn
      ensures Valid()
      ensures TxFront() == (T.Test, old(tx.call).(done := old(tx.call).done + n, dirty := true), old(tx.log))
    {
      hide T.Run, R.Run, R.Inv, Contents, T.Accepted, T.EntryOk, T.SnapshotOk;
      TxStep();
      txIn := Wrap(inp + n, txBuf.Length);
    }

    // The read-modify-write of irq_enable, with interrupts disabled.
    method EnableWrite()
      requires Valid() && (tx.pc.Kick? || (tx.pc.Test? && tx.call.done >= tx.call.count))
      modifies this`tx, this`txEvents, this`we
      ensures Valid()
      ensures TxFront() == (T.AfterKick, old(tx.call).(dirty := false), old(tx.log))
    {
      hide T.Run, R.Run, R.Inv, Contents, T.Accepted, T.EntryOk, T.SnapshotOk;
      if tx.pc.Test? { TxStep(); }
      TxStep();
      we := true;
    }

    // out == tx_out: is the ring as full as when out was read?
    method SpinOnOut(out: nat) returns (same: bool)
      requires Valid() && tx.pc.SpinOut? && tx.call.out == out
      modifies this`tx, this`txEvents
      ensures Valid()
      ensures TxFront() == (if same then T.SpinHost else T.HostTest, old(tx.call), old(tx.log)) && (same <==> out == txOut)
    {
      hide T.Run, R.Run, R.Inv, Contents, T.Accepted, T.EntryOk, T.SnapshotOk;
      TxStep();
      same := out == txOut;
    }

    method SpinOnHost() returns (waiting: bool)
      requires Valid() && tx.pc.SpinHost?
      modifies this`tx, this`txEvents
      ensures Valid()
      ensures TxFront() == (if waiting then T.SpinOut else T.HostTest, old(tx.call), old(tx.log))
      ensures waiting <==> hostInactive < timeout
    {
      hide T.Run, R.Run, R.Inv, Contents, T.Accepted, T.EntryOk, T.SnapshotOk;
      TxStep();
      waiting := hostInactive < timeout;
    }

    // The last test of the outer loop: leaves the call if the host is away.
    method TestHost() returns (inactive: bool)
      requires Valid() && tx.pc.HostTest?
      modifies this`tx, this`txEvents
      ensures Valid() && (inactive <==> hostInactive != 0)
      ensures !inactive ==> TxFront() == (T.Test, old(tx.call), old(tx.log))
      ensures inactive ==> tx == T.Return(old(tx)) && old(tx).hostInactive == hostInactive
    {
      hide T.Run, R.Run, R.Inv, Contents, T.Accepted, T.EntryOk, T.SnapshotOk;
      TxStep();
      inactive := hostInactive != 0;
    }

    ghost method BeginWrite(data: seq<Byte>, count: int, nonblock: bool)
      requires Valid() && tx.pc.Idle? && count <= |data|
      modifies this`tx, this`txEvents
      ensures Valid()
      ensures tx == old(tx).(pc := T.Test, call := T.Call(data, count, nonblock, 0, 0, 0, false))
    {
      hide T.Run, R.Run, T.Inv, R.Inv, Contents;
      TxDo(T.Write(data, count, nonblock));
    }

    // From the kick out of the call.
    ghost method EndWrite()
      requires Valid() && tx.pc.AfterKick? && (tx.call.done >= tx.call.count || tx.call.nonblock)
      modifies this`tx, this`txEvents
      ensures Valid() && tx == T.Return(old(tx)) && old(tx).hostInactive == hostInactive
    {
      hide T.Run, R.Run, R.Inv, Contents, T.Accepted, T.EntryOk, T.SnapshotOk;
      TxStep();
    }

    // From the kick to the spin.
    ghost method BeginSpin()
      requires Valid() && tx.pc.AfterKick? && tx.call.done < tx.call.count && !tx.call.nonblock
      modifies this`tx, this`txEvents
      ensures Valid() && TxFront() == (T.SpinOut, old(tx.call), old(tx.log))
    {
      hide T.Run, R.Run, R.Inv, Contents, T.Accepted, T.EntryOk, T.SnapshotOk;
      TxStep();
    }

    // memcpy(tx_buf + inp, ptr, n), with interrupts between the bytes.
    method CopyIn(inp: nat, n: nat, data: seq<Byte>, done: nat, schedule: seq<seq<Interrupt>>, i0: nat, ghost h: nat)
      returns (i: nat)
      requires Valid() && tx.pc == T.Copy(inp, n, 0) && tx.call.data == data && tx.call.done == done
      requires Watched(h, schedule, i0)
      modifies this, rxBuf, txBuf
      ensures Valid() && TxFront() == (T.Copy(inp, n, n), old(tx.call), old(tx.log)) && RxFront() == old(RxFront())
      ensures i0 <= i && Watched(h, schedule, i) && timeout == old(timeout)
    {
      hide T.Run, R.Run, T.Inv, R.Inv, Contents, Watched;
      i := i0;
      var j := 0;
      while j < n
        invariant 0 <= j <= n && i0 <= i && Watched(h, schedule, i) && timeout == old(timeout)
        invariant Valid() && TxFront() == (T.Copy(inp, n, j), old(tx.call), old(tx.log)) && RxFront() == old(RxFront())
      {
        i := Preempt(schedule, i, h);
        StoreTxByte(inp, n, j, data, done);
        j := j + 1;
      }
    }

    // One pass of the writer's inner loop: n bytes are copied and published, or the ring is full.
    method FillOnce(data: seq<Byte>, count: int, nonblock: bool, done: nat, schedule: seq<seq<Interrupt>>, i0: nat,
                    ghost h: nat)
      returns (out: nat, n: nat, i: nat)
      requires Valid() && tx.pc == T.Test && Writing(data, count, nonblock, done) && done < count
      requires Watched(h, schedule, i0)
      modifies this, rxBuf, txBuf
      ensures Valid() && Writing(data, count, nonblock, done + n) && tx.log == old(tx.log) && RxFront() == old(RxFront())
      ensures if n == 0 then tx.pc == T.Kick && out == tx.call.out == txOut else tx.pc == T.Test
      ensures i0 <= i && Watched(h, schedule, i) && timeout == old(timeout) && done + n <= count
    {
      hide T.Run, R.Run, T.Inv, R.Inv, Contents, Valid, Ran, MatchesTx, MatchesRx, Watched;
      i := Preempt(schedule, i0, h);
      var inp := ReadTxIn();
      i := Preempt(schedule, i, h);
      out, n := ReadTxOut(inp, count - done);
      if n == 0 { return; }
      i := CopyIn(inp, n, data, done, schedule, i, h);
      i := Preempt(schedule, i, h);
      PublishTxIn(inp, n);
    }

    // The writer's inner loop: copy as much as fits, then on to the kick.
    method FillRing(data: seq<Byte>, count: int, nonblock: bool, done0: nat, schedule: seq<seq<Interrupt>>, i0: nat,
                    ghost h: nat)
      returns (done: nat, out: nat, i: nat)
      requires Valid() && tx.pc == T.Test && Writing(data, count, nonblock, done0) && Watched(h, schedule, i0)
      modifies this, rxBuf, txBuf
      ensures Valid() && Writing(data, count, nonblock, done) && tx.log == old(tx.log) && RxFront() == old(RxFront())
      ensures if done < count then tx.pc == T.Kick && out == tx.call.out == txOut else tx.pc == T.Test
      ensures i0 <= i && Watched(h, schedule, i) && timeout == old(timeout)
    {
      hide T.Run, R.Run, T.Inv, R.Inv, Contents, Valid, Ran, MatchesTx, MatchesRx, Watched, Writing;
      done, out, i := done0, 0, i0;
      while count - done > 0
        invariant Valid() && tx.pc == T.Test && Writing(data, count, nonblock, done)
        invariant tx.log == old(tx.log) && RxFront() == old(RxFront())
        invariant i0 <= i && Watched(h, schedule, i) && timeout == old(timeout)
        decreases count - done
      {
        var n: nat;
        out, n, i := FillOnce(data, count, nonblock, done, schedule, i, h);
        if n == 0 { return; }
        done := done + n;
      }
    }

    // Spin until the interrupt routine has taken something or the host is away. The spin is endless if a whole pass after
    // the last interrupt ends neither way.
    method AwaitRoom(out: nat, schedule: seq<seq<Interrupt>>, i0: nat, ghost h: nat) returns (i: nat, endless: bool)
      requires Valid() && tx.pc.SpinOut? && tx.call.out == out && Watched(h, schedule, i0)
      modifies this, rxBuf
      ensures Valid() && TxFront() == (if endless then T.SpinOut else T.HostTest, old(tx.call), old(tx.log))
      ensures RxFront() == old(RxFront())
      ensures i0 <= i && Watched(h, schedule, i) && timeout == old(timeout)
      ensures endless ==> i == |schedule| && hostInactive < timeout
      ensures !endless && i == i0 && old(txOut) == out ==> hostInactive >= timeout
    {
      hide T.Run, R.Run, T.Inv, R.Inv, Contents, HostAt;
      i, endless := i0, false;
      while true
        invariant Valid() && TxFront() == (T.SpinOut, old(tx.call), old(tx.log)) && RxFront() == old(RxFront())
        invariant i0 <= i && Watched(h, schedule, i) && timeout == old(timeout)
        invariant i == i0 ==> txOut == old(txOut)
        decreases |schedule| - i
      {
        var last := i == |schedule|;
        i := Preempt(schedule, i, h);
        var same := SpinOnOut(out);
        if !same { return; }
        i := Preempt(schedule, i, h);
        var waiting := SpinOnHost();
        if !waiting { return; }
        if last { return i, true; }
      }
    }

    // The end of one pass of the writer's outer loop, with bytes left in blocking mode: spin, then look for the host.
    method AwaitHost(data: seq<Byte>, count: int, done: nat, out: nat, schedule: seq<seq<Interrupt>>, i0: nat,
                     ghost h: nat)
      returns (i: nat, endless: bool, inactive: bool)
      requires Valid() && tx.pc.AfterKick? && Writing(data, count, false, done) && done < count
      requires tx.call.out == out && Watched(h, schedule, i0)
      modifies this, rxBuf
      ensures Valid() && RxFront() == old(RxFront())
      ensures i0 <= i && Watched(h, schedule, i) && timeout == old(timeout)
      ensures endless ==> tx.pc.SpinOut? && tx.log == old(tx.log) && i == |schedule| && hostInactive < timeout
      ensures !endless && !inactive ==> TxFront() == (T.Test, old(tx.call), old(tx.log)) && hostInactive == 0
      ensures !endless && inactive ==>
        && tx.pc.Idle? && hostInactive != 0
        && tx.log == old(tx.log) + [T.Wrote(data, count, false, hostInactive, if done > 0 then done else -EIO)]
    {
      hide T.Run, R.Run, T.Inv, R.Inv, Contents, Valid, Ran, MatchesTx, MatchesRx, HostAt, Watched;
      inactive := false;
      BeginSpin();
      i, endless := AwaitRoom(out, schedule, i0, h);
      if endless { return; }
      i := Preempt(schedule, i, h);
      inactive := TestHost();
    }

    // One pass of the writer's outer loop up to the kick.
    method FillAndKick(data: seq<Byte>, count: int, nonblock: bool, done0: nat, schedule: seq<seq<Interrupt>>, i0: nat,
                       ghost h: nat)
      returns (done: nat, out: nat, i: nat)
      requires Valid() && tx.pc == T.Test && Writing(data, count, nonblock, done0) && Watched(h, schedule, i0)
      modifies this, rxBuf, txBuf
      ensures Valid() && Writing(data, count, nonblock, done) && tx.log == old(tx.log) && RxFront() == old(RxFront())
      ensures tx.pc == T.AfterKick && (done < count ==> tx.call.out == out)
      ensures i0 <= i && (i0 < |schedule| ==> i0 < i) && Watched(h, schedule, i) && timeout == old(timeout)
    {
      hide T.Run, R.Run, T.Inv, R.Inv, Contents, Valid, Ran, MatchesTx, MatchesRx, HostAt;
      done, out, i := FillRing(data, count, nonblock, done0, schedule, i0, h);
      i := Preempt(schedule, i, h);
      EnableWrite();
    }

    // The body of altera_avalon_jtag_uart_write.
    method WriteLoop(data: seq<Byte>, count: int, nonblock: bool, schedule: seq<seq<Interrupt>>) returns (o: Outcome)
      requires Valid() && tx.pc.Idle? && count <= |data|
      modifies this, rxBuf, txBuf
      ensures Valid() && RxFront() == old(RxFront()) && timeout == old(timeout)
      ensures o.Returned? ==>
        tx.pc.Idle? && tx.log == old(tx.log) + [T.Wrote(data, count, nonblock, hostInactive, o.rc)]
      ensures o.Spinning? ==>
        && !tx.pc.Idle? && tx.log == old(tx.log) && Watched(old(hostInactive), schedule, |schedule|)
        && (hostInactive < timeout || hostInactive == 0)
    {
      ghost var h := hostInactive;
      assert Watched(h, schedule, 0);
      hide T.Run, R.Run, T.Inv, R.Inv, Contents, Valid, Ran, MatchesTx, MatchesRx, HostAt;
      BeginWrite(data, count, nonblock);
      var done: nat, i: nat := 0, 0;
      while true
        invariant Valid() && tx.pc == T.Test && Writing(data, count, nonblock, done)
        invariant tx.log == old(tx.log) && RxFront() == old(RxFront())
        invariant Watched(h, schedule, i) && timeout == old(timeout)
        decreases |schedule| - i
      {
        var last := i == |schedule|;
        var out;
        done, out, i := FillAndKick(data, count, nonblock, done, schedule, i, h);
        if count - done <= 0 || nonblock {
          EndWrite();
          break;
        }
        var endless, inactive;
        i, endless, inactive := AwaitHost(data, count, done, out, schedule, i, h);
        if endless { return Spinning; }
        if inactive { break; }
        if last { return Spinning; }
      }
      o := Returned(if done > 0 then done else if nonblock then -EWOULDBLOCK else -EIO);
    }

    /** altera_avalon_jtag_uart_write, preempted as the schedule says: a positive result k says that exactly the first k
        bytes were accepted, and is short of count only in non-blocking mode or with host_inactive not zero. It fails to
        return only with host_inactive below the time-out, so it returns if the host stays away for the time-out. */
    method Write(data: seq<Byte>, count: int, nonblock: bool, schedule: seq<seq<Interrupt>>) returns (o: Outcome)
      requires Valid() && tx.pc.Idle? && count <= |data|
      modifies this, rxBuf, txBuf
      ensures Valid() && RxFront() == old(RxFront()) && timeout == old(timeout)
      ensures o.Returned? ==>
        tx.pc.Idle? && tx.log == old(tx.log) + [T.Wrote(data, count, nonblock, hostInactive, o.rc)]
      ensures o.Returned? && o.rc > 0 ==>
        && o.rc <= count && (o.rc < count ==> nonblock || hostInactive != 0)
        && T.TakenByAll(tx.log) == T.TakenByAll(old(tx.log)) + data[..o.rc]
      ensures o.Returned? && o.rc <= 0 ==>
        && o.rc == (if nonblock then -EWOULDBLOCK else -EIO) && (count > 0 ==> nonblock || hostInactive != 0)
        && T.TakenByAll(tx.log) == T.TakenByAll(old(tx.log))
      ensures o.Spinning? ==> !tx.pc.Idle? && tx.log == old(tx.log) && (hostInactive < timeout || hostInactive == 0)
      ensures HostStaysAway(schedule, timeout) ==> o.Returned?
    {
      hide T.Run, R.Run, R.Inv, Contents, T.Accepted, Valid, MatchesTx, MatchesRx, T.PcOk, HostAt, HostStaysAway;
      ghost var h := hostInactive;
      o := WriteLoop(data, count, nonblock, schedule);
      if o.Returned? {
        assert T.Inv(tx) by { StateInv(); }
        assert T.EntryOk(tx.log[|old(tx.log)|]);
        assert tx.log[..|tx.log| - 1] == old(tx.log);
      } else if HostStaysAway(schedule, timeout) {
        HostGoesMissing(h, schedule, timeout);
      }
    }

    lemma StateInv()
      requires Valid()
      ensures T.Inv(tx) && R.Inv(rx)
    {
    }

    // tx_out != tx_in
    method CloseReadsOut() returns (pending: bool)
      requires Valid() && tx.pc.CloseTest?
      modifies this`tx, this`txEvents
      ensures Valid() && (pending <==> txOut != txIn)
      ensures pending ==> TxFront() == (T.CloseHost(old(tx).pc.nonblock), old(tx.call), old(tx.log))
      ensures !pending ==> tx == T.ReturnClose(old(tx), old(tx).pc.nonblock, 0) && old(tx).tout == old(tx).tin
      ensures !pending ==> old(tx).hostInactive == hostInactive && old(tx).timeout == timeout
    {
      hide T.Run, R.Run, R.Inv, Contents, T.Accepted, T.EntryOk, T.SnapshotOk;
      TxStep();
      pending := txOut != txIn;
    }

    method CloseReadsHost(nonblock: bool) returns (waiting: bool)
      requires Valid() && tx.pc == T.CloseHost(nonblock)
      modifies this`tx, this`txEvents
      ensures Valid() && (waiting <==> hostInactive < timeout)
      ensures !waiting ==> tx == T.ReturnClose(old(tx), nonblock, 0)
      ensures waiting && nonblock ==> tx == T.ReturnClose(old(tx), nonblock, -EWOULDBLOCK)
      ensures old(tx).hostInactive == hostInactive && old(tx).timeout == timeout
      ensures old(tx).tout == txOut && old(tx).tin == txIn
      ensures waiting && !nonblock ==> TxFront() == (T.CloseTest(nonblock), old(tx.call), old(tx.log))
    {
      hide T.Run, R.Run, R.Inv, Contents, T.Accepted, T.EntryOk, T.SnapshotOk;
      TxStep();
      waiting := hostInactive < timeout;
    }

    ghost method BeginClose(nonblock: bool)
      requires Valid() && tx.pc.Idle?
      modifies this`tx, this`txEvents
      ensures Valid() && TxFront() == (T.CloseTest(nonblock), old(tx.call), old(tx.log))
    {
      hide T.Run, R.Run, T.Inv, R.Inv, Contents;
      TxDo(T.Close(nonblock));
    }

    /** altera_avalon_jtag_uart_close: answers 0 with everything sent, or with host_inactive at the time-out. It fails to
        return only with bytes left and host_inactive below the time-out. */
    method Close(nonblock: bool, schedule: seq<seq<Interrupt>>) returns (o: Outcome)
      requires Valid() && tx.pc.Idle?
      modifies this, rxBuf
      ensures Valid() && RxFront() == old(RxFront()) && timeout == old(timeout)
      ensures o.Returned? ==>
        tx.pc.Idle? && tx.log == old(tx.log) + [T.Closed(nonblock, txOut == txIn, hostInactive, timeout, o.rc)]
      ensures o.Returned? && o.rc == 0 ==>
        (tx.sent == T.TakenByAll(tx.log) && txOut == txIn) || hostInactive >= timeout
      ensures o.Returned? && o.rc != 0 ==> nonblock && o.rc == -EWOULDBLOCK && hostInactive < timeout
      ensures o.Spinning? ==> tx.pc.CloseTest? && tx.log == old(tx.log) && txOut != txIn && hostInactive < timeout
      ensures HostStaysAway(schedule, timeout) ==> o.Returned?
    {
      ghost var h := hostInactive;
      assert Watched(h, schedule, 0);
      hide T.Run, R.Run, T.Inv, R.Inv, Contents, Valid, Ran, MatchesTx, MatchesRx, HostAt, HostStaysAway;
      BeginClose(nonblock);
      var i := 0;
      while true
        invariant Valid() && tx.pc == T.CloseTest(nonblock) && tx.log == old(tx.log) && RxFront() == old(RxFront())
        invariant 0 <= i <= |schedule| && Watched(h, schedule, i) && timeout == old(timeout)
        decreases |schedule| - i
      {
        var last := i == |schedule|;
        i := Preempt(schedule, i, h);
        var pending := CloseReadsOut();
        if !pending {
          EmptyMeansSent();
          return Returned(0);
        }
        i := Preempt(schedule, i, h);
        var waiting := CloseReadsHost(nonblock);
        if !waiting { return Returned(0); }
        if nonblock { return Returned(-EWOULDBLOCK); }
        if last {
          if HostStaysAway(schedule, timeout) { HostGoesMissing(h, schedule, timeout); }
          return Spinning;
        }
      }
    }

    lemma EmptyMeansSent()
      requires Valid() && tx.pc.Idle? && tx.tout == tx.tin
      ensures tx.sent == T.TakenByAll(tx.log) && txOut == txIn
    {
      hide T.Run, R.Run, R.Inv, T.TakenByAll;
      assert Contents(tx.buf, tx.tout, tx.tin) == [];
      assert tx.sent + [] == tx.sent;
    }

    /** The TIOCSTIMEOUT request of altera_avalon_jtag_uart_ioctl. */
    method SetTimeout(arg: int) returns (rc: int)
      requires Valid() && tx.pc.Idle? && rx.pc.Idle? && arg <= INT_MAX
      modifies this
      ensures Valid() && TxFront() == old(TxFront()) && RxFront() == old(RxFront())
      ensures old(timeout) == INT_MAX ==> rc == -ENOTTY && timeout == INT_MAX
      ensures old(timeout) != INT_MAX ==> rc == 0 && timeout == if 2 <= arg < INT_MAX then arg else INT_MAX - 1
    {
      hide T.Run, R.Run, T.Inv, R.Inv, Contents;
      rc := -ENOTTY;
      if timeout != INT_MAX {
        timeout := if arg >= 2 && arg < INT_MAX then arg else INT_MAX - 1;
        TxDo(T.SetTimeout(timeout));
        RxDo(R.SetTimeout(timeout));
        rc := 0;
      }
    }

    // ---- the shared accesses of read(), one method each

    // One foreground step of the receive machine.
    ghost method RxStep()
      requires Ran()
      modifies this`rx, this`rxEvents
      ensures Ran()
      ensures R.Inv(old(rx)) && R.Inv(rx) && rx == R.StepOf(old(rx))
    {
      hide T.Run, R.Run, T.Inv, R.Inv, R.StepOf;
      RxDo(R.Step);
    }

    // The read in progress, in terms of the locals of read().
    ghost predicate Reading(space: int, nonblock: bool, got: seq<Byte>)
      reads this`rx
    {
      rx.call.space == space && rx.call.nonblock == nonblock && rx.call.got == got
    }

    ghost method BeginRead(space: int, nonblock: bool)
      requires Valid() && rx.pc.Idle?
      modifies this`rx, this`rxEvents
      ensures Valid() && RxFront() == (R.Test, R.Call(space, nonblock, [], 0, 0, R.NotYet), old(rx.log))
    {
      hide T.Run, R.Run, T.Inv, R.Inv, Contents;
      RxDo(R.Read(space, nonblock));
    }

    // The test of the outer loop.
    ghost method TestSpace()
      requires Valid() && rx.pc.Test?
      modifies this`rx, this`rxEvents
      ensures Valid()
      ensures RxFront() == (if rx.call.space - |rx.call.got| > 0 then R.Snap else R.Finish, old(rx.call), old(rx.log))
    {
      hide T.Run, R.Run, T.Inv, Contents, R.Delivered, R.EntryOk, R.SnapshotOk;
      RxStep();
    }

    // Reads rx_in and rx_out and computes the piece to copy for at most left bytes.
    method ReadRxIn(left: nat) returns (inp: nat, out: nat, n: nat)
      requires Valid() && rx.pc.Snap? && rx.call.space - |rx.call.got| == left > 0
      modifies this`rx, this`rxEvents
      ensures Valid() && n <= left && rx.pc == if n == 0 then R.After else R.Copy(out, n, [])
      ensures rx.call == old(rx).call.(inp := inp, snap := rx.call.snap) && rx.log == old(rx.log) && inp == rxIn
    {
      hide T.Run, R.Run, T.Inv, Contents, R.Delivered, R.EntryOk, R.SnapshotOk;
      inp := rxIn;
      out := rxOut;
      if inp >= out {
        n := inp - out;
      } else {
        n := rxBuf.Length - out;
      }
      assert n == Piece(|rx.buf|, rx.rin, rx.rout);
      if n > left { n := left; }
      RxStep();
    }

    method LoadRxByte(out: nat, n: nat, moved: seq<Byte>) returns (b: Byte)
      requires Valid() && rx.pc == R.Copy(out, n, moved) && |moved| < n
      modifies this`rx, this`rxEvents
      ensures Valid() && RxFront() == (R.Copy(out, n, moved + [b]), old(rx.call), old(rx.log))
    {
      hide T.Run, R.Run, T.Inv, Contents, R.Delivered, R.EntryOk, R.SnapshotOk;
      RxStep();
      b := rxBuf[out + |moved|];
    }

    method PublishRxOut(out: nat, n: nat, moved: seq<Byte>)
      requires Valid() && rx.pc == R.Copy(out, n, moved) && |moved| == n
      modifies this`rx, this`rxEvents, this`rxOut
      ensures Valid() && rx.call == old(rx).call.(got := old(rx).call.got + moved) && rx.log == old(rx.log)
      ensures rx.pc == if rx.call.space - |rx.call.got| > 0 then R.Snap else R.After
    {
      hide T.Run, R.Run, T.Inv, Contents, R.Delivered, R.EntryOk, R.SnapshotOk;
      RxStep();
      rxOut := Wrap(out + n, rxBuf.Length);
    }

    // The two tests that leave the outer loop before the spin.
    ghost method AfterCopy()
      requires Valid() && rx.pc.After?
      modifies this`rx, this`rxEvents
      ensures Valid()
      ensures RxFront() == (if rx.call.got != [] || rx.call.nonblock then R.Finish else R.SpinIn,
                            old(rx.call), old(rx.log))
    {
      hide T.Run, R.Run, T.Inv, Contents, R.Delivered, R.EntryOk, R.SnapshotOk;
      RxStep();
    }

    // in == rx_in: has anything arrived since in was read?
    method SpinOnIn(inp: nat) returns (same: bool)
      requires Valid() && rx.pc.SpinIn? && rx.call.inp == inp
      modifies this`rx, this`rxEvents
      ensures Valid() && RxFront() == (if same then R.SpinHost else R.Recheck, old(rx.call), old(rx.log))
      ensures same <==> inp == rxIn
    {
      hide T.Run, R.Run, T.Inv, Contents, R.Delivered, R.EntryOk, R.SnapshotOk;
      RxStep();
      same := inp == rxIn;
    }

    method ReadSpinsOnHost() returns (waiting: bool)
      requires Valid() && rx.pc.SpinHost?
      modifies this`rx, this`rxEvents
      ensures Valid() && rx.log == old(rx.log) && (waiting <==> hostInactive < timeout)
      ensures waiting ==> rx.pc == R.SpinIn && rx.call == old(rx.call)
      ensures !waiting ==> rx.pc == R.Recheck && rx.call == old(rx).call.(look := R.Saw(hostInactive))
    {
      hide T.Run, R.Run, T.Inv, Contents, R.Delivered, R.EntryOk, R.SnapshotOk;
      RxStep();
      waiting := hostInactive < timeout;
    }

    method Recheck(inp: nat) returns (same: bool)
      requires Valid() && rx.pc.Recheck? && rx.call.inp == inp
      modifies this`rx, this`rxEvents
      ensures Valid() && RxFront() == (if same then R.Finish else R.Test, old(rx.call), old(rx.log))
      ensures same <==> inp == rxIn
    {
      hide T.Run, R.Run, T.Inv, Contents, R.Delivered, R.EntryOk, R.SnapshotOk;
      RxStep();
      same := inp == rxIn;
    }

    // The end of read(): with interrupts disabled, irq_enable |= RE if anything was taken.
    method FinishRead(got: seq<Byte>, nonblock: bool) returns (rc: int)
      requires Valid() && rx.pc.Finish? && rx.call.got == got && rx.call.nonblock == nonblock
      modifies this`rx, this`rxEvents, this`re
      ensures Valid() && rx.pc.Idle?
      ensures rx.log == old(rx.log) + [R.Entry(old(rx).call.space, nonblock, got, old(rx).call.look, timeout, rc)]
      ensures rc == if got != [] then |got| else if nonblock then -EWOULDBLOCK else -EIO
      ensures re == (old(re) || got != [])
    {
      hide T.Run, R.Run, T.Inv, Contents, R.Delivered, R.EntryOk, R.SnapshotOk;
      RxStep();
      if got != [] { re := true; }
      rc := if got != [] then |got| else if nonblock then -EWOULDBLOCK else -EIO;
    }

    // memcpy(ptr, rx_buf + out, n), with interrupts between the bytes.
    method CopyOut(out: nat, n: nat, schedule: seq<seq<Interrupt>>, i0: nat, ghost h: nat)
      returns (moved: seq<Byte>, i: nat)
      requires Valid() && rx.pc == R.Copy(out, n, []) && Watched(h, schedule, i0)
      modifies this, rxBuf
      ensures Valid() && |moved| == n && RxFront() == (R.Copy(out, n, moved), old(rx.call), old(rx.log))
      ensures TxFront() == old(TxFront())
      ensures i0 <= i && Watched(h, schedule, i) && timeout == old(timeout)
    {
      hide T.Run, R.Run, T.Inv, R.Inv, Contents, Valid, Ran, MatchesTx, MatchesRx, Watched;
      moved, i := [], i0;
      while |moved| < n
        invariant |moved| <= n && i0 <= i && Watched(h, schedule, i) && timeout == old(timeout)
        invariant TxFront() == old(TxFront())
        invariant Valid() && RxFront() == (R.Copy(out, n, moved), old(rx.call), old(rx.log))
      {
        i := Preempt(schedule, i, h);
        var b := LoadRxByte(out, n, moved);
        moved := moved + [b];
      }
    }

    // The reader's inner loop: copy until the ring is empty or the space is used up.
    method DrainRing(space: int, nonblock: bool, schedule: seq<seq<Interrupt>>, i0: nat, ghost h: nat)
      returns (got: seq<Byte>, inp: nat, i: nat)
      requires Valid() && rx.pc == R.Snap && Reading(space, nonblock, []) && 0 < space && Watched(h, schedule, i0)
      modifies this, rxBuf
      ensures Valid() && rx.pc == R.After && Reading(space, nonblock, got) && rx.log == old(rx.log)
      ensures inp == rx.call.inp && (got == [] ==> inp == rxIn)
      ensures TxFront() == old(TxFront())
      ensures i0 <= i && Watched(h, schedule, i) && timeout == old(timeout)
    {
      hide T.Run, R.Run, T.Inv, R.Inv, Contents, Valid, Ran, MatchesTx, MatchesRx, Watched;
      got, inp, i := [], 0, i0;
      while space - |got| > 0
        invariant Valid() && Reading(space, nonblock, got) && rx.log == old(rx.log)
        invariant rx.pc == if space - |got| > 0 then R.Snap else R.After
        invariant got != [] ==> inp == rx.call.inp
        invariant TxFront() == old(TxFront())
        invariant i0 <= i && Watched(h, schedule, i) && timeout == old(timeout)
        decreases space - |got|
      {
        i := Preempt(schedule, i, h);
        var out, n: nat;
        inp, out, n := ReadRxIn(space - |got|);
        if n == 0 { return; }
        var moved;
        moved, i := CopyOut(out, n, schedule, i, h);
        i := Preempt(schedule, i, h);
        PublishRxOut(out, n, moved);
        got := got + moved;
      }
    }

    // Spin until something has arrived or the host is away. The spin is endless if a whole pass after the last interrupt
    // ends neither way.
    method AwaitBytes(inp: nat, schedule: seq<seq<Interrupt>>, i0: nat, ghost h: nat) returns (i: nat, endless: bool)
      requires Valid() && rx.pc.SpinIn? && rx.call.inp == inp && Watched(h, schedule, i0)
      modifies this, rxBuf
      ensures Valid() && rx.log == old(rx.log) && TxFront() == old(TxFront())
      ensures rx.pc == (if endless then R.SpinIn else R.Recheck) && rx.call == old(rx).call.(look := rx.call.look)
      ensures i0 <= i && Watched(h, schedule, i) && timeout == old(timeout)
      ensures endless ==> i == |schedule| && hostInactive < timeout
      ensures i == i0 ==> rxIn == old(rxIn)
    {
      hide T.Run, R.Run, T.Inv, R.Inv, Contents, Valid, Ran, MatchesTx, MatchesRx, HostAt;
      i, endless := i0, false;
      while true
        invariant Valid() && rx.pc.SpinIn? && rx.call == old(rx.call) && rx.log == old(rx.log)
        invariant TxFront() == old(TxFront())
        invariant i0 <= i && Watched(h, schedule, i) && timeout == old(timeout)
        invariant i == i0 ==> rxIn == old(rxIn)
        decreases |schedule| - i
      {
        var last := i == |schedule|;
        i := Preempt(schedule, i, h);
        var same := SpinOnIn(inp);
        if !same { return; }
        i := Preempt(schedule, i, h);
        var waiting := ReadSpinsOnHost();
        if !waiting { return; }
        if last { return i, true; }
      }
    }

    // The outer loop of read().
    method ReadLoop(space: int, nonblock: bool, schedule: seq<seq<Interrupt>>, ghost h: nat)
      returns (got: seq<Byte>, endless: bool, i: nat)
      requires Valid() && rx.pc.Test? && Reading(space, nonblock, []) && Watched(h, schedule, 0)
      modifies this, rxBuf
      ensures Valid() && Reading(space, nonblock, got) && rx.log == old(rx.log) && TxFront() == old(TxFront())
      ensures if endless then rx.pc.SpinIn? && got == [] else rx.pc.Finish?
      ensures Watched(h, schedule, i) && timeout == old(timeout)
      ensures endless ==> i == |schedule| && hostInactive < timeout
    {
      hide T.Run, R.Run, T.Inv, R.Inv, Contents, Valid, Ran, MatchesTx, MatchesRx, HostAt;
      got, endless, i := [], false, 0;
      TestSpace();
      while space > 0
        invariant Valid() && Reading(space, nonblock, []) && got == [] && !endless
        invariant rx.log == old(rx.log) && TxFront() == old(TxFront())
        invariant Watched(h, schedule, i) && timeout == old(timeout)
        invariant rx.pc == if space > 0 then R.Snap else R.Finish
        decreases |schedule| - i
      {
        var inp;
        got, inp, i := DrainRing(space, nonblock, schedule, i, h);
        AfterCopy();
        if got != [] { return; }
        if nonblock { return; }
        i, endless := AwaitBytes(inp, schedule, i, h);
        if endless { return; }
        i := Preempt(schedule, i, h);
        var same := Recheck(inp);
        if same { return; }
        TestSpace();
      }
    }

    /** altera_avalon_jtag_uart_read, preempted as the schedule says: a positive result k delivers the next k bytes that
        arrived, in order, and leaves the read interrupt enabled; an error of a blocking call comes after a spin of that
        call found host_inactive at or above the time-out. It fails to return only with host_inactive below the time-out. */
    method Read(space: int, nonblock: bool, schedule: seq<seq<Interrupt>>)
      returns (o: Outcome, got: seq<Byte>, ghost look: R.Look)
      requires Valid() && rx.pc.Idle?
      modifies this, rxBuf
      ensures Valid() && TxFront() == old(TxFront()) && timeout == old(timeout)
      ensures o.Returned? ==>
        rx.pc.Idle? && rx.log == old(rx.log) + [R.Entry(space, nonblock, got, look, timeout, o.rc)]
      ensures o.Returned? ==> R.GivenByAll(rx.log) == R.GivenByAll(old(rx.log)) + got
      ensures o.Returned? && o.rc > 0 ==> |got| == o.rc <= space && re
      ensures o.Returned? && o.rc <= 0 ==> got == [] && o.rc == if nonblock then -EWOULDBLOCK else -EIO
      ensures R.Inv(rx0)
      ensures o.Returned? && o.rc <= 0 && space > 0 && !nonblock ==>
        exists k: nat, host: nat :: R.LookedAt(rx0, rxEvents, k, |old(rx.log)|, host, timeout) && host >= timeout
      ensures o.Spinning? ==> rx.pc.SpinIn? && rx.log == old(rx.log) && hostInactive < timeout
      ensures HostStaysAway(schedule, timeout) ==> o.Returned?
    {
      o, got, look := ReadAll(space, nonblock, schedule);
      hide *;
      if o.Returned? {
        ReadIsTrue(|old(rx.log)|);
        GivenSnoc(old(rx.log), rx.log[|old(rx.log)|]);
        assert rx.log[|old(rx.log)|] == R.Entry(space, nonblock, got, look, timeout, o.rc);
        EntryMeans(rx.log[|old(rx.log)|]);
      } else if HostStaysAway(schedule, timeout) {
        HostGoesMissing(old(hostInactive), schedule, timeout);
      }
    }

    // The body of altera_avalon_jtag_uart_read.
    method ReadAll(space: int, nonblock: bool, schedule: seq<seq<Interrupt>>)
      returns (o: Outcome, got: seq<Byte>, ghost look: R.Look)
      requires Valid() && rx.pc.Idle?
      modifies this, rxBuf
      ensures Valid() && TxFront() == old(TxFront()) && timeout == old(timeout)
      ensures o.Returned? ==>
        rx.pc.Idle? && rx.log == old(rx.log) + [R.Entry(space, nonblock, got, look, timeout, o.rc)] && (got != [] ==> re)
      ensures o.Spinning? ==>
        && rx.pc.SpinIn? && rx.log == old(rx.log) && Watched(old(hostInactive), schedule, |schedule|)
        && hostInactive < timeout && hostInactive == HostAt(old(hostInactive), schedule, |schedule|)
    {
      ghost var h := hostInactive;
      assert Watched(h, schedule, 0);
      hide T.Run, R.Run, T.Inv, R.Inv, Contents, R.Delivered, Valid, Ran, MatchesTx, MatchesRx, R.PcOk, HostAt, R.Return;
      BeginRead(space, nonblock);
      var endless, i;
      got, endless, i := ReadLoop(space, nonblock, schedule, h);
      look := rx.call.look;
      if endless { return Spinning, [], look; }
      i := Preempt(schedule, i, h);
      var rc := FinishRead(got, nonblock);
      o := Returned(rc);
    }

    lemma EntryMeans(e: R.Entry)
      requires R.EntryOk(e)
      ensures e.rc > 0 ==> |e.got| == e.rc <= e.space
      ensures e.rc <= 0 ==> e.got == [] && e.rc == if e.nonblock then -EWOULDBLOCK else -EIO
    {
    }

    lemma GivenSnoc(log: seq<R.Entry>, e: R.Entry)
      ensures R.GivenByAll(log + [e]) == R.GivenByAll(log) + e.got
    {
      assert (log + [e])[..|log|] == log;
    }

    // What is known of a finished read.
    lemma ReadIsTrue(i: nat)
      requires Valid() && i < |rx.log|
      ensures R.Inv(rx0) && R.EntryOk(rx.log[i])
      ensures var e := rx.log[i]; e.rc <= 0 && e.space > 0 && !e.nonblock ==>
        exists k: nat, host: nat :: R.LookedAt(rx0, rxEvents, k, i, host, e.timeout) && host >= e.timeout
    {
      hide T.Run, R.Run, R.LookedAt, Contents, R.PcOk, R.EntryOk, R.Delivered;
      StateInv();
      R.ErrorsNeedAbsence(rx0.buf, rx0.timeout, rxEvents, i);
    }
  }
}
