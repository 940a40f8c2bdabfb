/** What the driver reads from the JTAG UART, as inputs: nothing is known about the device beyond these types. */
module UartHardware {
  import opened Words
  import opened Ring

  // One read of the DATA register: RVALID, RAVAIL and the byte.
  datatype DataRead = DataRead(valid: bool, avail: nat, b: Byte)

  // A read that finds the receive FIFO empty.
  const NO_DATA := DataRead(false, 0, 0)

  // The device never reports waiting data together with an invalid byte.
  ghost predicate Honest(d: DataRead) {
    d.valid || d.avail == 0
  }

  // One pass of the interrupt loop: the RI, WI and WSPACE fields of the CONTROL register and the DATA reads that
  // follow. When the list of reads is used up the FIFO reads as empty.
  datatype Round = Round(ri: bool, wi: bool, wspace: nat, fifo: seq<DataRead>)

  ghost predicate HonestRounds(rounds: seq<Round>) {
    forall i, k :: 0 <= i < |rounds| && 0 <= k < |rounds[i].fifo| ==> Honest(rounds[i].fifo[k])
  }

  // An interrupt, or the once-a-second alarm callback with the AC bit it reads.
  datatype Interrupt = Irq(rounds: seq<Round>) | Alarm(ac: bool)

  ghost predicate HonestInterrupt(e: Interrupt) {
    e.Irq? ==> HonestRounds(e.rounds)
  }

  // altera_avalon_jtag_uart_timeout on the host_inactive counter.
  function HostTick(hostInactive: nat, ac: bool): nat {
    if ac then 0 else if hostInactive < INT_MAX - 2 then hostInactive + 1 else hostInactive
  }

  // ---------------------------------------------------------------- what comes in and what goes out

  lemma SameSuffix<T>(a: seq<T>, x: seq<T>, y: seq<T>)
    requires a + x == a + y
    ensures x == y
  {
    assert (a + x)[|a|..] == x && (a + y)[|a|..] == y;
  }

  /** The bytes that one read service with so much room takes: those of the leading valid reads, as far as there is room. */
  function Arriving(room: nat, fifo: seq<DataRead>): (x: seq<Byte>)
    ensures |x| <= room && |x| <= |fifo|
    ensures forall i :: 0 <= i < |x| ==> fifo[i].valid && x[i] == fifo[i].b
    ensures |x| == room || |x| == |fifo| || !fifo[|x|].valid
  {
    if room == 0 || fifo == [] || !fifo[0].valid then [] else [fifo[0].b] + Arriving(room - 1, fifo[1..])
  }

  // The RAVAIL field of the last read it makes; last stands for it if there is no room for a read at all.
  function LastAvail(last: nat, room: nat, fifo: seq<DataRead>): nat {
    var k := |Arriving(room, fifo)|;
    if k == room then if k == 0 then last else fifo[k - 1].avail
    else if k < |fifo| then fifo[k].avail
    else 0
  }

  lemma ArrivingStep(last: nat, room: nat, fifo: seq<DataRead>)
    ensures room == 0 ==> Arriving(room, fifo) == [] && LastAvail(last, room, fifo) == last
    ensures room > 0 && fifo == [] ==> Arriving(room, fifo) == [] && LastAvail(last, room, fifo) == 0
    ensures room > 0 && fifo != [] && !fifo[0].valid ==>
      Arriving(room, fifo) == [] && LastAvail(last, room, fifo) == fifo[0].avail
    ensures room > 0 && fifo != [] && fifo[0].valid ==>
      && Arriving(room, fifo) == [fifo[0].b] + Arriving(room - 1, fifo[1..])
      && LastAvail(last, room, fifo) == LastAvail(fifo[0].avail, room - 1, fifo[1..])
  {
  }

  // What the passes of one interrupt take, in order, until the CONTROL register shows neither RI nor WI.
  function ArrivingOver(room: nat, rounds: seq<Round>): (x: seq<Byte>)
    ensures |x| <= room
    decreases |rounds|
  {
    if rounds == [] || (!rounds[0].ri && !rounds[0].wi) then []
    else
      var x := if rounds[0].ri then Arriving(room, rounds[0].fifo) else [];
      x + ArrivingOver(room - |x|, rounds[1..])
  }

  function ArrivingAt(room: nat, e: Interrupt): (x: seq<Byte>)
    ensures |x| <= room
  {
    if e.Irq? then ArrivingOver(room, e.rounds) else []
  }

  // The room in the transmit FIFO that the passes of one interrupt find.
  function SpaceOver(rounds: seq<Round>): nat
    decreases |rounds|
  {
    if rounds == [] || (!rounds[0].ri && !rounds[0].wi) then 0
    else (if rounds[0].wi then rounds[0].wspace else 0) + SpaceOver(rounds[1..])
  }

  // ---------------------------------------------------------------- schedules of interrupts

  // host_inactive after some interrupts, and after the first i entries of a schedule.
  function HostAfter(h: nat, ints: seq<Interrupt>): nat {
    if ints == [] then h
    else
      var before, last := HostAfter(h, ints[..|ints| - 1]), ints[|ints| - 1];
      if last.Alarm? then HostTick(before, last.ac) else before
  }

  function HostAt(h: nat, schedule: seq<seq<Interrupt>>, i: nat): nat
    requires i <= |schedule|
  {
    if i == 0 then h else HostAfter(HostAt(h, schedule, i - 1), schedule[i - 1])
  }

  // How often the alarm goes off, and that it never finds the host.
  function Ticks(ints: seq<Interrupt>): nat {
    if ints == [] then 0 else Ticks(ints[..|ints| - 1]) + if ints[|ints| - 1].Alarm? then 1 else 0
  }

  predicate NoHost(ints: seq<Interrupt>) {
    forall k :: 0 <= k < |ints| ==> ints[k] != Alarm(true)
  }

  function TicksOf(schedule: seq<seq<Interrupt>>, i: nat): nat
    requires i <= |schedule|
  {
    if i == 0 then 0 else TicksOf(schedule, i - 1) + Ticks(schedule[i - 1])
  }

  // In the schedule the host stays away for longer than the time-out.
  ghost predicate HostStaysAway(schedule: seq<seq<Interrupt>>, timeout: nat) {
    && (forall i :: 0 <= i < |schedule| ==> NoHost(schedule[i]))
    && timeout <= TicksOf(schedule, |schedule|) && timeout <= INT_MAX - 2 && 1 <= TicksOf(schedule, |schedule|)
  }

  // How many of the interrupts from k on are alarms that did not find the host.
  function Missed(ints: seq<Interrupt>, k: nat): nat
    requires k <= |ints|
  {
    multiset(ints[k..])[Alarm(false)]
  }

  lemma MissedSnoc(ints: seq<Interrupt>, k: nat)
    requires k < |ints|
    ensures Missed(ints, k) == Missed(ints[..|ints| - 1], k) + if ints[|ints| - 1] == Alarm(false) then 1 else 0
  {
    assert ints[k..] == ints[..|ints| - 1][k..] + [ints[|ints| - 1]];
  }

  /** host_inactive counts the alarms that did not find the host since the last one that did, or since it had its first value,
      up to its limit: the interrupts from k on are those after the last alarm that found it. */
  lemma {:induction false} HostCounter(h: nat, ints: seq<Interrupt>, k: nat)
    requires h <= INT_MAX - 2 && k <= |ints| && (k > 0 ==> ints[k - 1] == Alarm(true))
    requires forall i :: k <= i < |ints| ==> ints[i] != Alarm(true)
    ensures HostAfter(h, ints) == Min(INT_MAX - 2, (if k == 0 then h else 0) + Missed(ints, k))
    decreases |ints|
  {
    if |ints| > k {
      hide HostAfter, Missed;
      HostCounter(h, ints[..|ints| - 1], k);
      MissedSnoc(ints, k);
      HostSnoc(h, ints);
      var last := ints[|ints| - 1];
      assert last.Alarm? ==> last == Alarm(false);
    } else {
      assert Missed(ints, k) == 0;
      if k > 0 { HostSnoc(h, ints); }
    }
  }

  lemma HostSnoc(h: nat, ints: seq<Interrupt>)
    requires ints != []
    ensures var before, last := HostAfter(h, ints[..|ints| - 1]), ints[|ints| - 1];
      HostAfter(h, ints) == match last
        case Irq(_) => before
        case Alarm(ac) => if ac then 0 else if before < INT_MAX - 2 then before + 1 else before
  {
  }

  lemma {:induction false} HostCounts(h: nat, ints: seq<Interrupt>)
    requires NoHost(ints)
    ensures HostAfter(h, ints) >= Min(h + Ticks(ints), INT_MAX - 2)
  {
    if ints != [] {
      assert ints[|ints| - 1] != Alarm(true);
      HostCounts(h, ints[..|ints| - 1]);
    }
  }

  lemma {:induction false} HostIsCounted(h: nat, schedule: seq<seq<Interrupt>>, i: nat)
    requires i <= |schedule| && forall k :: 0 <= k < |schedule| ==> NoHost(schedule[k])
    ensures HostAt(h, schedule, i) >= Min(h + TicksOf(schedule, i), INT_MAX - 2)
  {
    if i > 0 {
      HostIsCounted(h, schedule, i - 1);
      HostCounts(HostAt(h, schedule, i - 1), schedule[i - 1]);
    }
  }

  // The counter reaches the time-out.
  lemma HostGoesMissing(h: nat, schedule: seq<seq<Interrupt>>, timeout: nat)
    requires HostStaysAway(schedule, timeout)
    ensures var last := HostAt(h, schedule, |schedule|); last >= timeout && last != 0
  {
    HostIsCounted(h, schedule, |schedule|);
  }
}
