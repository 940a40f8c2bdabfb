/** The alarm list as it is linked: alarms on an intrusive circular list with a head element, walked by alt_tick while
    callbacks link and unlink alarms. Every operation is the corresponding one of AlarmSpec on the list it holds. */
module AlarmList {
  import opened Words
  import opened Errno
  import opened AlarmSpec

  class AltAlarm {
    var next: AltAlarm
    var previous: AltAlarm
    var time: nat
    var rollover: bool

    constructor ()
      ensures next == this && previous == this
    {
      next, previous := this, this;
      time, rollover := 0, false;
    }
  }

  // The list from head round to head again.
  ghost function Circle(head: AltAlarm, nodes: seq<AltAlarm>): seq<AltAlarm> {
    [head] + nodes + [head]
  }

  ghost predicate Linked(head: AltAlarm, nodes: seq<AltAlarm>)
    reads head`next, head`previous, nodes`next, nodes`previous
  {
    var c := Circle(head, nodes);
    forall i, j :: 0 <= i <= |nodes| && j == i + 1 ==> c[i].next == c[j] && c[j].previous == c[i]
  }

  ghost function ItemsOf(nodes: seq<AltAlarm>): (items: seq<Item<AltAlarm>>)
    reads nodes`time, nodes`rollover
    ensures |items| == |nodes|
    ensures forall i :: 0 <= i < |nodes| ==> items[i] == Item(nodes[i], nodes[i].time, nodes[i].rollover)
  {
    if nodes == [] then [] else [Item(nodes[0], nodes[0].time, nodes[0].rollover)] + ItemsOf(nodes[1..])
  }

  ghost predicate Distinct(nodes: seq<AltAlarm>) {
    forall i, j :: 0 <= i < j < |nodes| ==> nodes[i] != nodes[j]
  }

  // The list without its k-th alarm, if it has one.
  ghost function Cut(nodes: seq<AltAlarm>, k: nat): seq<AltAlarm>
    requires k <= |nodes|
  {
    if k < |nodes| then nodes[..k] + nodes[k + 1..] else nodes
  }

  // The list without one alarm.
  ghost function Minus(nodes: seq<AltAlarm>, a: AltAlarm): seq<AltAlarm> {
    if nodes == [] then [] else (if nodes[0] == a then [] else [nodes[0]]) + Minus(nodes[1..], a)
  }

  ghost function IndexOf(nodes: seq<AltAlarm>, a: AltAlarm): (k: nat)
    ensures k <= |nodes| && (k < |nodes| <==> a in nodes) && (k < |nodes| ==> nodes[k] == a)
  {
    if nodes == [] || nodes[0] == a then 0 else 1 + IndexOf(nodes[1..], a)
  }

  lemma {:induction false} MinusNone(nodes: seq<AltAlarm>, a: AltAlarm)
    requires a !in nodes
    ensures Minus(nodes, a) == nodes
  {
    if nodes != [] { MinusNone(nodes[1..], a); }
  }

  lemma {:induction false} MinusAt(nodes: seq<AltAlarm>, a: AltAlarm, k: nat)
    requires Distinct(nodes) && k <= |nodes| && (if k < |nodes| then nodes[k] == a else a !in nodes)
    ensures Minus(nodes, a) == Cut(nodes, k)
  {
    if k == |nodes| {
      MinusNone(nodes, a);
    } else if k == 0 {
      MinusNone(nodes[1..], a);
    } else {
      MinusAt(nodes[1..], a, k - 1);
      assert [nodes[0]] + Cut(nodes[1..], k - 1) == Cut(nodes, k);
    }
  }

  lemma CutKeeps(nodes: seq<AltAlarm>, a: AltAlarm, k: nat)
    requires Distinct(nodes) && k <= |nodes| && (if k < |nodes| then nodes[k] == a else a !in nodes)
    ensures Distinct(Cut(nodes, k))
    ensures forall x :: x in Cut(nodes, k) <==> x in nodes && x != a
  {
    forall x | x in nodes && x != a ensures x in Cut(nodes, k) {
      var i :| 0 <= i < |nodes| && nodes[i] == x;
      assert k < |nodes| ==> (if i < k then Cut(nodes, k)[i] else Cut(nodes, k)[i - 1]) == x;
    }
  }

  lemma CircleWithout(head: AltAlarm, nodes: seq<AltAlarm>, k: nat)
    requires k <= |nodes|
    ensures var c, d := Circle(head, nodes), Circle(head, Cut(nodes, k));
      && |d| == |Cut(nodes, k)| + 2 == (if k < |nodes| then |c| - 1 else |c|)
      && forall i :: 0 <= i < |d| ==> d[i] == if i <= k || k == |nodes| then c[i] else c[i + 1]
  {
  }

  // The circle visits every element once, the head first and last.
  lemma CircleDistinct(head: AltAlarm, nodes: seq<AltAlarm>)
    requires head !in nodes && Distinct(nodes)
    ensures var c := Circle(head, nodes);
      && (forall i, j :: 0 <= i < j <= |nodes| ==> c[i] != c[j])
      && (forall i, j :: 1 <= i < j <= |nodes| + 1 ==> c[i] != c[j])
  {
  }

  class Timer {
    const head: AltAlarm
    var nticks: nat
    var tickRate: nat
    // Every alarm there is, and those on the list, in order.
    ghost const alarms: set<AltAlarm>
    ghost var nodes: seq<AltAlarm>

    ghost predicate Valid()
      reads this, head, alarms
    {
      && head !in alarms && nticks < WRAP
      && (forall a :: a in nodes ==> a in alarms)
      && Distinct(nodes)
      && Linked(head, nodes)
      && (forall a :: a in alarms && a !in nodes ==> a.next == a && a.previous == a)
    }

    ghost function Items(): seq<Item<AltAlarm>>
      reads this`nodes, nodes`time, nodes`rollover
    {
      ItemsOf(nodes)
    }

    constructor (ghost alarms: set<AltAlarm>, rate: nat)
      requires forall a :: a in alarms ==> a.next == a && a.previous == a
      ensures Valid() && this.alarms == alarms && nodes == [] && nticks == 0 && tickRate == rate && fresh(head)
    {
      head := new AltAlarm();
      this.alarms := alarms;
      nticks, tickRate := 0, rate;
      nodes := [];
    }

    // Following the links from the head never leads back to it, so that alt_tick would not end.
    ghost predicate Endless()
      reads *
    {
      forall k: nat :: After(head.next, k) != head
    }

    /** alt_llist_insert: a new entry becomes the first of the list; one that is on the list already makes it endless. */
    method Insert(entry: AltAlarm)
      requires Valid() && entry in alarms
      modifies this`nodes, head`next, head`previous, alarms`next, alarms`previous
      ensures entry !in old(nodes) ==> Valid() && nodes == [entry] + old(nodes)
      ensures entry in old(nodes) ==> Endless()
    {
      ghost var c := Circle(head, nodes);
      assert c[0].next == c[1];
      ChainOf(head, nodes);
      entry.previous := head;
      entry.next := head.next;
      head.next.previous := entry;
      head.next := entry;
      if entry !in nodes {
        nodes := [entry] + nodes;
        ghost var d := Circle(head, nodes);
        assert d == [head, entry] + c[1..];
        forall i, j | 0 <= i <= |nodes| && j == i + 1 ensures d[i].next == d[j] && d[j].previous == d[i] {
          if i >= 2 { assert old(c[i - 1].next == c[i] && c[i].previous == c[i - 1]); }
        }
      } else {
        hide Linked;
        LoopsFrom(head, nodes, entry);
      }
    }

    // alt_llist_remove on the k-th alarm of the list, or on one that is linked to itself.
    method Unlink(entry: AltAlarm, ghost k: nat)
      requires head !in nodes && Distinct(nodes) && Linked(head, nodes) && forall a :: a in nodes ==> a in alarms
      requires head !in alarms && entry in alarms && k <= |nodes|
      requires if k < |nodes| then nodes[k] == entry
               else entry !in nodes && entry.next == entry && entry.previous == entry
      modifies head`next, head`previous, alarms`next, alarms`previous
      ensures entry.next == entry && entry.previous == entry
      ensures Linked(head, Cut(nodes, k))
      ensures forall a :: a in alarms && a !in nodes && a != entry ==>
        a.next == old(a.next) && a.previous == old(a.previous)
    {
      ghost var c := Circle(head, nodes);
      ghost var after := Cut(nodes, k);
      ghost var d := Circle(head, after);
      CircleWithout(head, nodes, k);
      CircleDistinct(head, nodes);
      if k < |nodes| {
        assert c[k].next == c[k + 1] && c[k + 1].next == c[k + 2];
        assert c[k + 1].previous == c[k] && c[k + 2].previous == c[k + 1];
      }
      entry.next.previous := entry.previous;
      entry.previous.next := entry.next;
      entry.previous := entry;
      entry.next := entry;
      forall i, j | 0 <= i <= |after| && j == i + 1 ensures d[i].next == d[j] && d[j].previous == d[i] {
        if i < k || k == |nodes| {
          assert old(c[i].next == c[j] && c[j].previous == c[i]);
        } else if i > k {
          assert old(c[i + 1].next == c[j + 1] && c[j + 1].previous == c[i + 1]);
        }
      }
    }

    /** Removing an alarm takes it off the list, and changes nothing if it is not on it. */
    method Remove(entry: AltAlarm)
      requires Valid() && entry in alarms
      modifies this`nodes, head`next, head`previous, alarms`next, alarms`previous
      ensures Valid() && nodes == Minus(old(nodes), entry)
      ensures entry !in nodes && entry.next == entry && entry.previous == entry
      ensures forall x :: x in nodes ==> x in old(nodes)
    {
      ghost var k := IndexOf(nodes, entry);
      Unlink(entry, k);
      MinusAt(nodes, entry, k);
      CutKeeps(nodes, entry, k);
      nodes := Cut(nodes, k);
    }

    // alt_alarm_stop
    method Stop(alarm: AltAlarm)
      requires Valid() && alarm in alarms
      modifies this`nodes, head`next, head`previous, alarms`next, alarms`previous
      ensures Valid() && nodes == Minus(old(nodes), alarm)
      ensures Items() == Without(old(Items()), [alarm])
      ensures alarm !in nodes && forall x :: x in nodes ==> x in old(nodes)
    {
      ItemsMinus(nodes, alarm);
      Remove(alarm);
      SameItems(nodes, old(ItemsOf(Minus(nodes, alarm))));
    }

    // Sets the deadline of an alarm.
    method Arm(alarm: AltAlarm, ticks: nat)
      requires Valid() && alarm in alarms
      modifies alarm`time, alarm`rollover
      ensures Valid() && (alarm !in nodes ==> Items() == old(Items()))
      ensures Item(alarm, alarm.time, alarm.rollover) == Armed(alarm, ticks, nticks)
    {
      var currentNticks := nticks;
      alarm.time := (ticks + currentNticks + 1) % WRAP;
      if alarm.time < currentNticks {
        alarm.rollover := true;
      } else {
        alarm.rollover := false;
      }
      if alarm !in nodes { SameItems(nodes, old(Items())); }
    }

    method Link(alarm: AltAlarm)
      requires Valid() && alarm in alarms
      modifies this`nodes, head`next, head`previous, alarms`next, alarms`previous
      ensures alarm !in old(nodes) ==>
        Valid() && nodes == [alarm] + old(nodes)
        && Items() == [Item(alarm, alarm.time, alarm.rollover)] + old(Items())
      ensures alarm in old(nodes) ==> Endless()
    {
      ghost var unlisted := alarm !in nodes;
      Insert(alarm);
      if unlisted { SameItems(nodes, [Item(alarm, alarm.time, alarm.rollover)] + old(Items())); }
    }

    /** alt_alarm_start: sets the alarm up and links it in at the head, if there is a clock and an alarm. One that is already
        waiting is linked a second time, which makes the list endless. */
    method Start(alarm: AltAlarm?, ticks: nat) returns (rc: int)
      requires Valid() && (alarm != null ==> alarm in alarms)
      modifies this`nodes, head`next, head`previous, alarms`next, alarms`previous
      modifies if alarm != null then {alarm} else {}
      ensures tickRate == 0 ==> rc == -ENOTSUP
      ensures tickRate != 0 && alarm == null ==> rc == -EINVAL
      ensures rc != 0 ==> Valid() && nodes == old(nodes) && Items() == old(Items())
      ensures tickRate != 0 && alarm != null ==> rc == 0
      ensures rc == 0 && alarm !in old(nodes) ==>
        Valid() && nodes == [alarm] + old(nodes) && Items() == [Armed<AltAlarm>(alarm, ticks, nticks)] + old(Items())
      ensures rc == 0 && alarm in old(nodes) ==> Endless()
    {
      if tickRate == 0 { return -ENOTSUP; }
      if alarm == null { return -EINVAL; }
      Arm(alarm, ticks);
      Link(alarm);
      rc := 0;
    }

    // The alarm_stop calls of a callback.
    method RunStops(stops: seq<AltAlarm>)
      requires Valid() && forall i :: 0 <= i < |stops| ==> stops[i] in alarms
      modifies this`nodes, head`next, head`previous, alarms`next, alarms`previous
      ensures Valid() && Items() == Without(old(Items()), stops)
      ensures forall i :: 0 <= i < |stops| ==> stops[i] !in nodes
      ensures forall a :: a in nodes ==> a in old(nodes)
    {
      hide Linked, Distinct, Minus, IsListed, ItemsOf, Without, Valid;
      WithoutAbsent(Items(), []);
      var k := 0;
      while k < |stops|
        invariant 0 <= k <= |stops| && Valid() && Items() == Without(old(Items()), stops[..k])
        invariant forall i :: 0 <= i < k ==> stops[i] !in nodes
        invariant forall a :: a in nodes ==> a in old(nodes)
      {
        WithoutSnoc(old(Items()), stops[..k], stops[k]);
        assert stops[..k] + [stops[k]] == stops[..k + 1];
        Stop(stops[k]);
        k := k + 1;
      }
      assert stops[..k] == stops;
    }

    // The alarm_start calls of a callback.
    method RunStarts(starts: seq<Start<AltAlarm>>)
      requires Valid() && tickRate != 0
      requires forall i :: 0 <= i < |starts| ==> starts[i].alarm in alarms && starts[i].alarm !in nodes
      requires forall i, j :: 0 <= i < j < |starts| ==> starts[i].alarm != starts[j].alarm
      modifies this`nodes, head`next, head`previous, alarms
      ensures Valid() && Items() == Started(old(Items()), starts, nticks)
      ensures forall a :: a in nodes ==> a in old(nodes) || Starts(starts, a)
      ensures forall a :: a in alarms && !Starts(starts, a) ==> a.time == old(a.time) && a.rollover == old(a.rollover)
    {
      hide Linked, Distinct, ItemsOf, Started, Valid, Starts;
      StartedNone(Items(), nticks);
      var k := 0;
      while k < |starts|
        invariant 0 <= k <= |starts| && Valid() && Items() == Started(old(Items()), starts[..k], nticks)
        invariant forall i :: k <= i < |starts| ==> starts[i].alarm !in nodes
        invariant forall a :: a in nodes ==> a in old(nodes) || Starts(starts, a)
        invariant forall a :: a in alarms && !Starts(starts, a) ==> a.time == old(a.time) && a.rollover == old(a.rollover)
      {
        StartedSnoc(old(Items()), starts[..k], starts[k], nticks);
        assert starts[..k] + [starts[k]] == starts[..k + 1];
        StartIsStarted(starts, k);
        var rc := Start(starts[k].alarm, starts[k].nticks);
        k := k + 1;
      }
      assert starts[..k] == starts;
    }

    // A callback: its stops, then its starts. The alarm it belongs to is self, between pre and after; or self is empty, and
    // it is off the list. It stays where it was unless it stopped itself.
    method Callback(alarm: AltAlarm, e: Effect<AltAlarm>, ghost pre: seq<Item<AltAlarm>>,
                    ghost self: seq<Item<AltAlarm>>, ghost after: seq<Item<AltAlarm>>)
      requires Valid() && tickRate != 0 && Items() == pre + self + after && Is(alarm, self)
      requires Names(alarms, e) && Fresh(Without(pre, e.stops) + Without(after, e.stops), alarm, e)
      modifies this`nodes, head`next, head`previous, alarms
      ensures Valid() && (self == [] || alarm in e.stops ==> alarm !in nodes)
      ensures Items() == Started(Without(pre, e.stops), e.starts, nticks)
                       + (if alarm in e.stops then [] else self) + Without(after, e.stops)
      ensures forall a :: a in alarms && !Starts(e.starts, a) ==> a.time == old(a.time) && a.rollover == old(a.rollover)
    {
      hide Linked, Distinct, Valid, ItemsOf, Starts;
      ghost var kept := if alarm in e.stops then [] else self;
      RunStops(e.stops);
      WithoutSelf(pre, self, after, alarm, e.stops);
      forall i | 0 <= i < |e.starts| ensures e.starts[i].alarm !in nodes {
        NotListed(nodes, Without(pre, e.stops), kept, Without(after, e.stops), e.starts[i].alarm);
      }
      StartedAppend(Without(pre, e.stops) + kept, Without(after, e.stops), e.starts, nticks);
      StartedAppend(Without(pre, e.stops), kept, e.starts, nticks);
      NotStarted(e.starts, alarm);
      RunStarts(e.starts);
    }

    // The alarm of the callback: one item, or none for an alarm off the list.
    ghost predicate Is(alarm: AltAlarm, self: seq<Item<AltAlarm>>)
      reads this`nodes
    {
      alarm in alarms && |self| <= 1 && (self != [] ==> self[0].alarm == alarm) && (self == [] ==> alarm !in nodes)
    }

    // Sets the alarm again for its time plus the period; k is where it is on the list, or the length of the list.
    method Rearm(alarm: AltAlarm, period: nat, ghost k: nat)
      requires Valid() && alarm in alarms && k <= |nodes|
      requires if k < |nodes| then nodes[k] == alarm else alarm !in nodes
      modifies alarm`time, alarm`rollover
      ensures Valid()
      ensures Items() == if k < |nodes| then old(Items())[k := Rearmed(old(Items())[k], period, nticks)]
                         else old(Items())
      ensures ItemOf(alarm) == Rearmed(old(ItemOf(alarm)), period, nticks)
    {
      hide Linked, ItemsOf;
      alarm.time := (alarm.time + period) % WRAP;
      if alarm.time < nticks {
        alarm.rollover := true;
      }
      SameItems(nodes, if k < |nodes| then old(Items())[k := Item(alarm, alarm.time, alarm.rollover)]
                       else old(Items()));
    }

    // Deactivates the alarm called, or sets it again.
    method Reschedule(alarm: AltAlarm, period: nat, ghost k: nat)
      requires Valid() && alarm in alarms && k <= |nodes|
      requires if k < |nodes| then nodes[k] == alarm else alarm !in nodes
      modifies this`nodes, head`next, head`previous, alarms
      ensures Valid()
      ensures k == |old(nodes)| ==> Items() == old(Items())
      ensures k < |old(nodes)| && period == 0 ==> Items() == old(Items())[..k] + old(Items())[k + 1..]
      ensures k < |old(nodes)| && period != 0 ==>
        Items() == old(Items())[k := Rearmed(old(Items())[k], period, nticks)]
      ensures forall a :: a in alarms && a != alarm ==> a.time == old(a.time) && a.rollover == old(a.rollover)
      ensures k == |old(nodes)| ==> alarm !in nodes
      ensures ItemOf(alarm) == if period == 0 then old(ItemOf(alarm)) else Rearmed(old(ItemOf(alarm)), period, nticks)
    {
      StopOne(nodes, alarm, k);
      hide Linked, Distinct, Valid, Without, Minus, Rearmed, ItemsOf;
      if period == 0 {
        Stop(alarm);
      } else {
        Rearm(alarm, period, k);
      }
    }

    // A flag set for the epoch before has served when the counter is at zero.
    method ClearRollover(alarm: AltAlarm, ghost k: nat)
      requires Valid() && alarm in alarms && k <= |nodes|
      requires if k < |nodes| then nodes[k] == alarm else alarm !in nodes
      modifies alarm`rollover
      ensures Valid() && ItemOf(alarm) == Seen(old(ItemOf(alarm)), nticks)
      ensures Items() == if k < |nodes| then old(Items())[k := Seen(old(Items())[k], nticks)] else old(Items())
    {
      hide Linked, ItemsOf;
      if alarm.rollover && nticks == 0 {
        alarm.rollover := false;
      }
      SameItems(nodes, if k < |nodes| then old(Items())[k := ItemOf(alarm)] else old(Items()));
    }

    // The callback of an expired alarm, and what becomes of the alarm.
    method Fire(alarm: AltAlarm, e: Effect<AltAlarm>, ghost pre: seq<Item<AltAlarm>>, ghost self: seq<Item<AltAlarm>>,
                ghost after: seq<Item<AltAlarm>>)
      requires Valid() && tickRate != 0 && Items() == pre + self + after && Is(alarm, self)
      requires Names(alarms, e) && Fresh(Without(pre, e.stops) + Without(after, e.stops), alarm, e)
      modifies this`nodes, head`next, head`previous, alarms
      ensures Valid() && (self == [] ==> alarm !in nodes)
      ensures Items() == Started(Without(pre, e.stops), e.starts, nticks)
                       + Kept(self, alarm, e, nticks) + Without(after, e.stops)
      ensures ItemOf(alarm) == Resumed(old(ItemOf(alarm)), e, nticks)
      ensures forall a :: a in alarms && a != alarm && !Starts(e.starts, a) ==>
        a.time == old(a.time) && a.rollover == old(a.rollover)
    {
      NotStarted(e.starts, alarm);
      assert !Starts(e.starts, alarm);
      hide Linked, Distinct, Without, Started, Valid, ItemsOf, Rearmed, Fresh, Starts;
      Callback(alarm, e, pre, self, after);
      ghost var before, rest := Started(Without(pre, e.stops), e.starts, nticks), Without(after, e.stops);
      ghost var off := alarm in e.stops || self == [];
      assert before + [] == before;
      ghost var k := if off then |nodes| else |before|;
      if !off {
        Splice(before, self[0], rest, Rearmed(self[0], e.period, nticks));
        assert [self[0]] == self;
        assert ItemsOf(nodes)[k] == self[0];
      }
      Reschedule(alarm, e.period, k);
    }

    // The body of the loop of alt_tick after the link to the next alarm is read. The alarm is self, between pre and after, or
    // off the list.
    method Visit(alarm: AltAlarm, effects: seq<Effect<AltAlarm>>, ghost pre: seq<Item<AltAlarm>>,
                 ghost self: seq<Item<AltAlarm>>, ghost after: seq<Item<AltAlarm>>)
      returns (fires: bool)
      requires Valid() && tickRate != 0 && Items() == pre + self + after && Is(alarm, self)
      requires Names(alarms, First(effects))
      requires var e := First(effects); Expired(Seen(ItemOf(alarm), nticks), nticks) ==>
        Fresh(Without(pre, e.stops) + Without(after, e.stops), alarm, e)
      modifies this`nodes, head`next, head`previous, alarms
      ensures Valid() && (self == [] ==> alarm !in nodes)
      ensures fires == Expired(Seen(old(ItemOf(alarm)), nticks), nticks)
      ensures !fires ==>
        Items() == pre + (if self == [] then [] else [Seen(self[0], nticks)]) + after
        && ItemOf(alarm) == Seen(old(ItemOf(alarm)), nticks)
      ensures fires ==>
        var e := First(effects);
        && Items() == Started(Without(pre, e.stops), e.starts, nticks)
                    + Kept(if self == [] then [] else [Seen(self[0], nticks)], alarm, e, nticks) + Without(after, e.stops)
        && ItemOf(alarm) == Resumed(Seen(old(ItemOf(alarm)), nticks), e, nticks)
      ensures forall a :: a in alarms && a != alarm && !(fires && Starts(First(effects).starts, a)) ==>
        a.time == old(a.time) && a.rollover == old(a.rollover)
    {
      ghost var k := if self == [] then |nodes| else |pre|;
      ghost var seen := if self == [] then [] else [Seen(self[0], nticks)];
      if self != [] {
        Splice(pre, self[0], after, Seen(self[0], nticks));
        assert [self[0]] == self;
        assert ItemsOf(nodes)[k] == self[0];
      }
      hide Linked, Distinct, Without, Started, Valid, ItemsOf, Rearmed, Fresh, Seen, Starts;
      ClearRollover(alarm, k);
      fires := alarm.time <= nticks && !alarm.rollover;
      if fires {
        Fire(alarm, First(effects), pre, seen, after);
      }
    }

    // Where the loop of alt_tick stands, in terms of the walk.
    ghost predicate At(alarm: AltAlarm, w: Walker<AltAlarm>)
      reads this, head, alarms
    {
      && Valid()
      && match w
         case Walker(pre, rest, _, _) =>
           && Items() == pre + rest
           && if rest == [] then alarm == head else alarm == rest[0].alarm && alarm != head
         case Stuck(list, it, _, _) =>
           && Items() == list && alarm in alarms && alarm !in nodes && it == ItemOf(alarm)
    }

    // The link of the alarm the walk stands on.
    method NextAlarm(alarm: AltAlarm, ghost w: Walker<AltAlarm>) returns (next: AltAlarm)
      requires At(alarm, w) && !w.Done()
      ensures w.Stuck? ==> next == alarm
      ensures w.Walker? && |w.rest| == 1 ==> next == head
      ensures w.Walker? && |w.rest| > 1 ==>
        next == w.rest[1].alarm && next in alarms && next != head && next != alarm && ItemOf(next) == w.rest[1]
    {
      if w.Walker? {
        ghost var k := |w.pre|;
        assert ItemsOf(nodes)[k] == w.rest[0] && (|w.rest| > 1 ==> ItemsOf(nodes)[k + 1] == w.rest[1]);
        assert Circle(head, nodes)[k + 1].next == Circle(head, nodes)[k + 2];
        assert |w.rest| > 1 ==> nodes[k + 1] in alarms && nodes[k] != nodes[k + 1];
      }
      next := alarm.next;
    }

    // Where the walk goes on: the alarm read before the callback, wherever the callback has left it.
    lemma Lands(next: AltAlarm, w: Walker<AltAlarm>)
      requires Valid() && w.Walker? && w.rest != []
      requires var e, it := First(w.left), Seen(w.rest[0], nticks);
        Items() == if Expired(it, nticks) then Behind(w.pre, it, e, nticks) + Without(w.rest[1..], e.stops)
                   else w.pre + [it] + w.rest[1..]
      requires |w.rest| == 1 ==> next == head
      requires |w.rest| > 1 ==>
        && next == w.rest[1].alarm && next in alarms && next != head
        && (Starts(First(w.left).starts, next) || ItemOf(next) == w.rest[1])
      ensures At(next, AlarmSpec.Pass(w, nticks))
    {
      hide Linked, Distinct, Started, Rearmed, ItemsOf, Starts, Seen, IsListed, Behind, Valid;
      var e, it := First(w.left), Seen(w.rest[0], nticks);
      if Expired(it, nticks) {
        if |w.rest| == 1 {
          assert w.rest[1..] == [];
        } else if next in e.stops {
          LandsAgain(next, w);
        } else {
          WithoutHead(w.rest[1..], e.stops);
        }
      }
    }

    // On an alarm that the callback has stopped: where it is now, if it has been started again.
    lemma LandsAgain(next: AltAlarm, w: Walker<AltAlarm>)
      requires Valid() && w.Walker? && |w.rest| > 1
      requires next == w.rest[1].alarm && next in alarms && next != head && next in First(w.left).stops
      requires var e, it := First(w.left), Seen(w.rest[0], nticks);
        Expired(it, nticks) && Items() == Behind(w.pre, it, e, nticks) + Without(w.rest[1..], e.stops)
      requires Starts(First(w.left).starts, next) || ItemOf(next) == w.rest[1]
      ensures At(next, AlarmSpec.Pass(w, nticks))
    {
      hide Linked, Distinct, ItemsOf, Starts, Seen, IsListed, Behind, Without, Valid, Expired;
      var e, it := First(w.left), Seen(w.rest[0], nticks);
      StoppedIsListed(w.pre, it, w.rest[1..], e, nticks, next);
      PositionIn(Items(), [], next);
      assert Items() + [] == Items();
      if !IsListed(Items(), next) { OffList(nodes, next); }
    }

    lemma Stays(alarm: AltAlarm, w: Walker<AltAlarm>)
      requires Valid() && w.Stuck? && alarm in alarms && alarm !in nodes
      requires var e, it := First(w.left), Seen(w.it, nticks);
        if Expired(it, nticks) then
          Items() == Started(Without(w.list, e.stops), e.starts, nticks) && ItemOf(alarm) == Resumed(it, e, nticks)
        else Items() == w.list && ItemOf(alarm) == it
      ensures At(alarm, AlarmSpec.Pass(w, nticks))
    {
      hide Linked, Distinct, Started, Without, Rearmed, Seen;
    }

    // What is behind the walk, the alarm it stands on if that is on the list, and what is ahead of it.
    ghost function Parts(w: Walker<AltAlarm>): (seq<Item<AltAlarm>>, seq<Item<AltAlarm>>, seq<Item<AltAlarm>>)
      requires !w.Done()
    {
      if w.Walker? then (w.pre, [w.rest[0]], w.rest[1..]) else (w.list, [], [])
    }

    lemma Standing(alarm: AltAlarm, w: Walker<AltAlarm>)
      requires At(alarm, w) && !w.Done()
      ensures var (pre, self, after) := Parts(w);
        && Items() == pre + self + after && Is(alarm, self)
        && ItemOf(alarm) == if w.Walker? then w.rest[0] else w.it
    {
      hide Linked, Distinct;
      if w.Walker? {
        assert w.pre + [w.rest[0]] + w.rest[1..] == w.pre + w.rest;
        assert ItemsOf(nodes)[|w.pre|] == w.rest[0];
        assert nodes[|w.pre|] in alarms;
      } else {
        assert w.list + [] + [] == w.list;
      }
      hide ItemsOf;
    }

    // One pass of the loop of alt_tick, with the link to the next alarm read before the callback runs.
    method Pass(alarm: AltAlarm, left0: seq<Effect<AltAlarm>>, fired0: seq<AltAlarm>, ghost w: Walker<AltAlarm>)
      returns (next: AltAlarm, left: seq<Effect<AltAlarm>>, fired: seq<AltAlarm>)
      requires At(alarm, w) && !w.Done() && tickRate != 0 && w.left == left0 && w.fired == fired0
      requires Callable(alarms, w, nticks)
      modifies this`nodes, head`next, head`previous, alarms
      ensures var u := AlarmSpec.Pass(w, nticks); At(next, u) && u.left == left && u.fired == fired
    {
      CallableStep(alarms, w, nticks);
      Standing(alarm, w);
      PassReports(w, nticks);
      ghost var pre, self, after := Parts(w).0, Parts(w).1, Parts(w).2;
      assert w.Walker? ==> w.pre + [w.rest[0]] + w.rest[1..] == pre + self + after;
      hide Linked, Distinct, ItemsOf, Callable, Valid, Without, Started, Rearmed, Seen, Fresh, Names, AlarmSpec.Pass, Starts;
      next := NextAlarm(alarm, w);
      var fires := Visit(alarm, left0, pre, self, after);
      if fires {
        left, fired := Rest(left0), fired0 + [alarm];
      } else {
        left, fired := left0, fired0;
      }
      if w.Walker? { Lands(next, w); } else { NoneBehind(w.list, First(left0), nticks); Stays(alarm, w); }
    }

    lemma Begins(alarm: AltAlarm, effects: seq<Effect<AltAlarm>>)
      requires Valid() && alarm == (if nodes == [] then head else nodes[0]) && (nodes != [] ==> alarm != head)
      ensures At(alarm, TickFrom(Items(), effects))
    {
      assert nodes != [] ==> Items()[0].alarm == nodes[0];
      assert [] + Items() == Items();
    }

    lemma Standings(at: AltAlarm, w: Walker<AltAlarm>)
      requires At(at, w)
      ensures Valid() && (w.Done() <==> at == head)
      ensures w.Done() ==> Items() == w.pre
      ensures w.Stuck? ==> at in alarms && at !in nodes && at == w.it.alarm
    {
    }

    lemma Reached(w0: Walker<AltAlarm>, n: nat, at: AltAlarm, left: seq<Effect<AltAlarm>>, fired: seq<AltAlarm>)
      requires OnPass(w0, n, at, left, fired)
      ensures var w := Passes(w0, nticks, n);
        && Valid() && w.fired == fired && (w.Done() <==> at == head) && (w.Done() ==> Items() == w.pre)
        && (w.Stuck? ==> at in alarms && at !in nodes && at == w.it.alarm)
    {
      Standings(at, Passes(w0, nticks, n));
    }

    // The loop has made n passes of the walk from w0.
    ghost predicate OnPass(w0: Walker<AltAlarm>, n: nat, alarm: AltAlarm, left: seq<Effect<AltAlarm>>, fired: seq<AltAlarm>)
      reads this, head, alarms
    {
      var w := Passes(w0, nticks, n);
      At(alarm, w) && w.left == left && w.fired == fired && Callable(alarms, w, nticks)
    }

    lemma BeginsPass(alarm: AltAlarm, effects: seq<Effect<AltAlarm>>)
      requires Valid() && alarm == (if nodes == [] then head else nodes[0]) && (nodes != [] ==> alarm != head)
      requires Callable(alarms, TickFrom(Items(), effects), nticks)
      ensures OnPass(TickFrom(Items(), effects), 0, alarm, effects, [])
    {
      Begins(alarm, effects);
      hide Valid, At, Callable, Items;
    }

    // The loop of alt_tick, for so many passes or until it ends; at is where it stands.
    method Process(effects: seq<Effect<AltAlarm>>, passes: nat, ghost w0: Walker<AltAlarm>)
      returns (fired: seq<AltAlarm>, at: AltAlarm, n: nat, ghost left': seq<Effect<AltAlarm>>)
      requires Valid() && tickRate != 0 && w0 == TickFrom(Items(), effects) && Callable(alarms, w0, nticks)
      modifies this`nodes, head`next, head`previous, alarms
      ensures OnPass(w0, n, at, left', fired) && (at != head ==> n == passes)
    {
      hide *;
      var alarm := FirstAlarm();
      BeginsPass(alarm, effects);
      n := 0;
      fired := [];
      var left := effects;
      while alarm != head && n < passes
        invariant n <= passes && OnPass(w0, n, alarm, left, fired)
        decreases passes - n
      {
        alarm, left, fired := OnePass(alarm, left, fired, w0, n);
        n := n + 1;
      }
      at, left' := alarm, left;
    }

    method OnePass(alarm: AltAlarm, left0: seq<Effect<AltAlarm>>, fired0: seq<AltAlarm>, ghost w0: Walker<AltAlarm>,
                   ghost n: nat)
      returns (next: AltAlarm, left: seq<Effect<AltAlarm>>, fired: seq<AltAlarm>)
      requires OnPass(w0, n, alarm, left0, fired0) && alarm != head && tickRate != 0
      modifies this`nodes, head`next, head`previous, alarms
      ensures OnPass(w0, n + 1, next, left, fired)
    {
      hide Callable, At, Valid, AlarmSpec.Pass, Passes;
      ghost var w := Passes(w0, nticks, n);
      CallableStep(alarms, w, nticks);
      Standings(alarm, w);
      PassesSnoc(w0, nticks, n);
      next, left, fired := Pass(alarm, left0, fired0, w);
    }

    /** alt_tick, for so many passes of its loop or until it ends. If the walk gets done, the loop has ended, given passes
        enough, with the list and the calls of the tick of AlarmSpec; if the walk gets stuck, it has not ended, however
        many, and is left on an alarm that is off the list. */
    method Tick(effects: seq<Effect<AltAlarm>>, passes: nat)
      returns (fired: seq<AltAlarm>, at: AltAlarm, ghost enough: nat)
      requires Valid() && tickRate != 0
      requires Callable(alarms, TickFrom(Items(), effects), (nticks + 1) % WRAP)
      modifies this`nticks, this`nodes, head`next, head`previous, alarms
      ensures Valid() && nticks == (old(nticks) + 1) % WRAP
      ensures at == head ==>
        (Sched<AltAlarm>.Sched(nticks, Items()), fired)
        == Apply(old(Sched<AltAlarm>.Sched(nticks, Items())), Event.Tick(effects))
      ensures at != head && passes >= enough ==>
        var s := Apply(old(Sched<AltAlarm>.Sched(nticks, Items())), Event.Tick(effects)).0;
        s.Hung? && s.walker.Stuck? && at == s.walker.it.alarm && at in alarms && at !in nodes
    {
      hide *;
      ghost var s0 := Sched<AltAlarm>.Sched(nticks, Items());
      ghost var w0 := TickFrom(s0.list, effects);
      Advance();
      ApplyTick(s0, effects);
      enough := Settles(w0, nticks);
      var n;
      ghost var left;
      fired, at, n, left := Process(effects, passes, w0);
      Reached(w0, n, at, left, fired);
    }

    // The tick counter moves on.
    method Advance()
      requires Valid()
      modifies this`nticks
      ensures Valid() && nticks == (old(nticks) + 1) % WRAP && Items() == old(Items())
    {
      nticks := (nticks + 1) % WRAP;
    }

    method FirstAlarm() returns (next: AltAlarm)
      requires Valid()
      ensures next == if nodes == [] then head else nodes[0]
      ensures nodes != [] ==> next != head
    {
      assert Circle(head, nodes)[0].next == Circle(head, nodes)[1];
      next := head.next;
    }
  }

  // The items of a list are determined by its alarms and their fields.
  lemma SameItems(nodes: seq<AltAlarm>, items: seq<Item<AltAlarm>>)
    requires |items| == |nodes|
    requires forall i :: 0 <= i < |nodes| ==> items[i] == Item(nodes[i], nodes[i].time, nodes[i].rollover)
    ensures ItemsOf(nodes) == items
  {
  }

  lemma {:induction false} ItemsMinus(nodes: seq<AltAlarm>, a: AltAlarm)
    ensures ItemsOf(Minus(nodes, a)) == Without(ItemsOf(nodes), [a])
  {
    if nodes != [] {
      ItemsMinus(nodes[1..], a);
      assert ItemsOf(nodes)[1..] == ItemsOf(nodes[1..]);
      assert ItemsOf([nodes[0]] + Minus(nodes[1..], a))
          == [Item(nodes[0], nodes[0].time, nodes[0].rollover)] + ItemsOf(Minus(nodes[1..], a));
    }
  }

  // What a callback starts is on no list once its stops are done.
  lemma NotListed(nodes: seq<AltAlarm>, pre: seq<Item<AltAlarm>>, self: seq<Item<AltAlarm>>,
                  after: seq<Item<AltAlarm>>, a: AltAlarm)
    requires ItemsOf(nodes) == pre + self + after && |self| <= 1
    requires !IsListed(pre + after, a) && (self != [] ==> a != self[0].alarm)
    ensures a !in nodes
  {
    forall k | 0 <= k < |nodes| ensures nodes[k] != a {
      assert ItemsOf(nodes)[k].alarm == nodes[k];
      if k < |pre| {
        assert (pre + after)[k].alarm == nodes[k];
      } else if k >= |pre| + |self| {
        assert (pre + after)[k - |self|].alarm == nodes[k];
      }
    }
  }

  lemma Regroup<T>(x: seq<T>, a: T, y: seq<T>)
    ensures x + ([a] + y) == (x + [a]) + y && x + ([] + y) == x + y
  {
    assert x + ([a] + y) == (x + [a]) + y;
    assert [] + y == y;
  }

  lemma CutIndex<T>(s: seq<T>, k: nat, i: nat)
    requires k < |s| && i < |s| - 1
    ensures (s[..k] + s[k + 1..])[i] == if i < k then s[i] else s[i + 1]
  {
  }

  lemma ItemsCut(nodes: seq<AltAlarm>, k: nat)
    requires k < |nodes|
    ensures ItemsOf(nodes[..k] + nodes[k + 1..]) == ItemsOf(nodes)[..k] + ItemsOf(nodes)[k + 1..]
  {
    hide ItemsOf;
    var items, cut := ItemsOf(nodes), nodes[..k] + nodes[k + 1..];
    var want := items[..k] + items[k + 1..];
    forall i | 0 <= i < |cut| ensures want[i] == Item(cut[i], cut[i].time, cut[i].rollover) {
      CutIndex(nodes, k, i);
      CutIndex(items, k, i);
    }
    SameItems(cut, want);
  }

  lemma StartIsStarted(starts: seq<Start<AltAlarm>>, k: nat)
    requires k < |starts|
    ensures Starts(starts, starts[k].alarm)
  {
  }

  lemma OffList(nodes: seq<AltAlarm>, a: AltAlarm)
    requires !IsListed(ItemsOf(nodes), a)
    ensures a !in nodes
  {
    forall k | 0 <= k < |nodes| ensures nodes[k] != a { assert ItemsOf(nodes)[k].alarm == nodes[k]; }
  }

  lemma NoneBehind(list: seq<Item<AltAlarm>>, e: Effect<AltAlarm>, now: nat)
    ensures Started(Without(list, e.stops), e.starts, now) + [] + Without([], e.stops)
         == Started(Without(list, e.stops), e.starts, now)
    ensures list + [] + [] == list
  {
  }

  lemma NotStarted(starts: seq<Start<AltAlarm>>, a: AltAlarm)
    ensures (forall i :: 0 <= i < |starts| ==> starts[i].alarm != a) ==> !Starts(starts, a)
  {
  }

  // The alarm called, after its callback: as it is, if it is deactivated, or set again.
  ghost function Resumed(it: Item<AltAlarm>, e: Effect<AltAlarm>, now: nat): Item<AltAlarm> {
    if e.period == 0 then it else Rearmed(it, e.period, now)
  }

  // What is left of it on the list.
  ghost function Kept(self: seq<Item<AltAlarm>>, alarm: AltAlarm, e: Effect<AltAlarm>, now: nat): seq<Item<AltAlarm>> {
    if e.period == 0 || alarm in e.stops || self == [] then [] else [Rearmed(self[0], e.period, now)]
  }

  ghost function ItemOf(a: AltAlarm): Item<AltAlarm>
    reads a`time, a`rollover
  {
    Item(a, a.time, a.rollover)
  }

  lemma WithoutSelf(pre: seq<Item<AltAlarm>>, self: seq<Item<AltAlarm>>, after: seq<Item<AltAlarm>>, alarm: AltAlarm,
                    stops: seq<AltAlarm>)
    requires |self| <= 1 && (self != [] ==> self[0].alarm == alarm)
    ensures Without(pre + self + after, stops)
         == Without(pre, stops) + (if alarm in stops then [] else self) + Without(after, stops)
  {
    if self == [] {
      WithoutAppend(pre, after, stops);
      assert pre + self + after == pre + after;
      assert Without(pre, stops) + [] + Without(after, stops) == Without(pre, stops) + Without(after, stops);
    } else {
      assert self == [self[0]];
      WithoutSplit(pre, self[0], after, stops);
    }
  }

  lemma StartedNone(items: seq<Item<AltAlarm>>, now: nat)
    ensures Started(items, [], now) == items
  {
  }

  // Stopping an alarm removes just it.
  lemma StopOne(nodes: seq<AltAlarm>, a: AltAlarm, k: nat)
    requires Distinct(nodes) && k <= |nodes| && (if k < |nodes| then nodes[k] == a else a !in nodes)
    ensures Without(ItemsOf(nodes), [a])
         == if k < |nodes| then ItemsOf(nodes)[..k] + ItemsOf(nodes)[k + 1..] else ItemsOf(nodes)
  {
    hide Distinct, Without, ItemsOf, Minus;
    ItemsMinus(nodes, a);
    MinusAt(nodes, a, k);
    if k < |nodes| { ItemsCut(nodes, k); }
  }

  // The alarm k links further on.
  ghost function After(a: AltAlarm, k: nat): AltAlarm
    reads *
    decreases k
  {
    if k == 0 then a else After(a.next, k - 1)
  }

  lemma {:induction false} ListedReachesHead(timer: Timer, i: nat)
    requires timer.Valid() && i < |timer.nodes|
    ensures After(timer.nodes[i], |timer.nodes| - i) == timer.head
    decreases |timer.nodes| - i
  {
    var c := Circle(timer.head, timer.nodes);
    assert c[i + 1].next == c[i + 2];
    if i + 1 < |timer.nodes| { ListedReachesHead(timer, i + 1); }
  }

  lemma ChainOf(head: AltAlarm, nodes: seq<AltAlarm>)
    requires Linked(head, nodes)
    ensures forall i, j :: 0 <= i < j < |nodes| && j == i + 1 ==> nodes[i].next == nodes[j]
  {
    var c := Circle(head, nodes);
    forall i, j | 0 <= i < j < |nodes| && j == i + 1 ensures nodes[i].next == nodes[j] { assert c[i + 1].next == c[j + 1]; }
  }

  // A list whose head links to one of its alarms, and that alarm to the first.
  lemma LoopsFrom(head: AltAlarm, nodes: seq<AltAlarm>, entry: AltAlarm)
    requires entry in nodes && head !in nodes && head.next == entry && entry.next == nodes[0]
    requires forall i, j :: 0 <= i < j < |nodes| && j == i + 1 && nodes[i] != entry ==> nodes[i].next == nodes[j]
    ensures forall k: nat :: After(head.next, k) != head
  {
    var k := IndexOf(nodes, entry);
    var loop := nodes[..k + 1];
    forall x | x in loop ensures x.next in loop {
      var i :| 0 <= i <= k && nodes[i] == x;
      if x == entry { assert loop[0] == nodes[0]; } else { assert nodes[i + 1] == loop[i + 1]; }
    }
    assert loop[k] == entry;
    forall j: nat ensures After(head.next, j) != head { StaysIn(loop, entry, j); }
  }

  // Links that stay in a set of alarms never leave it.
  lemma {:induction false} StaysIn(loop: seq<AltAlarm>, a: AltAlarm, k: nat)
    requires a in loop && forall x :: x in loop ==> x.next in loop
    ensures After(a, k) in loop
    decreases k
  {
    if k > 0 { StaysIn(loop, a.next, k - 1); }
  }

  lemma {:induction false} UnlistedIsTrapped(timer: Timer, a: AltAlarm, k: nat)
    requires timer.Valid() && a in timer.alarms && a !in timer.nodes
    ensures After(a, k) == a
    decreases k
  {
    if k > 0 { UnlistedIsTrapped(timer, a, k - 1); }
  }

  /** Why a callback must leave the next alarm alone: a walk that goes on from an alarm whose link it saved reaches the
      head again exactly when that alarm is still on the list. */
  lemma WalkReturnsIff(timer: Timer, saved: AltAlarm)
    requires timer.Valid() && saved in timer.alarms
    ensures (exists k: nat :: After(saved, k) == timer.head) <==> saved in timer.nodes
  {
    hide Linked, Distinct;
    if saved in timer.nodes {
      var i :| 0 <= i < |timer.nodes| && timer.nodes[i] == saved;
      ListedReachesHead(timer, i);
    } else {
      forall k: nat ensures After(saved, k) != timer.head { UnlistedIsTrapped(timer, saved, k); }
    }
  }
}
