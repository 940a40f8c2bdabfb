/** Alarm scheduling twice over: as the HAL keeps it, with a 32-bit tick counter and a rollover bit per alarm, and as it
    is meant, with an unbounded clock and a deadline per alarm. The first refines the second. */
module AlarmSpec {

  import opened Words

  // What one callback does: alarms it stops, alarms it then starts, and the period it returns.
  datatype Start<A> = Start(alarm: A, nticks: nat)
  datatype Effect<A> = Effect(stops: seq<A>, starts: seq<Start<A>>, period: nat)

  // One firing: which alarm, at which tick since reset.
  datatype Firing<A> = Firing(alarm: A, tick: nat)

  // The callbacks of one tick are taken from a list in the order they run; one past its end does nothing.
  function First<A>(effects: seq<Effect<A>>): Effect<A> {
    if effects == [] then Effect([], [], 0) else effects[0]
  }

  function Rest<A>(effects: seq<Effect<A>>): seq<Effect<A>> {
    if effects == [] then [] else effects[1..]
  }

  // ---------------------------------------------------------------- as the HAL keeps it

  datatype Item<A> = Item(alarm: A, time: nat, rollover: bool)

  // alt_alarm_start at tick counter now.
  function Armed<A>(a: A, nticks: nat, now: nat): Item<A> {
    var time := (nticks + now + 1) % WRAP;
    Item(a, time, time < now)
  }

  // The rollover flag is cleared when the counter has wrapped to zero.
  function Seen<A>(it: Item<A>, now: nat): Item<A> {
    if it.rollover && now == 0 then it.(rollover := false) else it
  }

  predicate Expired<A>(it: Item<A>, now: nat) {
    it.time <= now && !it.rollover
  }

  function Rearmed<A>(it: Item<A>, period: nat, now: nat): Item<A> {
    var time := (it.time + period) % WRAP;
    it.(time := time, rollover := it.rollover || time < now)
  }

  function Without<A(==)>(items: seq<Item<A>>, stops: seq<A>): seq<Item<A>> {
    if items == [] then []
    else (if items[0].alarm in stops then [] else [items[0]]) + Without(items[1..], stops)
  }

  // Each start links the alarm in at the head of the list.
  function Started<A>(items: seq<Item<A>>, starts: seq<Start<A>>, now: nat): seq<Item<A>>
    decreases |starts|
  {
    if starts == [] then items
    else Started([Armed(starts[0].alarm, starts[0].nticks, now)] + items, starts[1..], now)
  }

  // Where alt_tick stands in its walk, what its callbacks have still to do and the calls it has made. It stands on the first
  // of rest, or on the head if there is none; or on an alarm that is off the list, which is linked to itself.
  datatype Walker<A> =
    | Walker(pre: seq<Item<A>>, rest: seq<Item<A>>, left: seq<Effect<A>>, fired: seq<A>)
    | Stuck(list: seq<Item<A>>, it: Item<A>, left: seq<Effect<A>>, fired: seq<A>)
  {
    predicate Done() { Walker? && rest == [] }
    predicate Settled() { Stuck? || rest == [] }
  }

  // Where an alarm is on the list, or the length of the list.
  function Position<A(==)>(items: seq<Item<A>>, a: A): (p: nat)
    ensures p <= |items| && (p < |items| ==> items[p].alarm == a)
    ensures forall i :: 0 <= i < p ==> items[i].alarm != a
  {
    if items == [] || items[0].alarm == a then 0 else 1 + Position(items[1..], a)
  }

  // What is behind the walk after a callback: what was, less what it stopped, after what it started; and the alarm itself,
  // set again unless it is to be deactivated or has stopped itself.
  function Behind<A(==)>(pre: seq<Item<A>>, it: Item<A>, e: Effect<A>, now: nat): seq<Item<A>> {
    Started(Without(pre, e.stops), e.starts, now)
    + if e.period == 0 || it.alarm in e.stops then [] else [Rearmed(it, e.period, now)]
  }

  // One pass of the loop of alt_tick. The next alarm is read before the callback is made, and the walk goes on from there,
  // wherever the callback has left it.
  function Pass<A(==)>(w: Walker<A>, now: nat): Walker<A> {
    var e := First(w.left);
    match w
    case Walker(pre, rest, left, fired) =>
      if rest == [] then w
      else
        var it := Seen(rest[0], now);
        if !Expired(it, now) then Walker(pre + [it], rest[1..], left, fired)
        else
          var before, after := Behind(pre, it, e, now), Without(rest[1..], e.stops);
          if |rest| == 1 || rest[1].alarm !in e.stops then Walker(before, after, Rest(left), fired + [it.alarm])
          else
            var list := before + after;
            var j := Position(list, rest[1].alarm);
            if j < |list| then Walker(list[..j], list[j..], Rest(left), fired + [it.alarm])
            else Stuck(list, rest[1], Rest(left), fired + [it.alarm])
    case Stuck(list, it0, left, fired) =>
      var it := Seen(it0, now);
      if !Expired(it, now) then Stuck(list, it, left, fired)
      else
        Stuck(Started(Without(list, e.stops), e.starts, now), if e.period == 0 then it else Rearmed(it, e.period, now),
              Rest(left), fired + [it.alarm])
  }

  function Passes<A(==)>(w: Walker<A>, now: nat, n: nat): Walker<A> {
    if n == 0 then w else Pass(Passes(w, now, n - 1), now)
  }

  lemma PassShrinks<A>(w: Walker<A>, now: nat)
    requires !w.Settled()
    ensures var u := Pass(w, now);
      |u.left| < |w.left| || (|u.left| == |w.left| && u.Walker? && |u.rest| < |w.rest|)
  {
    WithoutLength(w.rest[1..], First(w.left).stops);
  }

  // The walk up to where it is done, or stuck.
  function Walk<A(==)>(w: Walker<A>, now: nat): (r: Walker<A>)
    ensures r.Settled()
    decreases |w.left|, if w.Stuck? then 0 else |w.rest|
  {
    if w.Settled() then w else PassShrinks(w, now); Walk(Pass(w, now), now)
  }

  lemma PassesSnoc<A>(w: Walker<A>, now: nat, n: nat)
    ensures Passes(w, now, n + 1) == Pass(Passes(w, now, n), now)
  {
  }

  lemma {:induction false} PassesFirst<A>(w: Walker<A>, now: nat, n: nat)
    ensures Passes(Pass(w, now), now, n) == Passes(w, now, n + 1)
  {
    hide Pass;
    if n > 0 { PassesFirst(w, now, n - 1); }
  }

  lemma {:induction false} PassesReachWalk<A>(w: Walker<A>, now: nat) returns (n: nat)
    ensures Passes(w, now, n) == Walk(w, now)
    decreases |w.left|, if w.Stuck? then 0 else |w.rest|
  {
    n := 0;
    if !w.Settled() {
      hide Pass;
      PassShrinks(w, now);
      n := PassesReachWalk(Pass(w, now), now);
      PassesFirst(w, now, n);
      n := n + 1;
    }
  }

  // What a pass reports: a call, if the alarm it stands on is expired.
  lemma PassReports<A>(w: Walker<A>, now: nat)
    requires !w.Done()
    ensures var it := Seen(if w.Walker? then w.rest[0] else w.it, now); var u := Pass(w, now);
      && u.left == (if Expired(it, now) then Rest(w.left) else w.left)
      && u.fired == if Expired(it, now) then w.fired + [it.alarm] else w.fired
  {
  }

  lemma WithoutHead<A>(items: seq<Item<A>>, stops: seq<A>)
    requires items != [] && items[0].alarm !in stops
    ensures Without(items, stops) != [] && Without(items, stops)[0] == items[0]
  {
  }

  lemma PassStays<A>(w: Walker<A>, now: nat)
    ensures w.Done() ==> Pass(w, now) == w
    ensures w.Stuck? ==> Pass(w, now).Stuck?
  {
  }

  // A walk that is done, or stuck, stays so.
  lemma {:induction false} PassesStay<A>(w: Walker<A>, now: nat, m: nat, n: nat)
    requires m <= n
    ensures Passes(w, now, m).Done() ==> Passes(w, now, n) == Passes(w, now, m)
    ensures Passes(w, now, m).Stuck? ==> Passes(w, now, n).Stuck?
    decreases n
  {
    hide Pass;
    if m < n {
      PassesStay(w, now, m, n - 1);
      PassStays(Passes(w, now, n - 1), now);
    }
  }

  lemma StuckPass<A>(w: Walker<A>, now: nat)
    requires w.Stuck?
    ensures Pass(w, now).Stuck? && Pass(w, now).it.alarm == w.it.alarm
  {
  }

  lemma {:induction false} StuckStays<A>(w: Walker<A>, now: nat, n: nat)
    requires w.Stuck?
    ensures Passes(w, now, n).Stuck? && Passes(w, now, n).it.alarm == w.it.alarm
  {
    hide Pass;
    if n > 0 {
      StuckStays(w, now, n - 1);
      StuckPass(Passes(w, now, n - 1), now);
    }
  }

  // From some number of passes on, the loop is where the walk has got.
  lemma Settles<A>(w: Walker<A>, now: nat) returns (enough: nat)
    ensures forall n: nat :: Passes(w, now, n).Done() ==> Passes(w, now, n) == Walk(w, now)
    ensures forall n: nat :: n >= enough ==>
      if Walk(w, now).Done() then Passes(w, now, n) == Walk(w, now)
      else
        && Walk(w, now).Stuck? && Passes(w, now, n).Stuck?
        && Passes(w, now, n).it.alarm == Walk(w, now).it.alarm
  {
    enough := PassesReachWalk(w, now);
    hide Pass, Walk;
    forall n: nat ensures Passes(w, now, n).Done() ==> Passes(w, now, n) == Walk(w, now) {
      if enough <= n { PassesStay(w, now, enough, n); } else { PassesStay(w, now, n, enough); }
    }
    forall n: nat | n >= enough
      ensures if Walk(w, now).Done() then Passes(w, now, n) == Walk(w, now)
              else Passes(w, now, n).Stuck? && Passes(w, now, n).it.alarm == Walk(w, now).it.alarm
    {
      PassesStay(w, now, enough, n);
      if Walk(w, now).Stuck? {
        PassesAdd(w, now, enough, n - enough);
        StuckStays(Walk(w, now), now, n - enough);
      }
    }
  }

  lemma {:induction false} PassesAdd<A>(w: Walker<A>, now: nat, m: nat, n: nat)
    ensures Passes(w, now, m + n) == Passes(Passes(w, now, m), now, n)
    decreases n
  {
    hide Pass;
    if n > 0 { PassesAdd(w, now, m, n - 1); }
  }

  ghost predicate Ends<A>(w: Walker<A>, now: nat) {
    exists n: nat :: Passes(w, now, n).Done()
  }

  /** The loop of alt_tick ends if and only if its walk does not get stuck, and then with what the walk has done. */
  lemma LoopEndsIff<A>(w: Walker<A>, now: nat)
    ensures Ends(w, now) <==> Walk(w, now).Done()
    ensures forall n: nat :: Passes(w, now, n).Done() ==> Passes(w, now, n) == Walk(w, now)
  {
    var k := PassesReachWalk(w, now);
    hide Pass, Walk;
    forall n: nat ensures Passes(w, now, n).Done() ==> Passes(w, now, n) == Walk(w, now) {
      if k <= n { PassesStay(w, now, k, n); } else { PassesStay(w, now, n, k); }
    }
  }

  // Replacing or deleting the element in the middle.
  lemma Splice<T>(pre: seq<T>, x: T, after: seq<T>, y: T)
    ensures (pre + [x] + after)[|pre| := y] == pre + [y] + after
    ensures (pre + [x] + after)[..|pre|] + (pre + [x] + after)[|pre| + 1..] == pre + after
    ensures (pre + [x] + after)[|pre|] == x
  {
  }

  // The alarms a callback starts are not waiting by then, and not the one being called.
  ghost predicate Fresh<A>(others: seq<Item<A>>, self: A, e: Effect<A>) {
    && (forall i :: 0 <= i < |e.starts| ==> e.starts[i].alarm != self && !IsListed(others, e.starts[i].alarm))
    && (forall i, j :: 0 <= i < j < |e.starts| ==> e.starts[i].alarm != e.starts[j].alarm)
  }

  ghost predicate FreshPass<A>(w: Walker<A>, now: nat) {
    var e := First(w.left);
    match w
    case Walker(pre, rest, _, _) =>
      rest != [] && Expired(Seen(rest[0], now), now) ==>
        Fresh(Without(pre, e.stops) + Without(rest[1..], e.stops), rest[0].alarm, e)
    case Stuck(list, it, _, _) =>
      Expired(Seen(it, now), now) ==> Fresh(Without(list, e.stops), it.alarm, e)
  }

  // A callback names alarms that exist.
  ghost predicate Names<A>(all: set<A>, e: Effect<A>) {
    && (forall i :: 0 <= i < |e.stops| ==> e.stops[i] in all)
    && (forall i :: 0 <= i < |e.starts| ==> e.starts[i].alarm in all)
  }

  ghost predicate FreshTick<A>(w: Walker<A>, now: nat) {
    forall n: nat :: FreshPass(Passes(w, now, n), now)
  }

  // What the callbacks of a tick may do.
  ghost predicate Callable<A>(all: set<A>, w: Walker<A>, now: nat) {
    && (forall i :: 0 <= i < |w.left| ==> Names(all, w.left[i]))
    && FreshTick(w, now)
  }

  // It may be said of the walk after any pass.
  lemma CallableStep<A>(all: set<A>, w: Walker<A>, now: nat)
    requires Callable(all, w, now)
    ensures FreshPass(w, now) && Names(all, First(w.left)) && Callable(all, Pass(w, now), now)
  {
    assert Passes(w, now, 0) == w;
    forall n: nat ensures FreshPass(Passes(Pass(w, now), now, n), now) {
      PassesFirst(w, now, n);
      assert FreshPass(Passes(w, now, n + 1), now);
    }
  }

  ghost predicate IsListed<A>(items: seq<Item<A>>, a: A) {
    exists i :: 0 <= i < |items| && items[i].alarm == a
  }

  lemma WithoutLength<A>(items: seq<Item<A>>, stops: seq<A>)
    ensures |Without(items, stops)| <= |items|
  {
  }

  lemma {:induction false} WithoutAppend<A>(x: seq<Item<A>>, y: seq<Item<A>>, stops: seq<A>)
    ensures Without(x + y, stops) == Without(x, stops) + Without(y, stops)
  {
    if x == [] {
      assert x + y == y;
    } else {
      var first := if x[0].alarm in stops then [] else [x[0]];
      WithoutAppend(x[1..], y, stops);
      assert (x + y)[0] == x[0] && (x + y)[1..] == x[1..] + y;
      assert first + (Without(x[1..], stops) + Without(y, stops)) == first + Without(x[1..], stops) + Without(y, stops);
    }
  }

  lemma WithoutSplit<A>(x: seq<Item<A>>, it: Item<A>, y: seq<Item<A>>, stops: seq<A>)
    ensures Without(x + [it] + y, stops)
         == Without(x, stops) + (if it.alarm in stops then [] else [it]) + Without(y, stops)
  {
    WithoutAppend(x + [it], y, stops);
    WithoutAppend(x, [it], stops);
    assert [it][1..] == [];
  }

  lemma {:induction false} WithoutSnoc<A>(x: seq<Item<A>>, stops: seq<A>, a: A)
    ensures Without(Without(x, stops), [a]) == Without(x, stops + [a])
  {
    if x != [] {
      WithoutSnoc(x[1..], stops, a);
      var head := if x[0].alarm in stops then [] else [x[0]];
      WithoutAppend(head, Without(x[1..], stops), [a]);
    }
  }

  lemma {:induction false} WithoutAbsent<A>(x: seq<Item<A>>, stops: seq<A>)
    requires forall i :: 0 <= i < |stops| ==> !IsListed(x, stops[i])
    ensures Without(x, stops) == x
  {
    if x != [] {
      forall k | 0 <= k < |stops| ensures !IsListed(x[1..], stops[k]) { ListedLater(x, stops[k]); }
      WithoutAbsent(x[1..], stops);
      ListedFirst(x);
      hide IsListed;
      assert x == [x[0]] + x[1..];
    }
  }

  lemma ListedLater<A>(x: seq<Item<A>>, a: A)
    requires x != [] && !IsListed(x, a)
    ensures !IsListed(x[1..], a)
  {
    assert forall i :: 0 <= i < |x[1..]| ==> x[1..][i] == x[i + 1];
  }

  lemma ListedFirst<A>(x: seq<Item<A>>)
    requires x != []
    ensures IsListed(x, x[0].alarm)
  {
  }

  lemma {:induction false} StartedAppend<A>(x: seq<Item<A>>, y: seq<Item<A>>, starts: seq<Start<A>>, now: nat)
    ensures Started(x + y, starts, now) == Started(x, starts, now) + y
    decreases |starts|
  {
    if starts != [] {
      var it := Armed(starts[0].alarm, starts[0].nticks, now);
      assert [it] + (x + y) == ([it] + x) + y;
      StartedAppend([it] + x, y, starts[1..], now);
    }
  }

  lemma {:induction false} StartedSnoc<A>(x: seq<Item<A>>, starts: seq<Start<A>>, st: Start<A>, now: nat)
    ensures Started(x, starts + [st], now) == [Armed(st.alarm, st.nticks, now)] + Started(x, starts, now)
    decreases |starts|
  {
    if starts == [] {
      assert (starts + [st])[1..] == [];
      assert Started(x, [st], now) == Started([Armed(st.alarm, st.nticks, now)] + x, [st][1..], now);
    } else {
      assert (starts + [st])[1..] == starts[1..] + [st];
      StartedSnoc([Armed(starts[0].alarm, starts[0].nticks, now)] + x, starts[1..], st, now);
    }
  }

  // The 32-bit counter and the list; or a tick that never ends.
  datatype Sched<A> = Sched(nticks: nat, list: seq<Item<A>>) | Hung(nticks: nat, walker: Walker<A>)

  // ---------------------------------------------------------------- as it is meant

  datatype Alarm<A> = Alarm(alarm: A, deadline: nat)
  datatype Ideal<A> = Ideal(tick: nat, list: seq<Alarm<A>>)

  function IdealWithout<A(==)>(alarms: seq<Alarm<A>>, stops: seq<A>): seq<Alarm<A>> {
    if alarms == [] then []
    else (if alarms[0].alarm in stops then [] else [alarms[0]]) + IdealWithout(alarms[1..], stops)
  }

  function IdealStarted<A>(alarms: seq<Alarm<A>>, starts: seq<Start<A>>, tick: nat): seq<Alarm<A>>
    decreases |starts|
  {
    if starts == [] then alarms
    else IdealStarted([Alarm(starts[0].alarm, tick + starts[0].nticks + 1)] + alarms, starts[1..], tick)
  }

  // An alarm fires when the clock reads its deadline, and is set again for that tick plus the period returned.
  function IdealWalk<A(==)>(pre: seq<Alarm<A>>, rest: seq<Alarm<A>>, tick: nat, effects: seq<Effect<A>>)
    : (seq<Alarm<A>>, seq<A>)
    decreases |rest|
  {
    if rest == [] then (pre, [])
    else if rest[0].deadline == tick then
      var e := First(effects);
      IdealWithoutLength(rest[1..], e.stops);
      var kept := if e.period == 0 || rest[0].alarm in e.stops then [] else [rest[0].(deadline := tick + e.period)];
      var (list, fired) :=
        IdealWalk(IdealStarted(IdealWithout(pre, e.stops), e.starts, tick) + kept, IdealWithout(rest[1..], e.stops),
                  tick, Rest(effects));
      (list, [rest[0].alarm] + fired)
    else IdealWalk(pre + [rest[0]], rest[1..], tick, effects)
  }

  lemma IdealWithoutLength<A>(alarms: seq<Alarm<A>>, stops: seq<A>)
    ensures |IdealWithout(alarms, stops)| <= |alarms|
  {
  }

  // ---------------------------------------------------------------- events and runs

  // Foreground calls, between ticks, and the tick itself with what its callbacks do.
  datatype Event<A> =
    | Add(start: Start<A>)
    | Stop(alarm: A)
    | Tick(effects: seq<Effect<A>>)

  function TickFrom<A>(list: seq<Item<A>>, effects: seq<Effect<A>>): Walker<A> { Walker([], list, effects, []) }

  function Apply<A(==)>(s: Sched<A>, e: Event<A>): (Sched<A>, seq<A>) {
    if s.Hung? then (s, [])
    else
      match e
      case Add(st) => (s.(list := [Armed(st.alarm, st.nticks, s.nticks)] + s.list), [])
      case Stop(a) => (s.(list := Without(s.list, [a])), [])
      case Tick(effects) =>
        var now := (s.nticks + 1) % WRAP;
        var w := Walk(TickFrom(s.list, effects), now);
        (if w.Stuck? then Hung(now, w) else Sched(now, w.pre), w.fired)
  }

  lemma ApplyTick<A>(s: Sched<A>, effects: seq<Effect<A>>)
    requires s.Sched?
    ensures var now := (s.nticks + 1) % WRAP; var w := Walk(TickFrom(s.list, effects), now);
      Apply(s, Tick(effects)) == (if w.Stuck? then Hung(now, w) else Sched(now, w.pre), w.fired)
  {
  }

  function IdealApply<A(==)>(s: Ideal<A>, e: Event<A>): (Ideal<A>, seq<A>) {
    match e
    case Add(st) => (s.(list := [Alarm(st.alarm, s.tick + st.nticks + 1)] + s.list), [])
    case Stop(a) => (s.(list := IdealWithout(s.list, [a])), [])
    case Tick(effects) =>
      var (list, fired) := IdealWalk([], s.list, s.tick + 1, effects);
      (Ideal(s.tick + 1, list), fired)
  }

  function Stamped<A>(fired: seq<A>, tick: nat): seq<Firing<A>> {
    seq(|fired|, i requires 0 <= i < |fired| => Firing(fired[i], tick))
  }

  // The whole run: the final state and every firing with the number of ticks before it.
  function Run<A(==)>(events: seq<Event<A>>): (Sched<A>, nat, seq<Firing<A>>) {
    if events == [] then (Sched(0, []), 0, [])
    else
      var (s, ticks, log) := Run(events[..|events| - 1]);
      var e := events[|events| - 1];
      var (s', fired) := Apply(s, e);
      var ticks' := if e.Tick? && s.Sched? then ticks + 1 else ticks;
      (s', ticks', log + Stamped(fired, ticks'))
  }

  function IdealRun<A(==)>(events: seq<Event<A>>): (Ideal<A>, seq<Firing<A>>) {
    if events == [] then (Ideal(0, []), [])
    else
      var (s, log) := IdealRun(events[..|events| - 1]);
      var (s', fired) := IdealApply(s, events[|events| - 1]);
      (s', log + Stamped(fired, s'.tick))
  }

  // ---------------------------------------------------------------- the refinement

  // Delays of up to 2^32 - 2 ticks and periods of up to 2^32 - 1.
  ghost predicate LegalStart<A>(st: Start<A>) {
    st.nticks <= WRAP - 2
  }

  ghost predicate LegalEffect<A>(e: Effect<A>) {
    e.period < WRAP && forall i :: 0 <= i < |e.starts| ==> LegalStart(e.starts[i])
  }

  ghost predicate LegalEffects<A>(effects: seq<Effect<A>>) {
    forall i :: 0 <= i < |effects| ==> LegalEffect(effects[i])
  }

  // What the caller keeps to: delays and periods that fit, and no alarm started that is waiting or being called.
  ghost predicate LegalEvent<A>(s: Sched<A>, e: Event<A>) {
    s.Sched? ==>
      match e
      case Add(st) => LegalStart(st) && !IsListed(s.list, st.alarm)
      case Stop(_) => true
      case Tick(effects) =>
        LegalEffects(effects) && FreshTick(TickFrom(s.list, effects), (s.nticks + 1) % WRAP)
  }

  ghost predicate LegalRun<A>(events: seq<Event<A>>) {
    events == [] ||
    (LegalRun(events[..|events| - 1]) && LegalEvent(Run(events[..|events| - 1]).0, events[|events| - 1]))
  }

  // The stored time is the deadline in the counter's width, and the flag says that the deadline lies in the epoch
  // after the one that began with tick base.
  ghost predicate Stands<A>(it: Item<A>, al: Alarm<A>, tick: nat, base: nat) {
    && it.alarm == al.alarm && it.time == al.deadline % WRAP
    && base <= tick <= base + 1
    && tick <= al.deadline < base + WRAP
    && (it.rollover <==> al.deadline / WRAP > base / WRAP)
  }

  // Between ticks, and behind the walk: the deadline is still to come.
  ghost predicate Set<A>(it: Item<A>, al: Alarm<A>, tick: nat) {
    Stands(it, al, tick, tick) && tick < al.deadline
  }

  // Ahead of the walk of this tick: as it was set at the tick before.
  ghost predicate Pending<A>(it: Item<A>, al: Alarm<A>, tick: nat) {
    0 < tick && Stands(it, al, tick, tick - 1)
  }

  ghost predicate AllSet<A>(items: seq<Item<A>>, alarms: seq<Alarm<A>>, tick: nat) {
    |items| == |alarms| && forall i :: 0 <= i < |items| ==> Set(items[i], alarms[i], tick)
  }

  ghost predicate AllPending<A>(items: seq<Item<A>>, alarms: seq<Alarm<A>>, tick: nat) {
    |items| == |alarms| && forall i :: 0 <= i < |items| ==> Pending(items[i], alarms[i], tick)
  }

  lemma DivMod(x: nat)
    ensures x == (x / WRAP) * WRAP + x % WRAP && 0 <= x % WRAP < WRAP
  {
  }

  // A sum of less than one epoch either stays in the epoch or moves to the next, and the wrapped value tells which.
  lemma Epoch(tick: nat, d: nat)
    requires 1 <= d < WRAP
    ensures (tick + d) % WRAP == (tick % WRAP + d) % WRAP
    ensures (tick + d) % WRAP < tick % WRAP <==> (tick + d) / WRAP > tick / WRAP
    ensures tick / WRAP <= (tick + d) / WRAP <= tick / WRAP + 1
  {
  }

  lemma ArmedIsSet<A>(a: A, nticks: nat, tick: nat)
    requires nticks <= WRAP - 2
    ensures Set(Armed(a, nticks, tick % WRAP), Alarm(a, tick + nticks + 1), tick)
  {
    Epoch(tick, nticks + 1);
  }

  // The test of alt_tick is exact: an alarm is expired precisely when its deadline is now.
  lemma ExpiredIsDue<A>(it: Item<A>, al: Alarm<A>, tick: nat)
    requires Pending(it, al, tick)
    ensures Expired(Seen(it, tick % WRAP), tick % WRAP) <==> al.deadline == tick
    ensures al.deadline != tick ==> Set(Seen(it, tick % WRAP), al, tick)
    ensures al.deadline == tick ==> Seen(it, tick % WRAP) == Item(al.alarm, tick % WRAP, false)
  {
    DivMod(tick); DivMod(tick - 1); DivMod(al.deadline);
  }

  lemma RearmedIsSet<A>(a: A, period: nat, tick: nat)
    requires 1 <= period < WRAP
    ensures Set(Rearmed(Item(a, tick % WRAP, false), period, tick % WRAP), Alarm(a, tick + period), tick)
  {
    Epoch(tick, period);
  }

  // The two relations a sequence of items can stand in, by one flag, so that what holds of both is proved once.
  ghost predicate Related<A>(items: seq<Item<A>>, alarms: seq<Alarm<A>>, tick: nat, pending: bool) {
    if pending then AllPending(items, alarms, tick) else AllSet(items, alarms, tick)
  }

  lemma {:induction false} WithoutRelated<A>(items: seq<Item<A>>, alarms: seq<Alarm<A>>, stops: seq<A>, tick: nat,
                                             pending: bool)
    requires Related(items, alarms, tick, pending)
    ensures Related(Without(items, stops), IdealWithout(alarms, stops), tick, pending)
  {
    if items != [] {
      assert items[0].alarm == alarms[0].alarm;
      WithoutRelated(items[1..], alarms[1..], stops, tick, pending);
    }
  }

  lemma {:induction false} StartedIsSet<A>(items: seq<Item<A>>, alarms: seq<Alarm<A>>, starts: seq<Start<A>>, tick: nat)
    requires AllSet(items, alarms, tick)
    requires forall i :: 0 <= i < |starts| ==> LegalStart(starts[i])
    ensures AllSet(Started(items, starts, tick % WRAP), IdealStarted(alarms, starts, tick), tick)
    decreases |starts|
  {
    if starts != [] {
      var st := starts[0];
      assert LegalStart(st);
      ArmedIsSet(st.alarm, st.nticks, tick);
      StartedIsSet([Armed(st.alarm, st.nticks, tick % WRAP)] + items,
                   [Alarm(st.alarm, tick + st.nticks + 1)] + alarms, starts[1..], tick);
    }
  }

  lemma AppendSet<A>(items: seq<Item<A>>, alarms: seq<Alarm<A>>, more: seq<Item<A>>, moreAlarms: seq<Alarm<A>>,
                     tick: nat)
    requires AllSet(items, alarms, tick) && AllSet(more, moreAlarms, tick)
    ensures AllSet(items + more, alarms + moreAlarms, tick)
  {
  }

  // One visit of the walk keeps the relation, whatever the callback does.
  lemma FiringKeepsSet<A>(pre: seq<Item<A>>, ipre: seq<Alarm<A>>, a: A, e: Effect<A>, tick: nat)
    requires AllSet(pre, ipre, tick) && LegalEffect(e)
    ensures var kept := if e.period == 0 || a in e.stops then []
                        else [Rearmed(Item(a, tick % WRAP, false), e.period, tick % WRAP)];
            var ikept := if e.period == 0 || a in e.stops then [] else [Alarm(a, tick + e.period)];
      AllSet(Started(Without(pre, e.stops), e.starts, tick % WRAP) + kept,
             IdealStarted(IdealWithout(ipre, e.stops), e.starts, tick) + ikept, tick)
  {
    hide Set, Without, IdealWithout, Started, IdealStarted, Rearmed;
    WithoutRelated(pre, ipre, e.stops, tick, false);
    StartedIsSet(Without(pre, e.stops), IdealWithout(ipre, e.stops), e.starts, tick);
    if e.period != 0 { RearmedIsSet(a, e.period, tick); }
    var kept := if e.period == 0 || a in e.stops then []
                else [Rearmed(Item(a, tick % WRAP, false), e.period, tick % WRAP)];
    var ikept := if e.period == 0 || a in e.stops then [] else [Alarm(a, tick + e.period)];
    AppendSet(Started(Without(pre, e.stops), e.starts, tick % WRAP),
              IdealStarted(IdealWithout(ipre, e.stops), e.starts, tick), kept, ikept, tick);
  }

  // Alarms that the walk passes over: what is set for later is neither expired nor changed.
  ghost predicate Quiet<A>(it: Item<A>, now: nat) { Seen(it, now) == it && !Expired(it, now) }

  lemma SetIsQuiet<A>(it: Item<A>, al: Alarm<A>, tick: nat)
    requires Set(it, al, tick)
    ensures Quiet(it, tick % WRAP)
  {
    DivMod(tick); DivMod(al.deadline);
  }

  lemma {:induction false} QuietWalk<A>(pre: seq<Item<A>>, mid: seq<Item<A>>, rest: seq<Item<A>>, left: seq<Effect<A>>,
                                        fired: seq<A>, now: nat)
    requires forall i :: 0 <= i < |mid| ==> Quiet(mid[i], now)
    ensures Walk(Walker(pre, mid + rest, left, fired), now) == Walk(Walker(pre + mid, rest, left, fired), now)
    decreases |mid|
  {
    if mid == [] {
      assert mid + rest == rest && pre + mid == pre;
    } else {
      var all := mid + rest;
      assert Quiet(mid[0], now) && all[0] == mid[0] && all[1..] == mid[1..] + rest;
      QuietWalk(pre + [mid[0]], mid[1..], rest, left, fired, now);
      assert pre + [mid[0]] + mid[1..] == pre + mid;
    }
  }

  lemma {:induction false} StartedLists<A>(items: seq<Item<A>>, starts: seq<Start<A>>, now: nat, a: A)
    ensures IsListed(Started(items, starts, now), a) <==> IsListed(items, a) || Starts(starts, a)
    decreases |starts|
  {
    if starts != [] {
      var first := Armed(starts[0].alarm, starts[0].nticks, now);
      StartedLists([first] + items, starts[1..], now, a);
      ListedCons(first, items, a);
      assert starts == [starts[0]] + starts[1..];
      assert Starts(starts, a) <==> starts[0].alarm == a || Starts(starts[1..], a);
    }
  }

  predicate Starts<A(==)>(starts: seq<Start<A>>, a: A) {
    exists i :: 0 <= i < |starts| && starts[i].alarm == a
  }

  lemma ListedCons<A>(first: Item<A>, items: seq<Item<A>>, a: A)
    ensures IsListed([first] + items, a) <==> first.alarm == a || IsListed(items, a)
  {
    var all := [first] + items;
    if IsListed(items, a) {
      var i :| 0 <= i < |items| && items[i].alarm == a;
      assert all[i + 1].alarm == a;
    }
    if first.alarm == a { assert all[0].alarm == a; }
  }

  lemma ListedAppend<A>(x: seq<Item<A>>, y: seq<Item<A>>, a: A)
    ensures IsListed(x + y, a) <==> IsListed(x, a) || IsListed(y, a)
  {
    if IsListed(x, a) {
      var i :| 0 <= i < |x| && x[i].alarm == a;
      assert (x + y)[i].alarm == a;
    }
    if IsListed(y, a) {
      var i :| 0 <= i < |y| && y[i].alarm == a;
      assert (x + y)[|x| + i].alarm == a;
    }
  }

  lemma {:induction false} WithoutDrops<A>(items: seq<Item<A>>, stops: seq<A>, a: A)
    requires a in stops
    ensures !IsListed(Without(items, stops), a)
  {
    if items != [] {
      WithoutDrops(items[1..], stops, a);
      if items[0].alarm !in stops { ListedCons(items[0], Without(items[1..], stops), a); }
    }
  }

  // A stopped alarm is on the list after a callback exactly if the callback has started it again.
  lemma StoppedIsListed<A>(pre: seq<Item<A>>, it: Item<A>, after: seq<Item<A>>, e: Effect<A>, now: nat, a: A)
    requires a in e.stops
    ensures IsListed(Behind(pre, it, e, now) + Without(after, e.stops), a) <==> Starts(e.starts, a)
    ensures IsListed(Behind(pre, it, e, now), a) <==> Starts(e.starts, a)
  {
    hide Starts, IsListed, Started, Without, Rearmed;
    WithoutDrops(pre, e.stops, a);
    WithoutDrops(after, e.stops, a);
    StartedLists(Without(pre, e.stops), e.starts, now, a);
    var kept := if e.period == 0 || it.alarm in e.stops then [] else [Rearmed(it, e.period, now)];
    RearmedAlarm(it, e.period, now);
    KeptIsNot(kept, a);
    ListedAppend(Started(Without(pre, e.stops), e.starts, now), kept, a);
    ListedAppend(Behind(pre, it, e, now), Without(after, e.stops), a);
  }

  lemma RearmedAlarm<A>(it: Item<A>, period: nat, now: nat)
    ensures Rearmed(it, period, now).alarm == it.alarm
  {
  }

  lemma KeptIsNot<A>(kept: seq<Item<A>>, a: A)
    requires |kept| <= 1 && (kept != [] ==> kept[0].alarm != a)
    ensures !IsListed(kept, a)
  {
  }

  /** What keeps a tick from getting stuck: whenever a callback of it stops the alarm next on the list, it starts it again. */
  ghost predicate Spares<A>(rest: seq<Alarm<A>>, tick: nat, effects: seq<Effect<A>>)
    decreases |rest|
  {
    rest == [] ||
    if rest[0].deadline == tick then
      var e := First(effects);
      IdealWithoutLength(rest[1..], e.stops);
      && (|rest| > 1 && rest[1].alarm in e.stops ==> Starts(e.starts, rest[1].alarm))
      && Spares(IdealWithout(rest[1..], e.stops), tick, Rest(effects))
    else Spares(rest[1..], tick, effects)
  }

  // The ideal walk, as far as the list ahead is concerned.
  function IdealBehind<A(==)>(ipre: seq<Alarm<A>>, a: A, e: Effect<A>, tick: nat): seq<Alarm<A>> {
    IdealStarted(IdealWithout(ipre, e.stops), e.starts, tick)
    + if e.period == 0 || a in e.stops then [] else [Alarm(a, tick + e.period)]
  }

  // A stuck walk has made some of the calls of the unbounded one, and stands on an alarm that was ahead and is off the list.
  ghost predicate StuckOn<A>(w: Walker<A>, irest: seq<Alarm<A>>, tick: nat) {
    w.Stuck? && !IsListed(w.list, w.it.alarm) && exists k :: 0 <= k < |irest| && Pending(w.it, irest[k], tick)
  }

  lemma PositionIn<A>(x: seq<Item<A>>, y: seq<Item<A>>, a: A)
    ensures IsListed(x, a) ==> Position(x + y, a) < |x|
    ensures !IsListed(x + y, a) <==> Position(x + y, a) == |x + y|
  {
    var p := Position(x + y, a);
    if IsListed(x, a) {
      var i :| 0 <= i < |x| && x[i].alarm == a;
      assert (x + y)[i].alarm == a;
    }
    if p < |x + y| { assert (x + y)[p].alarm == a; }
  }

  // The walk goes on from a place behind it, over alarms it passes over, to where it would have been.
  lemma WalkBack<A>(before: seq<Item<A>>, after: seq<Item<A>>, ibefore: seq<Alarm<A>>, tick: nat, j: nat,
                    left: seq<Effect<A>>, fired: seq<A>)
    requires AllSet(before, ibefore, tick) && j < |before|
    ensures Walk(Walker((before + after)[..j], (before + after)[j..], left, fired), tick % WRAP)
         == Walk(Walker(before, after, left, fired), tick % WRAP)
  {
    var mid := before[j..];
    forall i | 0 <= i < |mid| ensures Quiet(mid[i], tick % WRAP) {
      assert Set(before[j + i], ibefore[j + i], tick);
      SetIsQuiet(before[j + i], ibefore[j + i], tick);
    }
    hide Walk, Set, Quiet;
    QuietWalk(before[..j], mid, after, left, fired, tick % WRAP);
    assert (before + after)[..j] == before[..j] && (before + after)[j..] == mid + after;
    assert before[..j] + mid == before;
  }

  ghost predicate SparesNext<A>(irest: seq<Alarm<A>>, e: Effect<A>) {
    |irest| > 1 && irest[1].alarm in e.stops ==> Starts(e.starts, irest[1].alarm)
  }

  // The pass of an alarm that is due.
  lemma FiringPass<A>(w: Walker<A>, irest: seq<Alarm<A>>, tick: nat)
    requires w.Walker? && AllPending(w.rest, irest, tick) && irest != [] && irest[0].deadline == tick
    ensures var e, a, now := First(w.left), irest[0].alarm, tick % WRAP;
            var before, after := Behind(w.pre, Item(a, now, false), e, now), Without(w.rest[1..], e.stops);
            var list, fired := before + after, w.fired + [a];
      && |after| < |w.rest|
      && Walk(w, now) == Walk(Pass(w, now), now)
      && Pass(w, now) ==
           if |irest| == 1 || w.rest[1].alarm !in e.stops then Walker(before, after, Rest(w.left), fired)
           else
             var j := Position(list, w.rest[1].alarm);
             if j < |list| then Walker(list[..j], list[j..], Rest(w.left), fired)
             else Stuck(list, w.rest[1], Rest(w.left), fired)
  {
    assert Pending(w.rest[0], irest[0], tick);
    ExpiredIsDue(w.rest[0], irest[0], tick);
    WithoutLength(w.rest[1..], First(w.left).stops);
    hide Behind, Without, Position, Set, Stands;
  }

  // One callback: the walk goes on, or is stuck.
  lemma CallbackStep<A>(w: Walker<A>, ipre: seq<Alarm<A>>, irest: seq<Alarm<A>>, tick: nat)
    requires w.Walker? && AllSet(w.pre, ipre, tick) && AllPending(w.rest, irest, tick) && LegalEffects(w.left)
    requires irest != [] && irest[0].deadline == tick
    ensures var e, a, now := First(w.left), irest[0].alarm, tick % WRAP;
            var before, after := Behind(w.pre, Item(a, now, false), e, now), Without(w.rest[1..], e.stops);
      && AllSet(before, IdealBehind(ipre, a, e, tick), tick)
      && AllPending(after, IdealWithout(irest[1..], e.stops), tick)
      && |after| < |w.rest|
      && if SparesNext(irest, e) then
           Walk(w, now) == Walk(Walker(before, after, Rest(w.left), w.fired + [a]), now)
         else
           && Walk(w, now) == Stuck(before + after, w.rest[1], Rest(w.left), w.fired + [a])
           && !IsListed(before + after, w.rest[1].alarm) && w.rest[1].alarm == irest[1].alarm
  {
    hide Walk, Pass, Behind, Without, IdealWithout, IdealBehind, Position, Stands, Set, Starts, IsListed;
    var e, a, now := First(w.left), irest[0].alarm, tick % WRAP;
    var it := Item(a, now, false);
    var before, after := Behind(w.pre, it, e, now), Without(w.rest[1..], e.stops);
    FiringPass(w, irest, tick);
    BehindIsSet(w.pre, ipre, a, e, tick);
    AheadIsPending(w.rest, irest, e.stops, tick);
    if |irest| > 1 {
      var b := irest[1].alarm;
      assert w.rest[1].alarm == b by { AlarmsAgree(w.rest, irest, tick, 1); }
      if b in e.stops {
        StoppedIsListed(w.pre, it, w.rest[1..], e, now, b);
        PositionIn(before, after, b);
        if Starts(e.starts, b) {
          WalkBack(before, after, IdealBehind(ipre, a, e, tick), tick, Position(before + after, b), Rest(w.left),
                   w.fired + [a]);
        } else {
          WalkSettled(Pass(w, now), now);
        }
      }
    }
  }

  lemma WalkSettled<A>(w: Walker<A>, now: nat)
    requires w.Settled()
    ensures Walk(w, now) == w
  {
  }

  lemma BehindIsSet<A>(pre: seq<Item<A>>, ipre: seq<Alarm<A>>, a: A, e: Effect<A>, tick: nat)
    requires AllSet(pre, ipre, tick) && LegalEffect(e)
    ensures AllSet(Behind(pre, Item(a, tick % WRAP, false), e, tick % WRAP), IdealBehind(ipre, a, e, tick), tick)
  {
    FiringKeepsSet(pre, ipre, a, e, tick);
  }

  lemma AheadIsPending<A>(rest: seq<Item<A>>, irest: seq<Alarm<A>>, stops: seq<A>, tick: nat)
    requires AllPending(rest, irest, tick) && irest != []
    ensures AllPending(Without(rest[1..], stops), IdealWithout(irest[1..], stops), tick)
  {
    hide Without, IdealWithout, Pending;
    WithoutRelated(rest[1..], irest[1..], stops, tick, true);
  }

  lemma AlarmsAgree<A>(rest: seq<Item<A>>, irest: seq<Alarm<A>>, tick: nat, k: nat)
    requires AllPending(rest, irest, tick) && k < |irest|
    ensures rest[k].alarm == irest[k].alarm
  {
    assert Pending(rest[k], irest[k], tick);
  }

  // What the refinement says of a walk.
  ghost predicate WalksLike<A>(w: Walker<A>, ipre: seq<Alarm<A>>, irest: seq<Alarm<A>>, tick: nat) {
    var r := Walk(w, tick % WRAP);
    var (ilist, ifired) := IdealWalk(ipre, irest, tick, w.left);
    if Spares(irest, tick, w.left) then r.Done() && AllSet(r.pre, ilist, tick) && r.fired == w.fired + ifired
    else StuckOn(r, irest, tick) && w.fired <= r.fired <= w.fired + ifired
  }

  lemma PendingWithout<A>(alarms: seq<Alarm<A>>, stops: seq<A>, k: nat) returns (j: nat)
    requires k < |IdealWithout(alarms, stops)|
    ensures j < |alarms| && alarms[j] == IdealWithout(alarms, stops)[k]
  {
    var first := if alarms[0].alarm in stops then 0 else 1;
    if k < first { j := 0; } else {
      j := PendingWithout(alarms[1..], stops, k - first);
      j := j + 1;
    }
  }

  lemma StuckOnMore<A>(r: Walker<A>, iafter: seq<Alarm<A>>, irest: seq<Alarm<A>>, tick: nat)
    requires StuckOn(r, iafter, tick)
    requires forall k :: 0 <= k < |iafter| ==> exists j :: 0 <= j < |irest| && irest[j] == iafter[k]
    ensures StuckOn(r, irest, tick)
  {
  }

  // One step of the unbounded walk, and of its condition.
  lemma IdealStep<A>(ipre: seq<Alarm<A>>, irest: seq<Alarm<A>>, tick: nat, effects: seq<Effect<A>>)
    requires irest != [] && irest[0].deadline == tick
    ensures var e, a := First(effects), irest[0].alarm;
            var iafter := IdealWithout(irest[1..], e.stops);
            var (ilist, ifired) := IdealWalk(IdealBehind(ipre, a, e, tick), iafter, tick, Rest(effects));
      && IdealWalk(ipre, irest, tick, effects) == (ilist, [a] + ifired)
      && (Spares(irest, tick, effects) <==> SparesNext(irest, e) && Spares(iafter, tick, Rest(effects)))
      && forall k :: 0 <= k < |iafter| ==> exists j :: 0 <= j < |irest| && irest[j] == iafter[k]
  {
    var e := First(effects);
    assert irest[0] == Alarm(irest[0].alarm, tick);
    var iafter := IdealWithout(irest[1..], e.stops);
    forall k | 0 <= k < |iafter| ensures exists j :: 0 <= j < |irest| && irest[j] == iafter[k] {
      var j := PendingWithout(irest[1..], e.stops, k);
      assert irest[j + 1] == iafter[k];
    }
    hide IdealStarted, IdealWithout, Starts;
  }

  // After a callback.
  lemma FireWalks<A>(w: Walker<A>, ipre: seq<Alarm<A>>, irest: seq<Alarm<A>>, tick: nat)
    requires w.Walker? && AllSet(w.pre, ipre, tick) && AllPending(w.rest, irest, tick) && LegalEffects(w.left)
    requires irest != [] && irest[0].deadline == tick
    requires var e, a, now := First(w.left), irest[0].alarm, tick % WRAP;
      WalksLike(Walker(Behind(w.pre, Item(a, now, false), e, now), Without(w.rest[1..], e.stops), Rest(w.left), w.fired + [a]),
                IdealBehind(ipre, a, e, tick), IdealWithout(irest[1..], e.stops), tick)
    ensures WalksLike(w, ipre, irest, tick)
  {
    hide Walk, Behind, IdealBehind, Without, IdealWithout, IdealWalk, Spares, Set, Stands, Starts, IsListed, Pending, StuckOn,
      LegalEffect, SparesNext;
    var e, a, now := First(w.left), irest[0].alarm, tick % WRAP;
    CallbackStep(w, ipre, irest, tick);
    IdealStep(ipre, irest, tick, w.left);
    var iafter := IdealWithout(irest[1..], e.stops);
    var ifired := IdealWalk(IdealBehind(ipre, a, e, tick), iafter, tick, Rest(w.left)).1;
    assert w.fired + [a] + ifired == w.fired + ([a] + ifired);
    var r := Walk(w, now);
    if !SparesNext(irest, e) {
      StuckNow(w, irest, e, r, tick);
    } else if !Spares(irest, tick, w.left) {
      StuckOnMore(r, iafter, irest, tick);
    }
  }

  lemma StuckNow<A>(w: Walker<A>, irest: seq<Alarm<A>>, e: Effect<A>, r: Walker<A>, tick: nat)
    requires w.Walker? && AllPending(w.rest, irest, tick) && !SparesNext(irest, e)
    requires r.Stuck? && r.it == w.rest[1] && !IsListed(r.list, r.it.alarm)
    ensures StuckOn(r, irest, tick)
  {
    hide IsListed, Starts;
    assert Pending(w.rest[1], irest[1], tick);
  }

  // Past an alarm that is not due.
  lemma PassWalks<A>(w: Walker<A>, ipre: seq<Alarm<A>>, irest: seq<Alarm<A>>, tick: nat)
    requires w.Walker? && AllSet(w.pre, ipre, tick) && AllPending(w.rest, irest, tick)
    requires irest != [] && irest[0].deadline != tick
    requires WalksLike(Walker(w.pre + [Seen(w.rest[0], tick % WRAP)], w.rest[1..], w.left, w.fired),
                       ipre + [irest[0]], irest[1..], tick)
    ensures WalksLike(w, ipre, irest, tick)
  {
    assert Pending(w.rest[0], irest[0], tick);
    ExpiredIsDue(w.rest[0], irest[0], tick);
    forall k | 0 <= k < |irest[1..]| ensures exists j :: 0 <= j < |irest| && irest[j] == irest[1..][k] {
      assert irest[k + 1] == irest[1..][k];
    }
    var r := Walk(w, tick % WRAP);
    assert r == Walk(Walker(w.pre + [Seen(w.rest[0], tick % WRAP)], w.rest[1..], w.left, w.fired), tick % WRAP);
    hide Walk, IdealWalk, Set, Stands, IsListed, Seen;
    if StuckOn(r, irest[1..], tick) { StuckOnMore(r, irest[1..], irest, tick); }
  }

  /** The 32-bit walk and the unbounded walk: if every callback spares the alarm next on the list, the first is done with a
      corresponding list and has made the same calls in the same order; if one does not, it is stuck on an alarm that is
      off the list, having made the calls up to there. */
  lemma {:induction false} WalkRefines<A>(w: Walker<A>, ipre: seq<Alarm<A>>, irest: seq<Alarm<A>>, tick: nat)
    requires w.Walker? && AllSet(w.pre, ipre, tick) && AllPending(w.rest, irest, tick) && LegalEffects(w.left)
    ensures var r := Walk(w, tick % WRAP);
            var (ilist, ifired) := IdealWalk(ipre, irest, tick, w.left);
      if Spares(irest, tick, w.left) then r.Done() && AllSet(r.pre, ilist, tick) && r.fired == w.fired + ifired
      else StuckOn(r, irest, tick) && w.fired <= r.fired <= w.fired + ifired
    decreases |w.rest|
  {
    var now := tick % WRAP;
    if w.rest == [] {
      assert w.fired + [] == w.fired;
    } else if irest[0].deadline == tick {
      var e, a := First(w.left), irest[0].alarm;
      CallbackStep(w, ipre, irest, tick);
      hide Walk, Behind, IdealBehind, Without, IdealWithout, IdealWalk, Spares, Set, Pending, Starts, IsListed, StuckOn;
      WalkRefines(Walker(Behind(w.pre, Item(a, now, false), e, now), Without(w.rest[1..], e.stops), Rest(w.left), w.fired + [a]),
                  IdealBehind(ipre, a, e, tick), IdealWithout(irest[1..], e.stops), tick);
      FireWalks(w, ipre, irest, tick);
    } else {
      assert Pending(w.rest[0], irest[0], tick);
      ExpiredIsDue(w.rest[0], irest[0], tick);
      hide Walk, IdealWalk, Spares, Stands, IsListed, StuckOn, Seen;
      WalkRefines(Walker(w.pre + [Seen(w.rest[0], now)], w.rest[1..], w.left, w.fired), ipre + [irest[0]], irest[1..], tick);
      PassWalks(w, ipre, irest, tick);
    }
  }

  // A tick finds every alarm as the tick before left it.
  lemma SetIsPending<A>(items: seq<Item<A>>, alarms: seq<Alarm<A>>, tick: nat)
    requires AllSet(items, alarms, tick)
    ensures AllPending(items, alarms, tick + 1)
  {
    forall i | 0 <= i < |items| ensures Pending(items[i], alarms[i], tick + 1) {
      assert Set(items[i], alarms[i], tick);
    }
  }

  lemma StillPending<A>(it: Item<A>, al: Alarm<A>, tick: nat)
    requires Set(it, al, tick)
    ensures Pending(it, al, tick + 1)
  {
  }

  ghost predicate Refines<A>(s: Sched<A>, i: Ideal<A>) {
    s.Sched? && s.nticks == i.tick % WRAP && AllSet(s.list, i.list, i.tick)
  }

  // No callback of the event's tick leaves the walk on an alarm that is off the list.
  ghost predicate EventSpares<A>(i: Ideal<A>, e: Event<A>) {
    e.Tick? ==> Spares(i.list, i.tick + 1, e.effects)
  }

  lemma ApplyRefines<A>(s: Sched<A>, i: Ideal<A>, e: Event<A>)
    requires Refines(s, i) && LegalEvent(s, e)
    ensures if EventSpares(i, e) then
              Refines(Apply(s, e).0, IdealApply(i, e).0) && Apply(s, e).1 == IdealApply(i, e).1
            else
              && Apply(s, e).0.Hung? && StuckOn(Apply(s, e).0.walker, i.list, i.tick + 1)
              && Apply(s, e).1 <= IdealApply(i, e).1
  {
    match e
    case Add(st) => ArmedIsSet(st.alarm, st.nticks, i.tick);
    case Stop(a) => WithoutRelated(s.list, i.list, [a], i.tick, false);
    case Tick(effects) =>
      SetIsPending(s.list, i.list, i.tick);
      assert (s.nticks + 1) % WRAP == (i.tick + 1) % WRAP;
      hide Set, Stands, Walk, IdealWalk, Spares, StuckOn;
      WalkRefines(TickFrom(s.list, effects), [], i.list, i.tick + 1);
      var ifired := IdealWalk([], i.list, i.tick + 1, effects).1;
      assert [] + ifired == ifired;
  }

  // Every tick of the run spares the alarm next on its list.
  ghost predicate Spared<A>(events: seq<Event<A>>) {
    events == [] ||
    (Spared(events[..|events| - 1]) && EventSpares(IdealRun(events[..|events| - 1]).0, events[|events| - 1]))
  }

  /** Alarm exactness: over every run of ticks, starts and stops, across any number of wraps of the counter, every tick ends
      if and only if every callback spares the alarm next on the list; and then the HAL fires the same alarms at the same
      ticks as the scheduler with unbounded deadlines, where an alarm fires at its deadline and nowhere else. */
  lemma {:induction false} AlarmsAreExact<A>(events: seq<Event<A>>)
    requires LegalRun(events)
    ensures Run(events).0.Sched? <==> Spared(events)
    ensures Spared(events) ==>
      && Refines(Run(events).0, IdealRun(events).0)
      && Run(events).1 == IdealRun(events).0.tick && Run(events).2 == IdealRun(events).1
  {
    if events != [] {
      var front := events[..|events| - 1];
      AlarmsAreExact(front);
      if Spared(front) {
        hide LegalEvent, Spares, StuckOn, IdealApply, Stamped, Set;
        ApplyRefines(Run(front).0, IdealRun(front).0, events[|events| - 1]);
        IdealTicks(IdealRun(front).0, events[|events| - 1]);
        hide Apply;
      }
    }
  }

  lemma IdealTicks<A>(i: Ideal<A>, e: Event<A>)
    ensures IdealApply(i, e).0.tick == if e.Tick? then i.tick + 1 else i.tick
  {
  }

  // ---------------------------------------------------------------- who is visited

  // The alarms whose deadline is now, in list order.
  function Due<A>(alarms: seq<Alarm<A>>, tick: nat): seq<A> {
    if alarms == [] then []
    else (if alarms[0].deadline == tick then [alarms[0].alarm] else []) + Due(alarms[1..], tick)
  }

  // No callback of this tick stops an alarm the walk has still to reach.
  ghost predicate StopsBehind<A>(rest: seq<Alarm<A>>, tick: nat, effects: seq<Effect<A>>) {
    rest != [] ==>
      if rest[0].deadline == tick then
        && (forall k :: 1 <= k < |rest| ==> rest[k].alarm !in First(effects).stops)
        && StopsBehind(rest[1..], tick, Rest(effects))
      else StopsBehind(rest[1..], tick, effects)
  }

  lemma {:induction false} WithoutNone<A>(alarms: seq<Alarm<A>>, stops: seq<A>)
    requires forall k :: 0 <= k < |alarms| ==> alarms[k].alarm !in stops
    ensures IdealWithout(alarms, stops) == alarms
  {
    if alarms != [] { WithoutNone(alarms[1..], stops); }
  }

  /** Every alarm registered when the tick begins is visited exactly once, in order, although callbacks start new alarms,
      stop themselves and stop alarms behind the walk: what fires is what is due. */
  lemma {:induction false} FiredAreDue<A>(pre: seq<Alarm<A>>, rest: seq<Alarm<A>>, tick: nat, effects: seq<Effect<A>>)
    requires StopsBehind(rest, tick, effects)
    ensures IdealWalk(pre, rest, tick, effects).1 == Due(rest, tick)
    decreases |rest|
  {
    if rest != [] {
      if rest[0].deadline == tick {
        var e := First(effects);
        WithoutNone(rest[1..], e.stops);
        var kept := if e.period == 0 || rest[0].alarm in e.stops then [] else [rest[0].(deadline := tick + e.period)];
        FiredAreDue(IdealStarted(IdealWithout(pre, e.stops), e.starts, tick) + kept, rest[1..], tick, Rest(effects));
      } else {
        FiredAreDue(pre + [rest[0]], rest[1..], tick, effects);
      }
    }
  }

  // The alarms whose deadline is now and that no callback of this tick has stopped before their turn, in list order.
  function Called<A(==)>(alarms: seq<Alarm<A>>, tick: nat, stopped: seq<A>, effects: seq<Effect<A>>): seq<A> {
    if alarms == [] then []
    else if alarms[0].deadline == tick && alarms[0].alarm !in stopped then
      [alarms[0].alarm] + Called(alarms[1..], tick, stopped + First(effects).stops, Rest(effects))
    else Called(alarms[1..], tick, stopped, effects)
  }

  // Dropping alarms from the list is the same as counting them as stopped.
  lemma {:induction false} CalledWithout<A>(alarms: seq<Alarm<A>>, tick: nat, drops: seq<A>, stopped: seq<A>,
                                            effects: seq<Effect<A>>)
    ensures Called(IdealWithout(alarms, drops), tick, stopped, effects) == Called(alarms, tick, drops + stopped, effects)
    decreases |alarms|
  {
    if alarms != [] {
      var e := First(effects);
      var rest := IdealWithout(alarms[1..], drops);
      if alarms[0].alarm in drops {
        assert IdealWithout(alarms, drops) == rest;
        CalledWithout(alarms[1..], tick, drops, stopped, effects);
      } else {
        assert IdealWithout(alarms, drops)[0] == alarms[0] && IdealWithout(alarms, drops)[1..] == rest;
        assert drops + (stopped + e.stops) == drops + stopped + e.stops;
        CalledWithout(alarms[1..], tick, drops, stopped + e.stops, Rest(effects));
        CalledWithout(alarms[1..], tick, drops, stopped, effects);
      }
    }
  }

  // The unbounded scheduler calls exactly the due alarms that no earlier callback of the tick stopped.
  lemma {:induction false} IdealCalls<A>(pre: seq<Alarm<A>>, rest: seq<Alarm<A>>, tick: nat, effects: seq<Effect<A>>)
    ensures IdealWalk(pre, rest, tick, effects).1 == Called(rest, tick, [], effects)
    decreases |rest|
  {
    if rest != [] {
      if rest[0].deadline == tick {
        var e := First(effects);
        IdealWithoutLength(rest[1..], e.stops);
        var kept := if e.period == 0 || rest[0].alarm in e.stops then [] else [rest[0].(deadline := tick + e.period)];
        var pre' := IdealStarted(IdealWithout(pre, e.stops), e.starts, tick) + kept;
        IdealCalls(pre', IdealWithout(rest[1..], e.stops), tick, Rest(effects));
        CalledWithout(rest[1..], tick, e.stops, [], Rest(effects));
        assert e.stops + [] == e.stops && [] + e.stops == e.stops;
      } else {
        IdealCalls(pre + [rest[0]], rest[1..], tick, effects);
      }
    }
  }

  /** The walk of alt_tick, when every callback spares the alarm next on the list, calls exactly the due alarms that no
      earlier callback of the tick stopped, in list order. */
  lemma FiredAreCalled<A>(w: Walker<A>, ipre: seq<Alarm<A>>, irest: seq<Alarm<A>>, tick: nat)
    requires w.Walker? && AllSet(w.pre, ipre, tick) && AllPending(w.rest, irest, tick) && LegalEffects(w.left)
    requires Spares(irest, tick, w.left)
    ensures Walk(w, tick % WRAP).Done() && Walk(w, tick % WRAP).fired == w.fired + Called(irest, tick, [], w.left)
  {
    hide Walk, IdealWalk, Spares, Called, AllSet, AllPending;
    WalkRefines(w, ipre, irest, tick);
    IdealCalls(ipre, irest, tick, w.left);
  }

  /** At every tick of every run the loop of alt_tick ends if and only if every callback spares the alarm next on the list;
      then the alarms called are exactly those whose deadline that tick is and that no earlier callback of the tick stopped,
      in list order. No alarm on the list is ever overdue. */
  lemma TickCallsExactlyTheDue<A>(events: seq<Event<A>>, effects: seq<Effect<A>>)
    requires LegalRun(events) && Spared(events) && LegalEvent(Run(events).0, Tick(effects))
    ensures Run(events).0.Sched?
    ensures var s, i := Run(events).0, IdealRun(events).0;
            var w, now := TickFrom(s.list, effects), (s.nticks + 1) % WRAP;
      && (Ends(w, now) <==> Spares(i.list, i.tick + 1, effects))
      && (forall n: nat :: Passes(w, now, n).Done() ==> Passes(w, now, n).fired == Called(i.list, i.tick + 1, [], effects))
      && forall k :: 0 <= k < |i.list| ==> i.tick < i.list[k].deadline
  {
    hide *;
    AlarmsAreExact(events);
    TickIsExact(Run(events).0, IdealRun(events).0, effects);
  }

  lemma TickIsExact<A>(s: Sched<A>, i: Ideal<A>, effects: seq<Effect<A>>)
    requires Refines(s, i) && LegalEvent(s, Tick(effects))
    ensures s.Sched?
    ensures var w, now := TickFrom(s.list, effects), (s.nticks + 1) % WRAP;
      && (Ends(w, now) <==> Spares(i.list, i.tick + 1, effects))
      && (forall n: nat :: Passes(w, now, n).Done() ==> Passes(w, now, n).fired == Called(i.list, i.tick + 1, [], effects))
      && forall k :: 0 <= k < |i.list| ==> i.tick < i.list[k].deadline
  {
    forall k | 0 <= k < |i.list| ensures i.tick < i.list[k].deadline { assert Set(s.list[k], i.list[k], i.tick); }
    SetIsPending(s.list, i.list, i.tick);
    var w, now := TickFrom(s.list, effects), (s.nticks + 1) % WRAP;
    assert now == (i.tick + 1) % WRAP;
    hide Set, Stands, Pending, Called, Walk, Passes, Spares, LegalEffect, IsListed, IdealWalk, FreshTick, Ends;
    LoopEndsIff(w, now);
    WalkRefines(w, [], i.list, i.tick + 1);
    assert Walk(w, now).Done() <==> Spares(i.list, i.tick + 1, effects);
    if Spares(i.list, i.tick + 1, effects) { FiredAreCalled(w, [], i.list, i.tick + 1); }
    assert [] + Called(i.list, i.tick + 1, [], effects) == Called(i.list, i.tick + 1, [], effects);
  }

  // ---------------------------------------------------------------- a stuck tick

  ghost predicate CalledIfDue<A>(w: Walker<A>, al: Alarm<A>, tick: nat)
    requires w.Stuck?
  {
    al.alarm == w.it.alarm && (Pass(w, tick % WRAP).fired == w.fired + [w.it.alarm] <==> al.deadline == tick)
  }

  /** On a stuck walk every further pass stands on the same alarm; and the alarm, although it was stopped, is called by the
      first of them if and only if its deadline is this tick. */
  lemma StuckCallsStopped<A>(w: Walker<A>, irest: seq<Alarm<A>>, tick: nat, n: nat)
    requires StuckOn(w, irest, tick)
    ensures var p := Passes(w, tick % WRAP, n); p.Stuck? && p.it.alarm == w.it.alarm
    ensures exists k :: 0 <= k < |irest| && CalledIfDue(w, irest[k], tick)
  {
    var k :| 0 <= k < |irest| && Pending(w.it, irest[k], tick);
    ExpiredIsDue(w.it, irest[k], tick);
    StuckStays(w, tick % WRAP, n);
  }

  lemma {:induction false} QuietStuck<A>(w: Walker<A>, now: nat, n: nat)
    requires w.Stuck? && Quiet(w.it, now)
    ensures Passes(w, now, n).fired == w.fired
    ensures Passes(w, now, n).Stuck? && Quiet(Passes(w, now, n).it, now)
  {
    if n > 0 { QuietStuck(w, now, n - 1); }
  }

  // No callback left asks to be called again.
  ghost predicate Deactivates<A>(effects: seq<Effect<A>>) {
    forall i :: 0 <= i < |effects| ==> effects[i].period == 0
  }

  // The same alarm called n times.
  function Times<A>(a: A, n: nat): seq<A> { if n == 0 then [] else Times(a, n - 1) + [a] }

  // A stuck walk on an expired alarm, with no callback left that asks to be called again.
  ghost predicate Repeats<A>(w: Walker<A>, now: nat, a: A) {
    w.Stuck? && w.it.alarm == a && Expired(Seen(w.it, now), now) && Deactivates(w.left)
  }

  lemma RepeatsOnce<A>(w: Walker<A>, now: nat, a: A)
    requires Repeats(w, now, a)
    ensures Repeats(Pass(w, now), now, a) && Pass(w, now).fired == w.fired + [a]
  {
    StuckPasses(w, now);
    hide Pass;
  }

  lemma {:induction false} DueStuck<A>(w: Walker<A>, now: nat, a: A, n: nat)
    requires Repeats(w, now, a)
    ensures Repeats(Passes(w, now, n), now, a) && Passes(w, now, n).fired == w.fired + Times(a, n)
  {
    hide Pass, Repeats;
    if n > 0 {
      DueStuck(w, now, a, n - 1);
      RepeatsOnce(Passes(w, now, n - 1), now, a);
      assert w.fired + Times(a, n - 1) + [a] == w.fired + Times(a, n);
    }
  }

  lemma StuckPasses<A>(w: Walker<A>, now: nat)
    requires w.Stuck?
    ensures var it, u := Seen(w.it, now), Pass(w, now);
      && (!Expired(it, now) ==> u == w.(it := it))
      && (Expired(it, now) ==> u.Stuck? && u.left == Rest(w.left) && u.fired == w.fired + [it.alarm])
      && (Expired(it, now) ==> u.it == if First(w.left).period == 0 then it else Rearmed(it, First(w.left).period, now))
  {
  }

  lemma StuckLater<A>(w: Walker<A>, al: Alarm<A>, tick: nat, n: nat)
    requires w.Stuck? && Pending(w.it, al, tick) && al.deadline > tick
    ensures Passes(w, tick % WRAP, n + 1).fired == w.fired
  {
    var now := tick % WRAP;
    ExpiredIsDue(w.it, al, tick);
    StuckPasses(w, now);
    SetIsQuiet(Seen(w.it, now), al, tick);
    var u := Pass(w, now);
    assert u.Stuck? && Quiet(u.it, now) && u.fired == w.fired;
    hide *;
    QuietStuck(u, now, n);
    PassesFirst(w, now, n);
  }

  lemma StuckOnce<A>(w: Walker<A>, al: Alarm<A>, tick: nat, n: nat)
    requires w.Stuck? && Pending(w.it, al, tick) && al.deadline == tick && 0 < First(w.left).period < WRAP
    ensures Passes(w, tick % WRAP, n + 1).fired == w.fired + [al.alarm]
  {
    var now, period := tick % WRAP, First(w.left).period;
    ExpiredIsDue(w.it, al, tick);
    StuckPasses(w, now);
    var u := Pass(w, now);
    assert u.Stuck? && u.it == Rearmed(Item(al.alarm, now, false), period, now) && u.fired == w.fired + [al.alarm];
    hide *;
    RearmedIsSet(al.alarm, period, tick);
    SetIsQuiet(u.it, Alarm(al.alarm, tick + period), tick);
    QuietStuck(u, now, n);
    PassesFirst(w, now, n);
  }

  /** How often a stuck tick calls the stopped alarm it stands on: never if its deadline is still to come; once if it is due and
      its callback asks for another call, since it is then set again like any other; and in every pass if it is due and no
      callback asks for one. */
  lemma StuckCalls<A>(w: Walker<A>, al: Alarm<A>, tick: nat, n: nat)
    requires w.Stuck? && Pending(w.it, al, tick) && First(w.left).period < WRAP
    ensures var fired := Passes(w, tick % WRAP, n).fired;
      && (al.deadline > tick ==> fired == w.fired)
      && (al.deadline == tick && First(w.left).period > 0 && n > 0 ==> fired == w.fired + [al.alarm])
      && (al.deadline == tick && Deactivates(w.left) ==> fired == w.fired + Times(al.alarm, n))
  {
    ExpiredIsDue(w.it, al, tick);
    assert w.it.alarm == al.alarm && Passes(w, tick % WRAP, 0) == w;
    assert al.deadline == tick && Deactivates(w.left) ==> Repeats(w, tick % WRAP, al.alarm);
    hide *;
    if al.deadline == tick && Deactivates(w.left) { DueStuck(w, tick % WRAP, al.alarm, n); }
    if n > 0 && al.deadline > tick { StuckLater(w, al, tick, n - 1); }
    if n > 0 && al.deadline == tick && First(w.left).period > 0 { StuckOnce(w, al, tick, n - 1); }
  }

  /** The failing input: two alarms are due, and the callback of the first stops the second. The tick calls the first, never
      ends, and calls the stopped one. */
  lemma StoppingTheNextHangs()
    ensures var events := [Add(Start(2, 0))] + [Add(Start(1, 0))] + [Tick([Effect([2], [], 0)])];
            var (s, ticks, log) := Run<int>(events);
      && LegalRun(events) && s.Hung? && log == [Firing(1, 1)]
      && s.walker.Stuck? && s.walker.it.alarm == 2 && Pass(s.walker, s.nticks).fired == [1, 2]
      && !Ends(TickFrom([Item(1, 1, false), Item(2, 1, false)], [Effect([2], [], 0)]), s.nticks)
  {
    var a, b, t := Add(Start(2, 0)), Add(Start(1, 0)), Tick([Effect([2], [], 0)]);
    var list := [Item(1, 1, false), Item(2, 1, false)];
    ExampleAdds();
    RunSnoc([a] + [b], t);
    hide Run, LegalRun;
    WalkTwo();
    LoopEndsIff(TickFrom(list, t.effects), 1);
    NothingStarted(TickFrom(list, t.effects), 1);
    assert [] + Stamped([1], 1) == [Firing(1, 1)];
  }

  // An alarm started at reset to go off on the next tick.
  lemma AddAtReset(events: seq<Event<int>>, a: int, list: seq<Item<int>>)
    requires LegalRun(events) && Run(events) == (Sched(0, list), 0, []) && !IsListed(list, a)
    ensures LegalRun(events + [Add(Start(a, 0))])
    ensures Run(events + [Add(Start(a, 0))]) == (Sched(0, [Item(a, 1, false)] + list), 0, [])
  {
    RunSnoc(events, Add(Start(a, 0)));
    hide Run, LegalRun, IsListed;
    assert Armed(a, 0, 0) == Item(a, 1, false);
    assert [] + Stamped<int>([], 0) == [];
  }

  lemma ExampleAdds()
    ensures var events := [Add(Start(2, 0))] + [Add(Start(1, 0))];
            LegalRun(events) && Run<int>(events) == (Sched(0, [Item(1, 1, false), Item(2, 1, false)]), 0, [])
  {
    assert Run<int>([]) == (Sched(0, []), 0, []) && LegalRun<int>([]);
    AddAtReset([], 2, []);
    assert [] + [Add(Start(2, 0))] == [Add(Start(2, 0))] && [Item(2, 1, false)] + [] == [Item(2, 1, false)];
    hide Run, LegalRun;
    AddAtReset([Add(Start(2, 0))], 1, [Item(2, 1, false)]);
    assert [Item(1, 1, false)] + [Item(2, 1, false)] == [Item(1, 1, false), Item(2, 1, false)];
  }

  lemma RunSnoc<A>(events: seq<Event<A>>, e: Event<A>)
    ensures LegalRun(events + [e]) <==> LegalRun(events) && LegalEvent(Run(events).0, e)
    ensures var (s, ticks, log) := Run(events); var (s', fired) := Apply(s, e);
            var ticks' := if e.Tick? && s.Sched? then ticks + 1 else ticks;
            Run(events + [e]) == (s', ticks', log + Stamped(fired, ticks'))
  {
    hide Apply, LegalEvent, Stamped;
    assert (events + [e])[..|events|] == events;
  }

  // The walk of the example.
  lemma WalkTwo()
    ensures var w := Walker([], [Item(1, 1, false), Item(2, 1, false)], [Effect([2], [], 0)], []);
            var r := Stuck([], Item(2, 1, false), [], [1]);
            Walk<int>(w, 1) == r && Pass(r, 1).fired == [1, 2]
  {
    var w := Walker([], [Item(1, 1, false), Item(2, 1, false)], [Effect([2], [], 0)], []);
    assert w.rest[1..] == [Item(2, 1, false)] && w.rest[1..][1..] == [];
    assert Without(w.rest[1..], [2]) == [] && Without(w.pre, [2]) == [];
    assert Behind(w.pre, w.rest[0], w.left[0], 1) == [];
    assert Pass(w, 1) == Stuck([], Item(2, 1, false), [], [1]);
  }

  // Callbacks that start nothing start nothing that is waiting.
  lemma {:induction false} NothingStartedAfter<A>(w: Walker<A>, now: nat, n: nat)
    requires forall i :: 0 <= i < |w.left| ==> w.left[i].starts == []
    ensures forall i :: 0 <= i < |Passes(w, now, n).left| ==> Passes(w, now, n).left[i].starts == []
  {
    if n > 0 { NothingStartedAfter(w, now, n - 1); }
  }

  lemma NothingStarted<A>(w: Walker<A>, now: nat)
    requires forall i :: 0 <= i < |w.left| ==> w.left[i].starts == []
    ensures FreshTick(w, now)
  {
    forall n: nat ensures FreshPass(Passes(w, now, n), now) { NothingStartedAfter(w, now, n); }
  }

  // ---------------------------------------------------------------- the longest delay

  // An alarm k ticks after now, as long as it has not fired.
  function Waited<A>(it: Item<A>, now: nat, k: nat): Item<A> {
    if k == 0 then it else Seen(Waited(it, now, k - 1), (now + k) % WRAP)
  }

  predicate ExpiredAfter<A>(it: Item<A>, now: nat, k: nat) {
    Expired(Waited(it, now, k), (now + k) % WRAP)
  }

  ghost predicate FirstExpiresAfter<A>(it: Item<A>, now: nat, k: nat) {
    0 < k && ExpiredAfter(it, now, k) && forall j :: 0 < j < k ==> !ExpiredAfter(it, now, j)
  }

  lemma WrapAdds(tick: nat, k: nat)
    ensures (tick % WRAP + k) % WRAP == (tick + k) % WRAP
  {
  }

  lemma {:induction false} WaitingStaysSet<A>(it: Item<A>, al: Alarm<A>, tick: nat, from: nat, k: nat)
    requires from <= k && tick + k <= al.deadline
    requires Set(Waited(it, tick % WRAP, from), al, tick + from)
    ensures tick + k < al.deadline ==> Set(Waited(it, tick % WRAP, k), al, tick + k)
    ensures from < k ==> (ExpiredAfter(it, tick % WRAP, k) <==> tick + k == al.deadline)
    decreases k
  {
    hide Set, Seen, Expired;
    if from < k {
      WaitingStaysSet(it, al, tick, from, k - 1);
      WrapAdds(tick, k);
      StillPending(Waited(it, tick % WRAP, k - 1), al, tick + k - 1);
      ExpiredIsDue(Waited(it, tick % WRAP, k - 1), al, tick + k);
    }
  }

  /** A delay of nticks runs out after nticks + 1 ticks exactly when it is below 2^32 - 1, or equal to it and started on
      the last tick before the counter wraps; otherwise the alarm expires on the very next tick. */
  lemma DelayIsExactIff<A>(a: A, nticks: nat, tick: nat)
    requires nticks < WRAP
    ensures FirstExpiresAfter(Armed(a, nticks, tick % WRAP), tick % WRAP, nticks + 1)
      <==> nticks <= WRAP - 2 || tick % WRAP == WRAP - 1
    ensures nticks == WRAP - 1 && tick % WRAP != WRAP - 1 ==>
      FirstExpiresAfter(Armed(a, nticks, tick % WRAP), tick % WRAP, 1)
  {
    var now := tick % WRAP;
    var it := Armed(a, nticks, now);
    var al := Alarm(a, tick + nticks + 1);
    if nticks <= WRAP - 2 || now == WRAP - 1 {
      var from := if nticks <= WRAP - 2 then 0 else 1;
      if from == 0 { ArmedIsSet(a, nticks, tick); } else { LastTickIsSet(a, tick); }
      forall j | from < j <= nticks + 1 ensures ExpiredAfter(it, now, j) <==> j == nticks + 1 {
        WaitingStaysSet(it, al, tick, from, j);
      }
    } else {
      assert (now + 1) % WRAP == now + 1;
      assert Waited(it, now, 1) == Seen(Waited(it, now, 0), now + 1);
      assert ExpiredAfter(it, now, 1);
    }
  }

  lemma LastTickIsSet<A>(a: A, tick: nat)
    requires tick % WRAP == WRAP - 1
    ensures var it := Armed(a, WRAP - 1, WRAP - 1);
      && Set(Waited(it, WRAP - 1, 1), Alarm(a, tick + WRAP), tick + 1)
      && !ExpiredAfter(it, WRAP - 1, 1)
  {
    var it := Armed(a, WRAP - 1, WRAP - 1);
    assert it == Item(a, WRAP - 1, false);
    assert Waited(it, WRAP - 1, 1) == Seen(Waited(it, WRAP - 1, 0), 0);
    DivMod(tick); DivMod(tick + 1); DivMod(tick + WRAP);
  }
}
