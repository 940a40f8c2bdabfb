/** Interrupt masking and dispatch on the internal interrupt controller. A 32-bit register is the set of its one bits. */
module IrqSpec {

  const NIRQ := 32

  predicate InTable(id: int) { 0 <= id < NIRQ }

  // The interrupt numbers below n.
  function Below(n: int): set<int> { set i | 0 <= i < n && InTable(i) }

  // What has been entered and not yet left, outermost first.
  datatype Entry =
    | Isr(id: int)                 // the handler of this interrupt is running
    | Bracket(oldMask: set<int>)   // alt_irq_interruptible, with the mask it returned
    | Context(oldPie: bool)        // alt_irq_disable_all, with the status it returned

  datatype State = State(
    pie: bool,              // the processor takes interrupts
    ienable: set<int>,      // the IENABLE register
    active: set<int>,       // alt_irq_active
    mask: set<int>,         // alt_priority_mask
    table: seq<nat>,        // alt_irq[..].handler; 0 is NULL
    stack: seq<Entry>)

  // No interrupt is enabled, none is masked, and no handler is registered.
  function Reset(): State { State(false, {}, {}, Below(NIRQ), seq(NIRQ, _ => 0), []) }

  datatype Event =
    | DisableAll
    | EnableAll
    | Enable(id: int)
    | Disable(id: int)
    | Register(id: int, isr: nat)
    | Interruptible
    | NonInterruptible
    | CpuEnable                    // alt_irq_cpu_enable_interrupts, at start-up
    | Interrupt(lines: set<int>)   // the processor takes an interrupt: these lines are asserted
    | Return(lines: set<int>)      // a handler returns to the dispatch loop, which finds these lines asserted

  // ---------------------------------------------------------------- the entries of the stack

  function Top(stack: seq<Entry>): Entry
    requires stack != []
  {
    stack[|stack| - 1]
  }

  function Under(stack: seq<Entry>): seq<Entry>
    requires stack != []
  {
    stack[..|stack| - 1]
  }

  // The interrupt being handled, or 32.
  function Level(stack: seq<Entry>): int {
    if stack == [] then NIRQ else if Top(stack).Isr? then Top(stack).id else Level(Under(stack))
  }

  // No handler has been entered since the last bracket was opened.
  predicate Open(stack: seq<Entry>) {
    stack != [] ==> Top(stack).Bracket? || (Top(stack).Context? && Open(Under(stack)))
  }

  // The priority mask that goes with what has been entered.
  function MaskOf(stack: seq<Entry>): set<int> {
    if stack == [] then Below(NIRQ)
    else if Top(stack).Bracket? then Below(Level(stack))
    else MaskOf(Under(stack))
  }

  function Depth(stack: seq<Entry>): nat {
    if stack == [] then 0 else Depth(Under(stack)) + if Top(stack).Isr? then 1 else 0
  }

  // ---------------------------------------------------------------- what the operations do

  function Least(ids: set<int>): (id: int)
    requires ids != {} && ids <= Below(NIRQ)
    ensures id in ids && 0 <= id < NIRQ && forall k :: k in ids ==> id <= k
  {
    LeastFrom(ids, 0)
  }

  function LeastFrom(ids: set<int>, i: nat): (id: int)
    requires ids != {} && ids <= Below(NIRQ) && forall k :: k in ids ==> i <= k
    ensures id in ids && i <= id < NIRQ && forall k :: k in ids ==> id <= k
    decreases NIRQ - i
  {
    if i in ids then i
    else
      assert i < NIRQ by { var k :| k in ids; }
      LeastFrom(ids, i + 1)
  }

  function DisabledAll(s: State): State { s.(pie := false, stack := s.stack + [Context(s.pie)]) }

  function EnabledAll(s: State, oldPie: bool): State
    requires s.stack != []
  {
    s.(pie := oldPie, stack := Under(s.stack))
  }

  function Opened(s: State, priority: int): State {
    var mask := Below(priority);
    s.(pie := true, mask := mask, ienable := s.active * mask, stack := s.stack + [Bracket(s.mask)])
  }

  function Closed(s: State, mask: set<int>): State
    requires s.stack != []
  {
    s.(pie := false, mask := mask, ienable := mask * s.active, stack := Under(s.stack))
  }

  // The bits set are written to alt_irq_active, and from there, unmasked, to IENABLE.
  function Switched(s: State, active: set<int>): State { s.(active := active, ienable := active) }

  // alt_iic_isr_register, for a number in the table.
  function Registering(s: State, id: int, isr: nat): State
    requires 0 <= id < |s.table|
  {
    Switched(s.(table := s.table[id := isr]), if isr != 0 then s.active + {id} else s.active - {id})
  }

  // The processor enters the handler of the first of the pending interrupts, or goes back to where it came from.
  function Dispatched(s: State, pending: set<int>): State
    requires pending <= Below(NIRQ)
  {
    if pending == {} then s.(pie := true) else s.(pie := false, stack := s.stack + [Isr(Least(pending))])
  }

  // What the caller, or the processor, keeps to. The conditions on active say that no enabled interrupt is masked.
  predicate Callable(s: State, e: Event) {
    match e
    case DisableAll => true
    case EnableAll => s.stack != [] && Top(s.stack).Context?
    case Enable(id) => InTable(id) && |s.table| == NIRQ && s.table[id] != 0 && s.active + {id} <= s.mask
    case Disable(id) => InTable(id) && s.active - {id} <= s.mask
    case Register(id, isr) =>
      InTable(id) && (if isr != 0 then s.active + {id} else s.active - {id}) <= s.mask
    case Interruptible => Level(s.stack) < NIRQ
    case NonInterruptible => s.stack != [] && Top(s.stack).Bracket?
    case CpuEnable => s.stack == []
    case Interrupt(lines) => s.pie && lines * s.ienable != {}
    case Return(lines) => s.stack != [] && Top(s.stack).Isr?
  }

  function StepOf(s: State, e: Event): State
    requires Inv(s) && Callable(s, e)
  {
    match e
    case DisableAll => DisabledAll(s)
    case EnableAll => EnabledAll(s, Top(s.stack).oldPie)
    case Enable(id) => Switched(s, s.active + {id})
    case Disable(id) => Switched(s, s.active - {id})
    case Register(id, isr) => Registering(s, id, isr)
    case Interruptible => Opened(s, Level(s.stack))
    case NonInterruptible => Closed(s, Top(s.stack).oldMask)
    case CpuEnable => s.(pie := true)
    case Interrupt(lines) => Dispatched(s, lines * s.ienable)
    case Return(lines) => Dispatched(s.(stack := Under(s.stack)), lines * s.ienable)
  }

  // ---------------------------------------------------------------- the invariant

  /** Each handler was entered while interrupts were open, for a smaller interrupt number than the one it preempted; each
      bracket holds the mask to go back to; interrupts are restored only to where they were open. */
  predicate Sound(stack: seq<Entry>) {
    stack != [] ==>
      var under := Under(stack);
      && Sound(under)
      && match Top(stack)
         case Isr(id) => Open(under) && 0 <= id < Level(under)
         case Bracket(oldMask) => oldMask == MaskOf(under) && Level(under) < NIRQ
         case Context(oldPie) => oldPie ==> Open(under)
  }

  predicate Inv(s: State) {
    && Sound(s.stack)
    && s.mask == MaskOf(s.stack)
    && s.ienable == s.active * s.mask
    && s.active <= Below(NIRQ)
    && |s.table| == NIRQ
    && (forall i :: i in s.active ==> s.table[i] != 0)
    && (s.pie ==> Open(s.stack))
  }

  lemma {:induction false} OpenMask(stack: seq<Entry>)
    ensures Open(stack) ==> MaskOf(stack) == Below(Level(stack))
  {
    if stack != [] && Top(stack).Context? { OpenMask(Under(stack)); }
  }

  lemma {:induction false} LevelAndDepth(stack: seq<Entry>)
    requires Sound(stack)
    ensures 0 <= Level(stack) && Depth(stack) + Level(stack) <= NIRQ
    ensures MaskOf(stack) <= Below(NIRQ)
  {
    if stack != [] { LevelAndDepth(Under(stack)); }
  }

  lemma Pushed(stack: seq<Entry>, e: Entry)
    ensures Top(stack + [e]) == e && Under(stack + [e]) == stack
  {
  }

  // Entering the handler of a pending interrupt, or going back to where interrupts are open.
  lemma DispatchKeepsInv(s: State, lines: set<int>)
    requires Inv(s.(pie := true))
    ensures var pending := lines * s.ienable; pending <= Below(NIRQ) && Inv(Dispatched(s, pending))
  {
    OpenMask(s.stack);
    var pending := lines * s.ienable;
    if pending != {} { Pushed(s.stack, Isr(Least(pending))); }
  }

  lemma SwitchKeepsInv(s: State, table: seq<nat>, active: set<int>)
    requires Inv(s) && |table| == NIRQ && active <= s.mask && active <= Below(NIRQ)
    requires forall i :: i in active ==> table[i] != 0
    ensures Inv(Switched(s.(table := table), active))
  {
    LevelAndDepth(s.stack);
    hide Sound, MaskOf, Open, Below;
    assert active * s.mask == active;
  }

  lemma BracketKeepsInv(s: State)
    requires Inv(s)
    ensures Callable(s, Interruptible) ==> Inv(StepOf(s, Interruptible))
    ensures Callable(s, NonInterruptible) ==> Inv(StepOf(s, NonInterruptible))
  {
    Pushed(s.stack, Bracket(s.mask));
    assert forall m: set<int> :: s.active * m == m * s.active;
  }

  lemma ContextKeepsInv(s: State)
    requires Inv(s)
    ensures Inv(StepOf(s, DisableAll))
    ensures Callable(s, EnableAll) ==> Inv(StepOf(s, EnableAll))
  {
    Pushed(s.stack, Context(s.pie));
  }

  /** Every call of a caller who keeps to the rules, and every interrupt, keeps the invariant. */
  lemma StepKeepsInv(s: State, e: Event)
    requires Inv(s) && Callable(s, e)
    ensures Inv(StepOf(s, e))
  {
    match e
    case DisableAll => ContextKeepsInv(s);
    case EnableAll => ContextKeepsInv(s);
    case Enable(id) => SwitchKeepsInv(s, s.table, s.active + {id});
    case Disable(id) => SwitchKeepsInv(s, s.table, s.active - {id});
    case Register(id, isr) =>
      SwitchKeepsInv(s, s.table[id := isr], if isr != 0 then s.active + {id} else s.active - {id});
    case Interruptible => BracketKeepsInv(s);
    case NonInterruptible => BracketKeepsInv(s);
    case CpuEnable =>
    case Interrupt(lines) => DispatchKeepsInv(s, lines);
    case Return(lines) => DispatchKeepsInv(s.(stack := Under(s.stack)), lines);
  }

  // ---------------------------------------------------------------- runs

  // An event that cannot happen changes nothing.
  function Apply(s: State, e: Event): (t: State)
    requires Inv(s)
    ensures Inv(t)
  {
    if Callable(s, e) then StepKeepsInv(s, e); StepOf(s, e) else s
  }

  lemma ResetInv()
    ensures Inv(Reset())
  {
    assert forall i :: i in Below(NIRQ) <==> 0 <= i < NIRQ;
  }

  function RunFrom(s: State, events: seq<Event>): (t: State)
    requires Inv(s)
    ensures Inv(t)
  {
    if events == [] then s else Apply(RunFrom(s, events[..|events| - 1]), events[|events| - 1])
  }

  /** Every run from reset, with any interrupt lines at any moment, keeps the invariant. */
  function Run(events: seq<Event>): (s: State)
    ensures Inv(s)
  {
    ResetInv();
    RunFrom(Reset(), events)
  }

  // ---------------------------------------------------------------- dispatch safety

  /** At any moment of any run, the interrupt taken is the lowest-numbered of those pending, it has a handler, and it is of
      a smaller number than the one whose handler it preempts. */
  lemma DispatchIsSafe(events: seq<Event>, lines: set<int>)
    requires Callable(Run(events), Interrupt(lines))
    ensures var s := Run(events);
            var t := StepOf(s, Interrupt(lines));
            var id := Level(t.stack);
      && t.stack == s.stack + [Isr(id)] && !t.pie
      && id in lines * s.ienable && (forall k :: k in lines * s.ienable ==> id <= k)
      && s.table[id] != 0 && id < Level(s.stack)
  {
    var s := Run(events);
    hide Run;
    DispatchAtMostLevel(s, lines);
  }

  lemma DispatchAtMostLevel(s: State, lines: set<int>)
    requires Inv(s.(pie := true)) && lines * s.ienable != {}
    ensures lines * s.ienable <= Below(NIRQ) && 0 <= Least(lines * s.ienable) < Level(s.stack)
    ensures s.table[Least(lines * s.ienable)] != 0
    ensures Level(s.stack + [Isr(Least(lines * s.ienable))]) == Least(lines * s.ienable)
  {
    OpenMask(s.stack);
    Pushed(s.stack, Isr(Least(lines * s.ienable)));
  }

  /** So is the one that the dispatch loop finds when a handler returns; and it takes the place of that handler only if it
      could have preempted what that handler preempted. When it finds none, interrupts are open again. */
  lemma ReturnIsSafe(events: seq<Event>, lines: set<int>)
    requires Callable(Run(events), Return(lines))
    ensures var s := Run(events);
            var t := StepOf(s, Return(lines));
            var pending := lines * s.ienable;
            var under := Under(s.stack);
      if pending == {} then t.stack == under && t.pie && Open(under)
      else
        var id := Level(t.stack);
        && t.stack == under + [Isr(id)] && !t.pie && id in pending && (forall k :: k in pending ==> id <= k)
        && s.table[id] != 0 && id < Level(under)
  {
    var s := Run(events);
    hide Run;
    var front := s.(stack := Under(s.stack));
    if lines * s.ienable != {} { DispatchAtMostLevel(front, lines); }
  }

  // ---------------------------------------------------------------- nesting

  lemma {:induction false} LevelBelow(stack: seq<Entry>, i: nat)
    requires Sound(stack) && i < |stack| && stack[i].Isr?
    ensures Level(stack) <= stack[i].id
  {
    if i < |stack| - 1 { LevelBelow(Under(stack), i); }
  }

  lemma {:induction false} NestedDecreases(stack: seq<Entry>, i: nat, j: nat)
    requires Sound(stack) && i < j < |stack| && stack[i].Isr? && stack[j].Isr?
    ensures stack[j].id < stack[i].id
  {
    if j < |stack| - 1 { NestedDecreases(Under(stack), i, j); } else { LevelBelow(Under(stack), i); }
  }

  /** Preemption is strictly prioritised: of two handlers under way, the later one has the smaller number. So at most 32
      are under way, and an interrupt preempts only a handler that has opened a bracket. */
  lemma NestingIsPrioritised(events: seq<Event>)
    ensures var s := Run(events);
      && (forall i, j :: 0 <= i < j < |s.stack| && s.stack[i].Isr? && s.stack[j].Isr? ==> s.stack[j].id < s.stack[i].id)
      && Depth(s.stack) <= NIRQ
      && (s.pie ==> Open(s.stack))
  {
    var s := Run(events);
    hide Run;
    LevelAndDepth(s.stack);
    forall i, j | 0 <= i < j < |s.stack| && s.stack[i].Isr? && s.stack[j].Isr? ensures s.stack[j].id < s.stack[i].id {
      NestedDecreases(s.stack, i, j);
    }
  }

  // ---------------------------------------------------------------- what a bracket lets through

  // The handler that entry i belongs to is the last one entered.
  ghost predicate Innermost(stack: seq<Entry>, i: nat) {
    i < |stack| && stack[i].Isr? && forall j :: i < j < |stack| ==> !stack[j].Isr?
  }

  lemma {:induction false} LevelIsInnermost(stack: seq<Entry>, i: nat)
    requires Innermost(stack, i)
    ensures Level(stack) == stack[i].id
  {
    if i < |stack| - 1 {
      assert forall j :: i < j < |Under(stack)| ==> Under(stack)[j] == stack[j];
      LevelIsInnermost(Under(stack), i);
    }
  }

  /** At any moment of any run, when the handler of p opens a bracket, interrupts are on, IENABLE holds exactly the enabled
      interrupts below p, and of the lines then asserted the processor takes the lowest that is one of these, if and only if
      there is one: a smaller number does preempt, and no other does. */
  lemma BracketLetsThrough(events: seq<Event>, i: nat, lines: set<int>)
    requires Innermost(Run(events).stack, i)
    ensures var s := Run(events); var p := s.stack[i].id;
      && Callable(s, Interruptible) && 0 <= p < NIRQ
      && var t := StepOf(s, Interruptible);
         && t.pie && t.active == s.active && (forall k :: k in t.mask <==> 0 <= k < p)
         && (forall k :: k in t.ienable <==> k in s.active && k < p)
         && (Callable(t, Interrupt(lines)) <==> exists k :: k in lines && k in s.active && k < p)
  {
    var s := Run(events);
    hide Run;
    LevelIsInnermost(s.stack, i);
    IsrInTable(s.stack, i);
    hide Sound, MaskOf, Open, Level;
    var t := StepOf(s, Interruptible);
    if k :| k in lines && k in s.active && k < s.stack[i].id { assert k in lines * t.ienable; }
    if Callable(t, Interrupt(lines)) {
      var k :| k in lines * t.ienable;
      assert k in lines && k in s.active;
    }
  }

  lemma {:induction false} IsrInTable(stack: seq<Entry>, i: nat)
    requires Sound(stack) && i < |stack| && stack[i].Isr?
    ensures 0 <= stack[i].id < NIRQ
  {
    if i < |stack| - 1 { IsrInTable(Under(stack), i); } else { LevelAndDepth(Under(stack)); }
  }

  /** With no bracket open nothing is masked: IENABLE holds every enabled interrupt, inside handlers too. */
  lemma NoBracketNoMask(events: seq<Event>)
    requires forall j :: 0 <= j < |Run(events).stack| ==> !Run(events).stack[j].Bracket?
    ensures var s := Run(events);
      (forall k :: k in s.mask <==> 0 <= k < NIRQ) && s.ienable == s.active
  {
    var s := Run(events);
    hide Run;
    MaskIsFull(s.stack);
    assert s.active * s.mask == s.active;
  }

  lemma {:induction false} MaskIsFull(stack: seq<Entry>)
    requires forall j :: 0 <= j < |stack| ==> !stack[j].Bracket?
    ensures forall k :: k in MaskOf(stack) <==> 0 <= k < NIRQ
  {
    if stack != [] {
      assert forall j :: 0 <= j < |Under(stack)| ==> Under(stack)[j] == stack[j];
      MaskIsFull(Under(stack));
    }
  }

  // ---------------------------------------------------------------- brackets and pairs

  // All through a run from s, the first n entries stay.
  ghost predicate Stays(s: State, events: seq<Event>, n: nat)
    requires Inv(s)
  {
    && n <= |RunFrom(s, events).stack|
    && (events == [] || Stays(s, events[..|events| - 1], n))
  }

  lemma ApplyStays(s: State, e: Event, n: nat)
    requires Inv(s) && n <= |s.stack| && n <= |Apply(s, e).stack|
    requires n == |s.stack| && n > 0 ==> !Top(s.stack).Isr?
    ensures Apply(s, e).stack[..n] == s.stack[..n]
  {
    hide Inv, Sound, MaskOf, Level, Open;
  }

  lemma {:induction false} EntriesStay(s: State, events: seq<Event>, n: nat)
    requires Inv(s) && n <= |s.stack| && Stays(s, events, n)
    requires Stays(s, events, n + 1) || (n > 0 && !s.stack[n - 1].Isr?)
    ensures RunFrom(s, events).stack[..n] == s.stack[..n]
  {
    if events != [] {
      var front := events[..|events| - 1];
      EntriesStay(s, front, n);
      hide Inv, Apply;
      var u := RunFrom(s, front);
      assert n > 0 ==> u.stack[n - 1] == u.stack[..n][n - 1] == s.stack[n - 1];
      ApplyStays(u, events[|events| - 1], n);
    }
  }

  /** A disable/enable pair leaves the processor's interrupt enable as it found it, whatever is called and whatever
      interrupts are taken in between, as long as the entries made in between are left again. */
  lemma PairRestores(s: State, events: seq<Event>)
    requires Inv(s) && Stays(StepOf(s, DisableAll), events, |s.stack| + 1)
    requires |RunFrom(StepOf(s, DisableAll), events).stack| == |s.stack| + 1
    ensures var u := RunFrom(StepOf(s, DisableAll), events);
      && Callable(u, EnableAll)
      && var t := StepOf(u, EnableAll); t.pie == s.pie && t.stack == s.stack && t.mask == s.mask
  {
    var s' := StepOf(s, DisableAll);
    ContextKeepsInv(s);
    EntriesStay(s', events, |s.stack| + 1);
    ContextKeepsInv(RunFrom(s', events));
    hide RunFrom;
    Returned(RunFrom(s', events).stack, s.stack, Context(s.pie));
  }

  lemma Returned(stack: seq<Entry>, base: seq<Entry>, e: Entry)
    requires |stack| == |base| + 1 && stack[..|base| + 1] == base + [e]
    ensures stack != [] && Top(stack) == e && Under(stack) == base
  {
    assert stack == base + [e];
  }

  /** Closing a bracket restores the mask, and IENABLE to what is enabled by then and not masked. */
  lemma BracketRestores(s: State, events: seq<Event>)
    requires Inv(s) && Callable(s, Interruptible) && Stays(StepOf(s, Interruptible), events, |s.stack| + 1)
    requires |RunFrom(StepOf(s, Interruptible), events).stack| == |s.stack| + 1
    ensures var u := RunFrom(StepOf(s, Interruptible), events);
      && Callable(u, NonInterruptible)
      && var t := StepOf(u, NonInterruptible);
         && t.mask == s.mask && t.stack == s.stack && !t.pie
         && t.ienable == t.active * s.mask && (t.active == s.active ==> t.ienable == s.ienable)
  {
    var s' := StepOf(s, Interruptible);
    BracketKeepsInv(s);
    EntriesStay(s', events, |s.stack| + 1);
    BracketKeepsInv(RunFrom(s', events));
    hide RunFrom;
    Returned(RunFrom(s', events).stack, s.stack, Bracket(s.mask));
  }

  /** An interrupt is transparent to what it interrupts: when the dispatch loop finds nothing more, the mask, the interrupt
      enable and everything entered before are as they were. */
  lemma InterruptRestores(s: State, lines: set<int>, events: seq<Event>, last: set<int>)
    requires Inv(s) && Callable(s, Interrupt(lines)) && Stays(Apply(s, Interrupt(lines)), events, |s.stack| + 1)
    requires var u := RunFrom(Apply(s, Interrupt(lines)), events);
      |u.stack| == |s.stack| + 1 && Callable(u, Return(last)) && last * u.ienable == {}
    ensures var t := StepOf(RunFrom(Apply(s, Interrupt(lines)), events), Return(last));
      t.mask == s.mask && t.pie && s.pie && t.stack == s.stack && t.ienable == t.active * s.mask
  {
    hide *;
    var s' := Apply(s, Interrupt(lines));
    var u := RunFrom(s', events);
    InterruptPushes(s, lines);
    StaysWeaker(s', events, |s.stack|);
    EntriesStay(s', events, |s.stack|);
    assert u.stack[..|s.stack|] == s.stack;
    ReturnPops(s, u, last);
    StepKeepsInv(u, Return(last));
    MaskFollows(s);
    MaskFollows(StepOf(u, Return(last)));
  }

  lemma InterruptPushes(s: State, lines: set<int>)
    requires Inv(s) && Callable(s, Interrupt(lines))
    ensures var t := Apply(s, Interrupt(lines)); |s.stack| <= |t.stack| && t.stack[..|s.stack|] == s.stack && s.pie
  {
    Pushed(s.stack, Isr(Least(lines * s.ienable)));
  }

  lemma ReturnPops(s: State, u: State, last: set<int>)
    requires Inv(u) && Callable(u, Return(last)) && last * u.ienable == {}
    requires |u.stack| == |s.stack| + 1 && u.stack[..|s.stack|] == s.stack
    ensures StepOf(u, Return(last)) == u.(stack := s.stack, pie := true)
  {
    hide Inv;
    assert Under(u.stack) == s.stack;
  }

  lemma MaskFollows(s: State)
    requires Inv(s)
    ensures s.mask == MaskOf(s.stack) && s.ienable == s.active * s.mask
  {
  }

  lemma {:induction false} StaysWeaker(s: State, events: seq<Event>, n: nat)
    requires Inv(s) && Stays(s, events, n + 1)
    ensures Stays(s, events, n)
  {
    if events != [] { StaysWeaker(s, events[..|events| - 1], n); }
  }

  /** Registration enables the interrupt on return, and a NULL handler disables it; no other interrupt is affected. */
  lemma RegisterEnables(s: State, id: int, isr: nat)
    requires Inv(s) && Callable(s, Register(id, isr))
    ensures var t := StepOf(s, Register(id, isr));
      && (id in t.ienable <==> isr != 0) && t.table[id] == isr
      && t.pie == s.pie && t.mask == s.mask && t.stack == s.stack
      && (forall k :: k != id ==> (k in t.ienable <==> k in s.ienable))
      && (forall k :: 0 <= k < NIRQ && k != id ==> t.table[k] == s.table[k])
  {
    hide Sound, MaskOf, Open;
    var t := StepOf(s, Register(id, isr));
    forall k | k != id ensures k in t.ienable <==> k in s.ienable {
      assert k in t.active <==> k in s.active;
    }
  }

  // Of the calls made by callers who keep to the rules, the last that names interrupt k enables it.
  predicate LastEnables(events: seq<Event>, k: int) {
    events != [] &&
    var front, e := events[..|events| - 1], events[|events| - 1];
    if !Callable(Run(front), e) then LastEnables(front, k)
    else match e
      case Enable(id) => id == k || LastEnables(front, k)
      case Disable(id) => id != k && LastEnables(front, k)
      case Register(id, isr) => if id == k then isr != 0 else LastEnables(front, k)
      case _ => LastEnables(front, k)
  }

  // The last of them that registers a handler for k registers this one.
  function LastHandler(events: seq<Event>, k: int): nat {
    if events == [] then 0
    else
      var front, e := events[..|events| - 1], events[|events| - 1];
      if Callable(Run(front), e) && e.Register? && e.id == k then e.isr else LastHandler(front, k)
  }

  /** After every run, an interrupt is enabled exactly if the last call that named it enabled it, its handler is the last one
      registered, and IENABLE lets it through exactly if the mask does. */
  lemma {:induction false} EnabledIs(events: seq<Event>, k: int)
    requires InTable(k)
    ensures var s := Run(events);
      && (k in s.active <==> LastEnables(events, k)) && s.table[k] == LastHandler(events, k)
      && (k in s.ienable <==> LastEnables(events, k) && k in s.mask)
  {
    if events == [] {
      assert Run([]) == Reset();
    } else {
      var front, e := events[..|events| - 1], events[|events| - 1];
      EnabledIs(front, k);
      assert Run(events) == Apply(Run(front), e);
      hide Run, Sound, MaskOf, Open, Callable, Level;
      EnabledStep(Run(front), e, k);
    }
  }

  lemma EnabledStep(s: State, e: Event, k: int)
    requires Inv(s) && InTable(k)
    ensures var t := Apply(s, e);
      && (k in t.active <==>
           if !Callable(s, e) then k in s.active
           else match e
             case Enable(id) => id == k || k in s.active
             case Disable(id) => id != k && k in s.active
             case Register(id, isr) => if id == k then isr != 0 else k in s.active
             case _ => k in s.active)
      && t.table[k] == (if Callable(s, e) && e.Register? && e.id == k then e.isr else s.table[k])
      && (k in t.ienable <==> k in t.active && k in t.mask)
  {
    hide Sound, MaskOf, Open, Level;
  }

  // ---------------------------------------------------------------- enabling inside a bracket

  /** alt_irq_enable writes IENABLE without the priority mask. It keeps the masking rule if and only if no enabled interrupt
      is masked. */
  lemma EnableKeepsMaskIff(s: State, id: int)
    requires Inv(s) && InTable(id) && s.table[id] != 0
    ensures var t := Switched(s, s.active + {id}); Inv(t) <==> s.active + {id} <= s.mask
  {
    var t := Switched(s, s.active + {id});
    if s.active + {id} <= s.mask { SwitchKeepsInv(s, s.table, s.active + {id}); }
  }

  /** So inside a bracket it lets every enabled interrupt through, of whatever priority: one that the bracket held back
      would now preempt. */
  lemma EnableInsideBracket(s: State, id: int, q: int)
    requires Inv(s) && s.pie && InTable(id) && q in s.active && Level(s.stack) <= q
    ensures var t := Switched(s, s.active + {id});
            q !in s.ienable && t.pie && q in t.ienable && Level(Dispatched(t, {q}).stack) == q >= Level(t.stack)
  {
    OpenMask(s.stack);
    Pushed(s.stack, Isr(q));
  }

  /** alt_irq_disable writes IENABLE without the mask, too: it keeps the rule if and only if no interrupt that stays enabled is
      masked. */
  lemma DisableKeepsMaskIff(s: State, id: int)
    requires Inv(s) && InTable(id)
    ensures Inv(Switched(s, s.active - {id})) <==> s.active - {id} <= s.mask
  {
    if s.active - {id} <= s.mask { SwitchKeepsInv(s, s.table, s.active - {id}); }
  }

  /** And so does registration, which goes through one or the other. */
  lemma RegisterKeepsMaskIff(s: State, id: int, isr: nat)
    requires Inv(s) && InTable(id)
    ensures Inv(Registering(s, id, isr))
       <==> (if isr != 0 then s.active + {id} else s.active - {id}) <= s.mask
  {
    var active := if isr != 0 then s.active + {id} else s.active - {id};
    if active <= s.mask { SwitchKeepsInv(s, s.table[id := isr], active); }
  }

  /** Disabling an interrupt inside a bracket lets every other enabled interrupt through, of whatever priority. */
  lemma DisableInsideBracket(s: State, id: int, q: int)
    requires Inv(s) && s.pie && InTable(id) && q in s.active && q != id && Level(s.stack) <= q
    ensures var t := Switched(s, s.active - {id});
            q !in s.ienable && t.pie && q in t.ienable && Level(Dispatched(t, {q}).stack) == q >= Level(t.stack)
  {
    OpenMask(s.stack);
    Pushed(s.stack, Isr(q));
  }

  /** Such a state is reached: interrupt 1 is being handled in a bracket, and interrupt 2 is enabled but held back; disabling
      interrupt 1 there unmasks interrupt 2. */
  lemma InsideBracketIsReached()
    ensures var s := Run([Register(1, 8), Register(2, 9), CpuEnable, Interrupt({1}), Interruptible]);
            s.pie && Level(s.stack) == 1 && 2 in s.active && 2 in Switched(s, s.active - {1}).ienable
  {
    var es := [Register(1, 8), Register(2, 9), CpuEnable, Interrupt({1}), Interruptible];
    var start := [Register(1, 8), Register(2, 9), CpuEnable];
    ResetInv();
    Enabled12();
    Then(Reset(), start, es[3]);
    Then(Reset(), start + [es[3]], es[4]);
    assert start + [es[3]] + [es[4]] == es;
    hide RunFrom;
    Nested1(RunFrom(Reset(), start));
  }

  lemma Enabled12()
    ensures Inv(Reset())
    ensures var s := RunFrom(Reset(), [Register(1, 8), Register(2, 9), CpuEnable]);
            s.pie && s.stack == [] && s.active == {1, 2} && s.ienable == {1, 2}
  {
    hide *;
    ResetInv();
    var s0 := Reset();
    var a, b := Register(1, 8), Register(2, 9);
    assert [] + [a] == [a] && [a] + [b] == [a, b] && [a, b] + [CpuEnable] == [a, b, CpuEnable];
    Then(s0, [], a);
    Then(s0, [a], b);
    Then(s0, [a, b], CpuEnable);
    FromReset();
    var s1 := Apply(s0, a);
    Registered(s0, 1, 8);
    var s2 := Apply(s1, b);
    Registered(s1, 2, 9);
    Enabled(s2);
  }

  lemma FromReset()
    ensures Inv(Reset()) && RunFrom(Reset(), []) == Reset() && Reset().stack == [] && Reset().active == {}
    ensures InTable(1) && InTable(2) && {} + {1} == {1} && {1} + {2} == {1, 2}
  {
    ResetInv();
  }

  lemma Enabled(s: State)
    requires Inv(s) && s.stack == []
    ensures Apply(s, CpuEnable) == s.(pie := true)
  {
  }

  // With nothing entered, registering a handler enables its interrupt.
  lemma Registered(s: State, id: int, isr: nat)
    requires Inv(s) && s.stack == [] && InTable(id) && isr != 0
    ensures var t := Apply(s, Register(id, isr));
            t.active == s.active + {id} && t.ienable == t.active && t.stack == [] && t.table[id] == isr
  {
    assert s.active + {id} <= s.mask;
  }

  lemma Nested1(s: State)
    requires Inv(s) && s.pie && s.stack == [] && s.active == {1, 2} && s.ienable == {1, 2}
    ensures var t := Apply(Apply(s, Interrupt({1})), Interruptible); t.pie && Level(t.stack) == 1 && 2 in t.active
  {
    var u := Apply(s, Interrupt({1}));
    assert {1} * s.ienable == {1};
    assert u.stack == [Isr(1)];
    Pushed([Isr(1)], Bracket(u.mask));
  }

  lemma Then(s: State, events: seq<Event>, e: Event)
    requires Inv(s)
    ensures RunFrom(s, events + [e]) == Apply(RunFrom(s, events), e)
  {
    assert (events + [e])[..|events|] == events;
  }
}
