/** The interrupt calls over the processor's control registers and the HAL's globals, and the dispatch loop. */
module IrqController {
  import opened Errno
  import opened Words
  import opened IrqSpec

  // What a caller who keeps to the rules sees of a call is the machine's event.
  predicate IsEvent(s: State, e: Event, t: State) { Inv(s) && Callable(s, e) ==> t == StepOf(s, e) }

  class Controller {
    var pie: bool                // STATUS
    var ienable: set<int>        // IENABLE
    var irqActive: set<int>      // alt_irq_active
    var priorityMask: set<int>   // alt_priority_mask
    const handlers: array<nat>   // alt_irq[..].handler
    ghost var entered: seq<Entry>

    ghost predicate Valid() { handlers.Length == NIRQ }

    ghost function Now(): State
      reads this, handlers
    {
      State(pie, ienable, irqActive, priorityMask, handlers[..], entered)
    }

    constructor ()
      ensures Valid() && Now() == Reset() && fresh(handlers)
      ensures !pie && ienable == {} && irqActive == {} && forall k :: k in priorityMask <==> 0 <= k < NIRQ
    {
      pie, ienable, irqActive, priorityMask := false, {}, {}, Below(NIRQ);
      handlers := new nat[NIRQ](_ => 0);
      entered := [];
      new;
      assert handlers[..] == seq(NIRQ, _ => 0);
    }

    // alt_irq_disable_all
    method DisableAll() returns (context: bool)
      requires Valid()
      modifies this
      ensures Valid() && context == old(pie) && Now() == DisabledAll(old(Now()))
      ensures !pie && IsEvent(old(Now()), IrqSpec.DisableAll, Now())
    {
      context := pie;
      pie := false;
      entered := entered + [Context(context)];
    }

    // alt_irq_enable_all
    method EnableAll(context: bool)
      requires Valid() && entered != []
      modifies this
      ensures Valid() && Now() == EnabledAll(old(Now()), context)
      ensures pie == context
      ensures old(entered)[|old(entered)| - 1] == Context(context) ==> IsEvent(old(Now()), IrqSpec.EnableAll, Now())
    {
      pie := context;
      entered := Under(entered);
    }

    // What a dispatch in between would see half done is written with the processor's interrupts off.
    method WriteActive(active: set<int>)
      requires !pie
      modifies this`irqActive, this`ienable
      ensures irqActive == active && ienable == active
    {
      irqActive := active;
      ienable := irqActive;
    }

    method WriteHandler(id: int, isr: nat)
      requires !pie && Valid() && InTable(id)
      modifies handlers
      ensures handlers[..] == old(handlers[..])[id := isr]
    {
      handlers[id] := isr;
    }

    // alt_irq_enable
    method Enable(id: int) returns (rc: int)
      requires Valid() && InTable(id)
      modifies this
      ensures Valid() && rc == 0 && Now() == Switched(old(Now()), old(irqActive) + {id})
      ensures IsEvent(old(Now()), IrqSpec.Enable(id), Now())
    {
      var status := DisableAll();
      Pushed(old(entered), Context(status));
      WriteActive(irqActive + {id});
      EnableAll(status);
      rc := 0;
    }

    // alt_irq_disable
    method Disable(id: int) returns (rc: int)
      requires Valid() && InTable(id)
      modifies this
      ensures Valid() && rc == 0 && Now() == Switched(old(Now()), old(irqActive) - {id})
      ensures IsEvent(old(Now()), IrqSpec.Disable(id), Now())
    {
      var status := DisableAll();
      Pushed(old(entered), Context(status));
      WriteActive(irqActive - {id});
      EnableAll(status);
      rc := 0;
    }

    // alt_irq_interruptible
    method Interruptible(priority: int) returns (oldPriority: set<int>)
      requires Valid() && InTable(priority)
      modifies this
      ensures Valid() && oldPriority == old(priorityMask) && Now() == Opened(old(Now()), priority)
      ensures pie && irqActive == old(irqActive)
      ensures priority == Level(old(entered)) ==> IsEvent(old(Now()), IrqSpec.Interruptible, Now())
      ensures forall k :: k in priorityMask <==> 0 <= k < priority
      ensures forall k :: k in ienable <==> k in irqActive && 0 <= k < priority
    {
      oldPriority := priorityMask;
      priorityMask := Below(priority);
      ienable := irqActive * priorityMask;
      pie := true;
      entered := entered + [Bracket(oldPriority)];
    }

    // alt_irq_non_interruptible
    method NonInterruptible(mask: set<int>)
      requires Valid() && entered != []
      modifies this
      ensures Valid() && Now() == Closed(old(Now()), mask)
      ensures !pie && priorityMask == mask && ienable == mask * irqActive && irqActive == old(irqActive)
      ensures old(entered)[|old(entered)| - 1] == Bracket(mask) ==> IsEvent(old(Now()), IrqSpec.NonInterruptible, Now())
    {
      pie := false;
      priorityMask := mask;
      ienable := mask * irqActive;
      entered := Under(entered);
    }

    /** alt_iic_isr_register: the table and the enable bit change together, with the processor's interrupts off; a NULL
        handler disables the interrupt; a number of 32 or more changes nothing. The number is compared as a signed one, so
        that from 2^31 on it passes and the table is indexed below its start; what that changes is not modelled. */
    method Register(irq: Word, isr: nat) returns (rc: int, outside: bool)
      requires Valid()
      modifies this, handlers
      ensures Valid() && (outside <==> irq >= SIGN_BIT)
      ensures NIRQ <= irq < SIGN_BIT ==> rc == -EINVAL && Now() == old(Now())
      ensures irq < NIRQ ==> rc == 0 && Now() == Registering(old(Now()), irq, isr)
      ensures irq < NIRQ ==> IsEvent(old(Now()), IrqSpec.Register(irq, isr), Now())
    {
      rc, outside := -EINVAL, false;
      var id := Signed32(irq);
      if id < NIRQ {
        if id < 0 { return rc, true; }
        var status := DisableAll();
        Pushed(old(entered), Context(status));
        WriteHandler(id, isr);
        if isr != 0 {
          rc := Enable(id);
        } else {
          rc := Disable(id);
        }
        EnableAll(status);
      }
    }
  }

  // ---------------------------------------------------------------- the dispatch loop

  /** Tests the bits from the lowest; ends because some interrupt is active. */
  method Scan(active: set<int>) returns (i: int)
    requires active != {} && active <= Below(NIRQ)
    ensures i == Least(active)
  {
    i := 0;
    while i !in active
      invariant i <= Least(active)
      decreases Least(active) - i
    {
      i := i + 1;
    }
  }

  // One pass of the loop: what the handler does until it returns, and the lines asserted at that moment.
  datatype Pass = Pass(body: seq<Event>, lines: set<int>)

  function Trace(passes: seq<Pass>): seq<Event> {
    if passes == [] then []
    else
      var last := passes[|passes| - 1];
      Trace(passes[..|passes| - 1]) + last.body + [Return(last.lines)]
  }

  lemma TraceStep(s: State, passes: seq<Pass>, n: nat)
    requires Inv(s) && n < |passes|
    ensures RunFrom(s, Trace(passes[..n + 1]))
         == Apply(RunFrom(RunFrom(s, Trace(passes[..n])), passes[n].body), Return(passes[n].lines))
  {
    assert passes[..n + 1][..n] == passes[..n];
    Then(s, Trace(passes[..n]) + passes[n].body, Return(passes[n].lines));
    RunAppend(s, Trace(passes[..n]), passes[n].body);
  }

  lemma RunEmpty(s: State)
    requires Inv(s)
    ensures RunFrom(s, []) == s
  {
  }

  lemma {:induction false} RunAppend(s: State, es: seq<Event>, fs: seq<Event>)
    requires Inv(s)
    ensures RunFrom(s, es + fs) == RunFrom(RunFrom(s, es), fs)
    decreases |fs|
  {
    hide *;
    var u := RunFrom(s, es);
    if fs == [] {
      assert es + fs == es;
      RunEmpty(u);
    } else {
      var front, last := fs[..|fs| - 1], fs[|fs| - 1];
      RunAppend(s, es, front);
      Then(s, es + front, last);
      Then(u, front, last);
      assert es + fs == es + front + [last];
      assert fs == front + [last];
    }
  }

  /** alt_irq_handler, entered when the processor takes an interrupt: each pass calls the handler of the first pending
      interrupt, reads the pending interrupts again, and goes on until there is none. The loop leaves early only when
      the handler under way does not return. */
  method Handler(s0: State, lines: set<int>, passes: seq<Pass>) returns (s: State, n: nat, finished: bool)
    requires Inv(s0) && Callable(s0, Interrupt(lines))
    ensures n <= |passes| && s == RunFrom(Apply(s0, Interrupt(lines)), Trace(passes[..n]))
    ensures finished ==> s.pie && n > 0 && passes[n - 1].lines * s.ienable == {}
    ensures n < |passes| && !finished ==> !Callable(RunFrom(s, passes[n].body), Return(passes[n].lines))
  {
    var pending := lines * s0.ienable;
    PendingInTable(s0, lines);
    var i := Scan(pending);
    s := s0.(pie := false, stack := s0.stack + [Isr(i)]);
    n, finished := 0, false;
    ghost var entry := Apply(s0, Interrupt(lines));
    assert s == entry && Trace(passes[..0]) == [] && RunFrom(entry, []) == entry;
    hide Callable, Inv, Least, Trace, RunFrom, Below, Apply;
    while n < |passes| && !finished
      invariant n <= |passes| && s == RunFrom(entry, Trace(passes[..n]))
      invariant finished ==> s.pie && n > 0 && passes[n - 1].lines * s.ienable == {}
    {
      TraceStep(entry, passes, n);
      var u := RunFrom(s, passes[n].body);
      if !Callable(u, Return(passes[n].lines)) {
        return;
      }
      Returns(u, passes[n].lines);
      pending := passes[n].lines * u.ienable;
      if pending == {} {
        s := u.(stack := Under(u.stack), pie := true);
        finished := true;
      } else {
        i := Scan(pending);
        s := u.(pie := false, stack := Under(u.stack) + [Isr(i)]);
      }
      n := n + 1;
    }
  }

  lemma PendingInTable(s: State, lines: set<int>)
    requires Inv(s)
    ensures lines * s.ienable <= Below(NIRQ)
  {
  }

  lemma Returns(s: State, lines: set<int>)
    requires Inv(s) && Callable(s, Return(lines))
    ensures s.stack != [] && lines * s.ienable <= Below(NIRQ)
    ensures Apply(s, Return(lines)) == Dispatched(s.(stack := Under(s.stack)), lines * s.ienable)
  {
  }
}
