/**
 * Runs of one processor that interrupts nest on.  The code between the entry of an interrupt
 * and its handlers, and from the handlers to its end, runs with interrupts off, so each is
 * one step; while handlers run, other interrupts may come in and drivers may change lines.
 */
module IrqRuns {
  import opened IrqModel

  datatype Event =
    | Arrived(irq: IrqNo)      // came in on a line that can serve it: handlers run or will run again
    | Deferred(irq: IrqNo)     // came in on a disabled or stuck line
    | Orphaned(irq: IrqNo)     // came in on an enabled idle line without handlers
    | Started(irq: IrqNo)      // the line's chain of handlers started

  /** A live activation of a line's handlers, with the chain runs and nested arrivals it has seen. */
  datatype Frame = Frame(irq: IrqNo, open: bool, runs: nat, nested: nat)

  datatype System = System(dev: Device, stack: seq<Frame>, log: seq<Event>)

  datatype Step =
    | Interrupt(line: IrqNo)
    | Finish
    | SetActions(line: IrqNo, actions: seq<Action>)
    | SetDisabled(line: IrqNo, disabled: bool)
    | Unmask(line: IrqNo)
    | Mask(line: IrqNo)
    | Signal(line: IrqNo)

  function Top(s: System): Frame
    requires s.stack != []
  {
    s.stack[|s.stack| - 1]
  }

  predicate Enabled(s: System, step: Step) {
    match step
    case Interrupt(irq) => s.stack == [] || Top(s).open
    case Finish => s.stack != []
    case _ => true
  }

  predicate Live(s: System, irq: IrqNo) {
    exists i :: 0 <= i < |s.stack| && s.stack[i].irq == irq
  }

  /** Counts an arrival in the activation of its line, if there is one. */
  function Noted(stack: seq<Frame>, irq: IrqNo): (r: seq<Frame>)
    ensures |r| == |stack|
    ensures forall i :: 0 <= i < |r| ==>
              r[i].irq == stack[i].irq && r[i].runs == stack[i].runs && r[i].open == stack[i].open
    ensures forall i :: 0 <= i < |r| ==> r[i].nested == stack[i].nested + if stack[i].irq == irq then 1 else 0
  {
    seq(|stack|, i requires 0 <= i < |stack| =>
      if stack[i].irq == irq then stack[i].(nested := stack[i].nested + 1) else stack[i])
  }

  function Next(s: System, step: Step): System
    requires DeviceOk(s.dev) && Enabled(s, step)
  {
    match step
    case Interrupt(irq) => Arrive(s, irq)
    case Finish => FinishTop(s)
    case SetActions(irq, actions) =>
      s.(dev := s.dev.(lines := s.dev.lines[irq := s.dev.lines[irq].(actions := actions)]))
    case SetDisabled(irq, disabled) =>
      s.(dev := s.dev.(lines := s.dev.lines[irq := s.dev.lines[irq].(disabled := disabled)]))
    case Unmask(irq) => s.(dev := s.dev.(pic := Enable(s.dev.pic, irq)))
    case Mask(irq) => s.(dev := s.dev.(pic := Disable(s.dev.pic, irq)))
    case Signal(irq) => s.(dev := s.dev.(pic := Raise(s.dev.pic, irq)))
  }

  /** `do_IRQ` is entered; if the line's handlers are to run, a new activation starts. */
  function Arrive(s: System, irq: IrqNo): System
    requires DeviceOk(s.dev)
  {
    var line := s.dev.lines[irq];
    var (dev, run) := Entry(s.dev, irq);
    if run then
      System(dev, s.stack + [Frame(irq, !line.actions[0].saInterrupt, 1, 0)], s.log + [Arrived(irq), Started(irq)])
    else
      System(dev, Noted(s.stack, irq),
             s.log + [if Live(s, irq) then Arrived(irq)
                      else if line.disabled || line.inProgress then Deferred(irq)
                      else Orphaned(irq)])
  }

  /** The topmost chain of handlers returns: it runs again, or its activation ends. */
  function FinishTop(s: System): System
    requires DeviceOk(s.dev) && s.stack != []
  {
    var f, below := Top(s), s.stack[..|s.stack| - 1];
    var (dev, again) := AfterChain(s.dev, f.irq);
    if again then System(dev, below + [f.(runs := f.runs + 1)], s.log + [Started(f.irq)])
    else System(dev, below, s.log)
  }

  /** Some arrival's chain run came after position `k` of the log. */
  ghost predicate StartedAfter(log: seq<Event>, irq: IrqNo, k: nat) {
    exists m :: k < m < |log| && log[m] == Started(irq)
  }

  ghost predicate Stuck(s: System, irq: IrqNo) {
    Orphaned(irq) in s.log
  }

  ghost predicate OneActivation(s: System) {
    forall i, j :: 0 <= i < j < |s.stack| ==> s.stack[i].irq != s.stack[j].irq
  }

  /** A frame has run at least once, and no more often than once plus its nested arrivals. */
  ghost predicate FrameOk(s: System, f: Frame)
    requires DeviceOk(s.dev)
  {
    && s.dev.lines[f.irq].inProgress && !Stuck(s, f.irq)
    && 1 <= f.runs && f.runs + (if s.dev.lines[f.irq].pending then 1 else 0) <= 1 + f.nested
  }

  ghost predicate ArrivalOk(s: System, k: nat)
    requires DeviceOk(s.dev) && k < |s.log|
  {
    s.log[k].Arrived? ==>
      StartedAfter(s.log, s.log[k].irq, k)
      || (Live(s, s.log[k].irq) && s.dev.lines[s.log[k].irq].pending)
  }

  ghost predicate SystemOk(s: System) {
    && DeviceOk(s.dev) && Coherent(s.dev.pic)
    && OneActivation(s)
    && (forall f :: f in s.stack ==> FrameOk(s, f))
    && (forall irq: IrqNo :: (s.dev.lines[irq].inProgress <==> Live(s, irq) || Stuck(s, irq)))
    && (forall k :: 0 <= k < |s.log| ==> ArrivalOk(s, k))
  }

  // ---------- every step keeps the invariant ----------

  lemma LogGrows(log: seq<Event>, more: seq<Event>, irq: IrqNo, k: nat)
    requires StartedAfter(log, irq, k)
    ensures StartedAfter(log + more, irq, k)
  {
    var m :| k < m < |log| && log[m] == Started(irq);
    assert (log + more)[m] == Started(irq);
  }

  /** An activation starts: the line was enabled, idle and has handlers. */
  lemma StartKeeps(s: System, irq: IrqNo)
    requires SystemOk(s) && Entry(s.dev, irq).1
    ensures SystemOk(Arrive(s, irq))
  {
    var t := Arrive(s, irq);
    CoherentKept(s.dev.pic, s.dev.lines[irq], irq);
    assert !Live(s, irq) && !Stuck(s, irq);
    assert t.stack[|s.stack|].irq == irq;
    forall other: IrqNo
      ensures Live(t, other) <==> Live(s, other) || other == irq
      ensures Stuck(t, other) <==> Stuck(s, other)
    {
      if i :| 0 <= i < |s.stack| && s.stack[i].irq == other {
        assert t.stack[i].irq == other;
      }
    }
    forall f | f in t.stack ensures FrameOk(t, f) {
    }
    forall k | 0 <= k < |t.log| ensures ArrivalOk(t, k) {
      if k < |s.log| {
        assert ArrivalOk(s, k) && t.log[k] == s.log[k];
        if s.log[k].Arrived? && StartedAfter(s.log, s.log[k].irq, k) {
          LogGrows(s.log, [Arrived(irq), Started(irq)], s.log[k].irq, k);
        }
      } else {
        assert t.log[|s.log| + 1] == Started(irq);
      }
    }
  }

  /** An arrival that starts nothing: it is noted by the live activation, deferred, or gets the line stuck. */
  lemma NoStartKeeps(s: System, irq: IrqNo)
    requires SystemOk(s) && !Entry(s.dev, irq).1
    ensures SystemOk(Arrive(s, irq))
  {
    var t := Arrive(s, irq);
    var line := s.dev.lines[irq];
    CoherentKept(s.dev.pic, line, irq);
    CoherentKept(MaskAndAck(s.dev.pic, irq), t.dev.lines[irq], irq);
    forall other: IrqNo
      ensures Live(t, other) <==> Live(s, other)
      ensures Stuck(t, other) <==> Stuck(s, other) || (other == irq && !line.disabled && !line.inProgress)
    {
      SameLive(s, t, other);
    }
    forall f | f in t.stack ensures FrameOk(t, f) {
      var i :| 0 <= i < |t.stack| && t.stack[i] == f;
      assert s.stack[i] in s.stack && FrameOk(s, s.stack[i]);
    }
    forall k | 0 <= k < |t.log| ensures ArrivalOk(t, k) {
      if k < |s.log| {
        assert ArrivalOk(s, k) && t.log[k] == s.log[k];
        if s.log[k].Arrived? && StartedAfter(s.log, s.log[k].irq, k) {
          LogGrows(s.log, t.log[|s.log|..], s.log[k].irq, k);
        }
      }
    }
  }

  lemma SameLive(s: System, t: System, irq: IrqNo)
    requires |t.stack| == |s.stack| && forall i :: 0 <= i < |s.stack| ==> t.stack[i].irq == s.stack[i].irq
    ensures Live(t, irq) <==> Live(s, irq)
  {
  }

  lemma AgainKeeps(s: System)
    requires SystemOk(s) && s.stack != [] && s.dev.lines[Top(s).irq].pending
    ensures SystemOk(FinishTop(s))
  {
    var t, f := FinishTop(s), Top(s);
    assert f in s.stack && FrameOk(s, f);
    forall other: IrqNo
      ensures Live(t, other) <==> Live(s, other)
      ensures Stuck(t, other) <==> Stuck(s, other)
    {
      SameLive(s, t, other);
    }
    forall g | g in t.stack ensures FrameOk(t, g) {
      var i :| 0 <= i < |t.stack| && t.stack[i] == g;
      assert s.stack[i] in s.stack && FrameOk(s, s.stack[i]);
    }
    assert t.log[|s.log|] == Started(f.irq);
    forall k | 0 <= k < |t.log| ensures ArrivalOk(t, k) {
      if k < |s.log| {
        assert ArrivalOk(s, k) && t.log[k] == s.log[k];
        if s.log[k].Arrived? && StartedAfter(s.log, s.log[k].irq, k) {
          LogGrows(s.log, [Started(f.irq)], s.log[k].irq, k);
        }
      }
    }
  }

  lemma EndKeeps(s: System)
    requires SystemOk(s) && s.stack != [] && !s.dev.lines[Top(s).irq].pending
    ensures SystemOk(FinishTop(s)) && !Live(FinishTop(s), Top(s).irq)
  {
    var t, f := FinishTop(s), Top(s);
    assert f in s.stack && FrameOk(s, f);
    CoherentKept(s.dev.pic, t.dev.lines[f.irq], f.irq);
    forall other: IrqNo
      ensures Live(t, other) <==> Live(s, other) && other != f.irq
    {
      if i :| 0 <= i < |s.stack| && s.stack[i].irq == other && other != f.irq {
        assert t.stack[i].irq == other;
      }
    }
    forall g | g in t.stack ensures FrameOk(t, g) {
      assert g in s.stack && FrameOk(s, g);
    }
    forall k | 0 <= k < |t.log| ensures ArrivalOk(t, k) {
      assert ArrivalOk(s, k);
    }
  }

  /** Drivers change handlers, flags other than the status of an activation, and the mask. */
  lemma DriverKeeps(s: System, step: Step)
    requires SystemOk(s) && Enabled(s, step) && !step.Interrupt? && !step.Finish?
    ensures SystemOk(Next(s, step))
  {
    var t := Next(s, step);
    CoherentKept(s.dev.pic, s.dev.lines[step.line], step.line);
    assert forall irq: IrqNo :: Live(t, irq) == Live(s, irq);
    forall f | f in t.stack ensures FrameOk(t, f) {
      assert FrameOk(s, f);
    }
    forall k | 0 <= k < |t.log| ensures ArrivalOk(t, k) {
      assert ArrivalOk(s, k);
    }
  }

  lemma StepKeeps(s: System, step: Step)
    requires SystemOk(s) && Enabled(s, step)
    ensures SystemOk(Next(s, step))
  {
    match step
    case Interrupt(irq) =>
      if Entry(s.dev, irq).1 { StartKeeps(s, irq); } else { NoStartKeeps(s, irq); }
    case Finish =>
      if s.dev.lines[Top(s).irq].pending { AgainKeeps(s); } else { EndKeeps(s); }
    case _ => DriverKeeps(s, step);
  }

  // ---------- runs ----------

  ghost predicate Possible(s: System, steps: seq<Step>)
    requires SystemOk(s)
    decreases |steps|
  {
    steps == [] || (Enabled(s, steps[0]) && (StepKeeps(s, steps[0]); Possible(Next(s, steps[0]), steps[1..])))
  }

  ghost function Run(s: System, steps: seq<Step>): (t: System)
    requires SystemOk(s) && Possible(s, steps)
    ensures SystemOk(t)
    decreases |steps|
  {
    if steps == [] then s else
      StepKeeps(s, steps[0]);
      Run(Next(s, steps[0]), steps[1..])
  }

  const START := System(Initial(), [], [])

  /**
   * After any run from initialisation: no line has two live activations; the mask ports show
   * the cached mask; every live activation has run its chain between once and once more than
   * the arrivals it has seen; and every arrival on a line that can serve it is followed by a
   * chain run that started after it, or will be, since its line is live and pending.
   */
  lemma RunsAreSafe(steps: seq<Step>)
    requires Possible(START, steps)
    ensures var t := Run(START, steps);
            && OneActivation(t) && Coherent(t.dev.pic)
            && (forall f :: f in t.stack ==> 1 <= f.runs <= 1 + f.nested)
            && forall k :: 0 <= k < |t.log| && t.log[k].Arrived? ==>
                 StartedAfter(t.log, t.log[k].irq, k)
                 || (Live(t, t.log[k].irq) && t.dev.lines[t.log[k].irq].pending)
  {
    var t := Run(START, steps);
    forall f | f in t.stack ensures 1 <= f.runs <= 1 + f.nested {
      assert FrameOk(t, f);
    }
    forall k | 0 <= k < |t.log| && t.log[k].Arrived?
      ensures StartedAfter(t.log, t.log[k].irq, k) || (Live(t, t.log[k].irq) && t.dev.lines[t.log[k].irq].pending)
    {
      assert ArrivalOk(t, k);
    }
  }

  function Finishes(n: nat): seq<Step> {
    seq(n, _ => Finish)
  }

  /** A line with an outstanding second run needs one step more. */
  function Pending(lines: seq<Line>): nat {
    if lines == [] then 0 else (if lines[0].pending then 1 else 0) + Pending(lines[1..])
  }

  lemma {:induction false} PendingUpdate(lines: seq<Line>, i: nat, line: Line)
    requires i < |lines|
    ensures Pending(lines[i := line])
            == Pending(lines) - (if lines[i].pending then 1 else 0) + (if line.pending then 1 else 0)
  {
    if i == 0 {
      assert lines[0 := line][1..] == lines[1..];
    } else {
      assert lines[i := line][1..] == lines[1..][i - 1 := line];
      PendingUpdate(lines[1..], i - 1, line);
    }
  }

  /**
   * Once no more interrupts come, the handlers returning is enough to end all activations,
   * and then every arrival on a line that could serve it has been followed by a chain run.
   */
  lemma {:induction false} Drains(s: System) returns (n: nat)
    requires SystemOk(s)
    ensures Possible(s, Finishes(n)) && n <= |s.stack| + Pending(s.dev.lines)
    ensures var t := Run(s, Finishes(n));
            && t.stack == []
            && forall k :: 0 <= k < |t.log| && t.log[k].Arrived? ==> StartedAfter(t.log, t.log[k].irq, k)
    decreases |s.stack| + Pending(s.dev.lines)
  {
    if s.stack == [] {
      n := 0;
      forall k | 0 <= k < |s.log| && s.log[k].Arrived? ensures StartedAfter(s.log, s.log[k].irq, k) {
        assert ArrivalOk(s, k);
      }
    } else {
      var f := Top(s);
      assert f in s.stack && FrameOk(s, f);
      StepKeeps(s, Finish);
      var t := Next(s, Finish);
      PendingUpdate(s.dev.lines, f.irq, t.dev.lines[f.irq]);
      var m := Drains(t);
      n := m + 1;
      assert Finishes(n)[1..] == Finishes(m);
    }
  }

  /**
   * The in-progress flag of an idle line tells the truth exactly as long as no interrupt came
   * in while the line was enabled without handlers.
   */
  lemma IdleFlagIff(steps: seq<Step>, irq: IrqNo)
    requires Possible(START, steps) && !Live(Run(START, steps), irq)
    ensures var t := Run(START, steps); !t.dev.lines[irq].inProgress <==> Orphaned(irq) !in t.log
  {
  }

  /** From then on the line is lost: whatever follows, its handlers never start again. */
  lemma {:induction false} StuckForever(s: System, steps: seq<Step>, irq: IrqNo)
    requires SystemOk(s) && Possible(s, steps) && Stuck(s, irq)
    ensures var t := Run(s, steps);
            && Stuck(t, irq) && s.log <= t.log && forall k :: |s.log| <= k < |t.log| ==> t.log[k] != Started(irq)
    decreases |steps|
  {
    if steps != [] {
      StepKeeps(s, steps[0]);
      var t := Next(s, steps[0]);
      if steps[0].Finish? {
        assert Top(s) in s.stack && FrameOk(s, Top(s));
      }
      assert s.log <= t.log;
      assert t.log[..|s.log|] == s.log;
      assert Orphaned(irq) in t.log[..|s.log|];
      StuckForever(t, steps[1..], irq);
    }
  }

  /**
   * A line that is not live starts its handlers by its own next interrupt and nothing else: not
   * by being enabled with a deferred arrival pending.
   */
  lemma IdleStartsIff(s: System, step: Step, irq: IrqNo)
    requires SystemOk(s) && Enabled(s, step) && !Live(s, irq)
    ensures var t, line := Next(s, step), s.dev.lines[irq];
            && |t.log| >= |s.log| && t.log[..|s.log|] == s.log
            && (Started(irq) in t.log[|s.log|..]
                <==> step == Interrupt(irq) && !line.disabled && !Stuck(s, irq) && line.actions != [])
            && (step != Interrupt(irq) ==> !Live(t, irq) && t.dev.lines[irq].pending == line.pending)
  {
    if step.Finish? {
      assert Top(s) in s.stack && FrameOk(s, Top(s));
    }
    var t := Next(s, step);
    assert t.log[..|s.log|] == s.log;
  }

  /**
   * So a deferred arrival waits: until the line's next interrupt no run starts its handlers,
   * and what is pending stays pending.
   */
  lemma {:induction false} DeferredWaits(s: System, steps: seq<Step>, irq: IrqNo)
    requires SystemOk(s) && Possible(s, steps) && !Live(s, irq) && Interrupt(irq) !in steps
    ensures var t := Run(s, steps);
            && !Live(t, irq) && t.dev.lines[irq].pending == s.dev.lines[irq].pending
            && s.log <= t.log && Started(irq) !in t.log[|s.log|..]
    decreases |steps|
  {
    if steps != [] {
      StepKeeps(s, steps[0]);
      IdleStartsIff(s, steps[0], irq);
      var m := Next(s, steps[0]);
      DeferredWaits(m, steps[1..], irq);
      var t := Run(m, steps[1..]);
      assert t.log[|s.log|..] == m.log[|s.log|..] + t.log[|m.log|..];
    }
  }

  /** The activation at `depth` stays live throughout. */
  ghost predicate StaysAbove(s: System, steps: seq<Step>, depth: nat)
    requires SystemOk(s) && Possible(s, steps)
    decreases |steps|
  {
    |s.stack| > depth && (steps == [] || (StepKeeps(s, steps[0]); StaysAbove(Next(s, steps[0]), steps[1..], depth)))
  }

  /**
   * An activation that ends leaves its line unmasked, provided nobody disables the line while
   * it is live, whatever else nests on it.
   */
  lemma {:induction false} EndsUnmasked(s: System, steps: seq<Step>, depth: nat, irq: IrqNo)
    requires SystemOk(s) && Possible(s, steps) && StaysAbove(s, steps, depth)
    requires s.stack[depth].irq == irq && !s.dev.lines[irq].disabled
    requires SetDisabled(irq, true) !in steps
    ensures var t := Run(s, steps);
            && |t.stack| > depth && t.stack[depth].irq == irq
            && (|t.stack| == depth + 1 && !t.dev.lines[irq].pending ==>
              !Next(t, Finish).dev.pic.mask[irq] && |Next(t, Finish).stack| == depth)
    decreases |steps|
  {
    if steps == [] {
      assert s.stack[depth] in s.stack && FrameOk(s, s.stack[depth]);
    } else {
      StepKeeps(s, steps[0]);
      var t := Next(s, steps[0]);
      if steps[0].Finish? {
        assert Top(s) in s.stack && FrameOk(s, Top(s));
      }
      assert t.stack[depth].irq == irq;
      assert steps[0] in steps;
      EndsUnmasked(t, steps[1..], depth, irq);
    }
  }

  /** From its entry to its end an activation's line stays masked, unless a driver unmasks it. */
  lemma {:induction false} MaskedWhileLive(s: System, steps: seq<Step>, depth: nat, irq: IrqNo)
    requires SystemOk(s) && Possible(s, steps) && StaysAbove(s, steps, depth)
    requires s.stack[depth].irq == irq && s.dev.pic.mask[irq] && Unmask(irq) !in steps
    ensures Run(s, steps).dev.pic.mask[irq]
    decreases |steps|
  {
    if steps != [] {
      StepKeeps(s, steps[0]);
      var t := Next(s, steps[0]);
      assert steps[0] in steps;
      if steps[0].Interrupt? {
        EntryMasks(s.dev, steps[0].line);
      }
      assert t.stack[depth].irq == irq;
      MaskedWhileLive(t, steps[1..], depth, irq);
    }
  }

  // ---------- what stays the driver's ----------

  /** A line's `disabled` flag and handlers change by a driver's call only. */
  lemma {:induction false} FlagsKept(s: System, steps: seq<Step>, irq: IrqNo)
    requires SystemOk(s) && Possible(s, steps)
    ensures var t := Run(s, steps);
            && ((forall b :: SetDisabled(irq, b) !in steps) ==>
                  t.dev.lines[irq].disabled == s.dev.lines[irq].disabled)
            && (SetDisabled(irq, true) !in steps && !s.dev.lines[irq].disabled ==> !t.dev.lines[irq].disabled)
            && ((forall a :: SetActions(irq, a) !in steps) ==>
                  t.dev.lines[irq].actions == s.dev.lines[irq].actions)
    decreases |steps|
  {
    if steps != [] {
      StepKeeps(s, steps[0]);
      FlagsStep(s, steps[0], irq);
      assert steps[0] in steps;
      FlagsKept(Next(s, steps[0]), steps[1..], irq);
    }
  }

  lemma FlagsStep(s: System, step: Step, irq: IrqNo)
    requires SystemOk(s) && Enabled(s, step)
    ensures var line, after := s.dev.lines[irq], Next(s, step).dev.lines[irq];
            && after.disabled == (if step.SetDisabled? && step.line == irq then step.disabled else line.disabled)
            && after.actions == (if step.SetActions? && step.line == irq then step.actions else line.actions)
  {
    match step
    case Interrupt(j) => EntryExact(s.dev, j);
    case Finish => AfterChainExact(s.dev, Top(s).irq);
    case _ =>
  }

  /**
   * From one interrupt to the next: an interrupt on an enabled, idle line with handlers starts
   * them; if its activation then ends after any run in which nobody disables the line, the line
   * is left idle, enabled and unmasked; and if it still has handlers, its next interrupt starts
   * them again.
   */
  lemma ServesAgain(s: System, steps: seq<Step>, irq: IrqNo)
    requires SystemOk(s) && Enabled(s, Interrupt(irq)) && !Live(s, irq) && !Stuck(s, irq)
    requires !s.dev.lines[irq].disabled && s.dev.lines[irq].actions != []
    requires var s1 := Next(s, Interrupt(irq));
             SystemOk(s1) && Possible(s1, steps) && StaysAbove(s1, steps, |s.stack|)
    requires SetDisabled(irq, true) !in steps
    ensures var s1 := Next(s, Interrupt(irq)); s1.log == s.log + [Arrived(irq), Started(irq)]
    ensures var t := Run(Next(s, Interrupt(irq)), steps);
            |t.stack| == |s.stack| + 1 && !t.dev.lines[irq].pending ==>
              var u := Next(t, Finish);
              && |u.stack| == |s.stack| && !Live(u, irq) && !u.dev.pic.mask[irq] && !u.dev.lines[irq].disabled
              && ((forall a :: SetActions(irq, a) !in steps) ==> u.dev.lines[irq].actions == s.dev.lines[irq].actions)
              && (u.dev.lines[irq].actions != [] && Enabled(u, Interrupt(irq)) ==>
                    Next(u, Interrupt(irq)).log == u.log + [Arrived(irq), Started(irq)])
  {
    var s1 := Next(s, Interrupt(irq));
    EntryExact(s.dev, irq);
    EndsUnmasked(s1, steps, |s.stack|, irq);
    FlagsKept(s1, steps, irq);
    var t := Run(s1, steps);
    if |t.stack| == |s.stack| + 1 && !t.dev.lines[irq].pending {
      assert Top(t) in t.stack && FrameOk(t, Top(t));
      EndKeeps(t);
      AfterChainExact(t.dev, irq);
      EntryExact(Next(t, Finish).dev, irq);
    }
  }

  /** An activation whose line was disabled meanwhile ends with the line still masked, if nobody unmasked it. */
  lemma EndsMasked(s: System)
    requires SystemOk(s) && s.stack != []
    ensures var irq := Top(s).irq;
            !s.dev.lines[irq].pending && s.dev.lines[irq].disabled ==>
              Next(s, Finish).dev.pic.mask[irq] == s.dev.pic.mask[irq]
  {
    AfterChainExact(s.dev, Top(s).irq);
  }

  /** While a line's handlers run, others may interrupt exactly if the first does not ask for SA_INTERRUPT. */
  lemma NestsIff(s: System, irq: IrqNo, other: IrqNo)
    requires SystemOk(s) && Enabled(s, Interrupt(irq)) && Entry(s.dev, irq).1
    ensures s.dev.lines[irq].actions != []
    ensures Enabled(Next(s, Interrupt(irq)), Interrupt(other)) <==> !s.dev.lines[irq].actions[0].saInterrupt
  {
  }

  /** All activations but the topmost let others in. */
  ghost predicate OpenBelow(s: System) {
    forall i :: 0 <= i < |s.stack| - 1 ==> s.stack[i].open
  }

  /** So it stays over every run, and an activation keeps what it was entered with. */
  lemma {:induction false} NestingKept(s: System, steps: seq<Step>, depth: nat)
    requires SystemOk(s) && OpenBelow(s) && Possible(s, steps)
    ensures OpenBelow(Run(s, steps))
    ensures var t := Run(s, steps);
            StaysAbove(s, steps, depth) ==> |t.stack| > depth && t.stack[depth].open == s.stack[depth].open
    decreases |steps|
  {
    if steps != [] {
      StepKeeps(s, steps[0]);
      NestingKept(Next(s, steps[0]), steps[1..], depth);
    }
  }
}
