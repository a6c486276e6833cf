/** A parent process that starts the service, probes it, and replaces it when it hangs. Times are in seconds. */
module ServiceSupervisor {

  datatype Limits = Limits(startup: int, failures: int)

  /** What the parent meets next. A tick carries the time since the previous one and the result of the probe. */
  datatype Input =
    | StartFails
    | Starts
    | Tick(passed: nat, ok: bool, dies: bool)
    | Exits
    | BadRequest
    | Cancelled(exits: bool)

  /** What the parent did or saw; a probe is logged with the age of the child. */
  datatype Event =
    | Started
    | Probed(ok: bool, age: nat)
    | KilledHung
    | Signalled
    | Killed
    | Reaped

  /** The number of children started and not yet reaped. */
  function Living(log: seq<Event>): int {
    if log == [] then 0
    else Living(log[..|log| - 1]) + match log[|log| - 1] case Started => 1 case Reaped => -1 case _ => 0
  }

  /** The current child has answered at least once. */
  predicate Answered(log: seq<Event>) {
    log != [] && match log[|log| - 1]
                 case Started => false
                 case Probed(ok, _) => ok || Answered(log[..|log| - 1])
                 case _ => Answered(log[..|log| - 1])
  }

  /** How old the current child was at its latest probe. */
  function Age(log: seq<Event>): nat {
    if log == [] then 0
    else match log[|log| - 1]
         case Started => 0
         case Probed(_, age) => age
         case _ => Age(log[..|log| - 1])
  }

  /** A failed probe counts after the first success, or once the startup allowance is over. */
  predicate Counted(log: seq<Event>, age: nat, limits: Limits) {
    Answered(log) || age >= limits.startup
  }

  /** How many counted failures stand at the end of the log, one directly after another. */
  function Streak(log: seq<Event>, limits: Limits): nat {
    if log == [] then 0
    else
      var before, last := log[..|log| - 1], log[|log| - 1];
      if last.Probed? && !last.ok && Counted(before, last.age, limits) then Streak(before, limits) + 1 else 0
  }

  function Patience(limits: Limits): nat { if limits.failures < 1 then 1 else limits.failures }

  // --- What the parent does, read off the log alone ------------------------------------------------

  datatype Phase = Idle | Up | Over

  datatype Parent = Parent(phase: Phase, log: seq<Event>)

  function React(p: Parent, input: Input, limits: Limits): Parent {
    match p.phase
    case Over => p
    case Idle =>
      (match input
       case Starts => Parent(Up, p.log + [Started])
       case StartFails | Cancelled(_) => Parent(Over, p.log)
       case _ => p)
    case Up =>
      (match input
       case Cancelled(exits) => Parent(Over, (if exits then p.log + [Signalled] else p.log + [Signalled] + [Killed]) + [Reaped])
       case Exits => Parent(Idle, p.log + [Reaped])
       case BadRequest => Parent(Over, p.log + [Killed] + [Reaped])
       case Tick(passed, ok, dies) =>
         var log := p.log + [Probed(ok, Age(p.log) + passed)];
         if Streak(log, limits) < Patience(limits) then Parent(Up, log)
         else if dies then Parent(Idle, log + [KilledHung] + [Reaped])
         else Parent(Over, log + [KilledHung])
       case _ => p)
  }

  function ReactAll(inputs: seq<Input>, limits: Limits): Parent {
    if inputs == [] then Parent(Idle, [])
    else React(ReactAll(inputs[..|inputs| - 1], limits), inputs[|inputs| - 1], limits)
  }

  lemma ReactNext(inputs: seq<Input>, limits: Limits, i: nat)
    requires i < |inputs|
    ensures ReactAll(inputs[..i + 1], limits) == React(ReactAll(inputs[..i], limits), inputs[i], limits)
  {
    assert inputs[..i + 1][..i] == inputs[..i];
  }

  /** Once the parent has returned, nothing more happens. */
  lemma {:induction false} OverIsOver(inputs: seq<Input>, limits: Limits, n: nat)
    requires n <= |inputs| && ReactAll(inputs[..n], limits).phase.Over?
    ensures ReactAll(inputs, limits) == ReactAll(inputs[..n], limits)
  {
    if n == |inputs| {
      assert inputs[..n] == inputs;
    } else {
      var init := inputs[..|inputs| - 1];
      assert init[..n] == inputs[..n];
      OverIsOver(init, limits, n);
    }
  }

  /** A child is started only when none is alive, and killed as hung exactly when patience has run out. */
  predicate Proper(log: seq<Event>, limits: Limits) {
    forall n :: 0 <= n < |log| ==> ProperAt(log, n, limits)
  }

  predicate ProperAt(log: seq<Event>, n: nat, limits: Limits)
    requires n < |log|
  {
    && 0 <= Living(log[..n + 1]) <= 1
    && (log[n].Started? ==> Living(log[..n]) == 0)
    && (log[n].KilledHung? <==> Streak(log[..n], limits) >= Patience(limits))
  }

  lemma Extend(log: seq<Event>, e: Event, limits: Limits)
    requires Proper(log, limits)
    requires 0 <= Living(log + [e]) <= 1 && (e.Started? ==> Living(log) == 0)
    requires e.KilledHung? <==> Streak(log, limits) >= Patience(limits)
    ensures Proper(log + [e], limits)
  {
    var longer := log + [e];
    forall n | 0 <= n < |longer|
      ensures ProperAt(longer, n, limits)
    {
      if n < |log| {
        assert ProperAt(log, n, limits);
        assert longer[..n] == log[..n] && longer[..n + 1] == log[..n + 1];
      } else {
        assert longer[..n] == log && longer[..n + 1] == longer;
      }
    }
  }

  /** What one more event does to the three readings of the log. */
  lemma Readings(log: seq<Event>, e: Event, limits: Limits)
    ensures Living(log + [e]) == Living(log) + match e case Started => 1 case Reaped => -1 case _ => 0
    ensures Answered(log + [e]) == match e case Started => false case Probed(ok, _) => ok || Answered(log) case _ => Answered(log)
    ensures Streak(log + [e], limits) ==
            if e.Probed? && !e.ok && Counted(log, e.age, limits) then Streak(log, limits) + 1 else 0
    ensures Age(log + [e]) == match e case Started => 0 case Probed(_, age) => age case _ => Age(log)
  {
    assert (log + [e])[..|log|] == log;
  }

  /**
   * Runs the service for as long as there are inputs. The counters the parent keeps lead to exactly what the
   * log calls for, and the log is proper at every point.
   */
  method Supervise(inputs: seq<Input>, limits: Limits) returns (log: seq<Event>)
    ensures log == ReactAll(inputs, limits).log && Proper(log, limits)
  {
    log := [];
    var i := 0;
    while i < |inputs|
      invariant i <= |inputs| && Proper(log, limits) && Living(log) == 0 && Streak(log, limits) == 0
      invariant ReactAll(inputs[..i], limits) == Parent(Idle, log)
      decreases |inputs| - i
    {
      ReactNext(inputs, limits, i);
      if inputs[i].StartFails? || inputs[i].Cancelled? {
        OverIsOver(inputs, limits, i + 1);
        return;
      }
      if inputs[i].Starts? {
        log := Note(log, Started, limits);
        var over;
        log, i, over := Watch(inputs, limits, i + 1, log);
        if over { return; }
      } else {
        i := i + 1;
      }
    }
    assert inputs[..i] == inputs;
  }

  /** Watches one child until it is gone; over means that the parent returned, or that no input is left. */
  method Watch(inputs: seq<Input>, limits: Limits, start: nat, before: seq<Event>)
      returns (log: seq<Event>, i: nat, over: bool)
    requires start <= |inputs| && Proper(before, limits) && Living(before) == 1
    requires Streak(before, limits) == 0 && !Answered(before) && Age(before) == 0
    requires ReactAll(inputs[..start], limits) == Parent(Up, before)
    ensures start <= i <= |inputs| && Proper(log, limits)
    ensures over ==> log == ReactAll(inputs, limits).log
    ensures !over ==> ReactAll(inputs[..i], limits) == Parent(Idle, log) && Living(log) == 0 && Streak(log, limits) == 0
  {
    log, i := before, start;
    var healthy, failures, age, running := false, 0, 0, true;
    while i < |inputs|
      invariant start <= i <= |inputs| && Proper(log, limits) && Living(log) == 1
      invariant ReactAll(inputs[..i], limits) == Parent(Up, log)
      invariant Tracks(log, limits, healthy, failures, age)
    {
      var input := inputs[i];
      ReactNext(inputs, limits, i);
      i := i + 1;
      if input.Tick? {
        log, healthy, failures, age, running := Probe(log, input, limits, healthy, failures, age);
        over := !input.dies;
      } else if !input.Starts? && !input.StartFails? {
        log, over := Finish(log, input, limits);
        running := false;
      }
      if !running {
        if over { OverIsOver(inputs, limits, i); }
        return;
      }
    }
    assert inputs[..i] == inputs;
    return log, i, true;
  }

  /** The counters the parent keeps say what the log says. */
  predicate Tracks(log: seq<Event>, limits: Limits, healthy: bool, failures: nat, age: nat) {
    && healthy == Answered(log) && failures == Streak(log, limits) < Patience(limits) && age == Age(log)
    && (failures > 0 ==> healthy || age >= limits.startup)
  }

  /** One tick: probe the child, count the failure if it counts, and kill the child when patience runs out. */
  method Probe(before: seq<Event>, input: Input, limits: Limits, wasHealthy: bool, count: nat, wasAge: nat)
      returns (log: seq<Event>, healthy: bool, failures: nat, age: nat, running: bool)
    requires Proper(before, limits) && Living(before) == 1 && Tracks(before, limits, wasHealthy, count, wasAge) && input.Tick?
    ensures Parent(if running then Up else if input.dies then Idle else Over, log) == React(Parent(Up, before), input, limits)
    ensures Proper(log, limits)
    ensures running ==> Living(log) == 1 && Tracks(log, limits, healthy, failures, age)
    ensures !running && input.dies ==> Living(log) == 0 && Streak(log, limits) == 0
  {
    var struck;
    log, healthy, failures, age, struck := Observe(before, input, limits, wasHealthy, count, wasAge);
    running := !(struck && failures >= limits.failures);
    if !running { log := KillHung(log, input.dies, limits); }
  }

  /** Probes the child and counts the failure if it counts: after a success, or once the startup allowance is over. */
  method Observe(before: seq<Event>, input: Input, limits: Limits, wasHealthy: bool, count: nat, wasAge: nat)
      returns (log: seq<Event>, healthy: bool, failures: nat, age: nat, struck: bool)
    requires Proper(before, limits) && Living(before) == 1 && Tracks(before, limits, wasHealthy, count, wasAge) && input.Tick?
    ensures log == before + [Probed(input.ok, Age(before) + input.passed)] && Proper(log, limits) && Living(log) == 1
    ensures healthy == Answered(log) && failures == Streak(log, limits) && age == Age(log)
    ensures struck == (failures > 0) && (struck ==> healthy || age >= limits.startup)
  {
    healthy, failures, age, struck := wasHealthy, count, wasAge + input.passed, false;
    log := Note(before, Probed(input.ok, age), limits);
    if input.ok {
      healthy, failures := true, 0;
    } else if healthy || age >= limits.startup {
      failures, struck := failures + 1, true;
    }
  }

  /** Kills the child once patience has run out, and waits for its end. */
  method KillHung(before: seq<Event>, dies: bool, limits: Limits) returns (log: seq<Event>)
    requires Proper(before, limits) && Living(before) == 1 && Streak(before, limits) >= Patience(limits)
    ensures log == if dies then before + [KilledHung] + [Reaped] else before + [KilledHung]
    ensures Proper(log, limits) && (dies ==> Living(log) == 0 && Streak(log, limits) == 0)
  {
    log := Note(before, KilledHung, limits);
    if dies { log := Note(log, Reaped, limits); }
  }

  /** The child exits on its own, or is stopped because the parent has to return. */
  method Finish(before: seq<Event>, input: Input, limits: Limits) returns (log: seq<Event>, over: bool)
    requires Proper(before, limits) && Living(before) == 1 && Streak(before, limits) < Patience(limits)
    requires input.Exits? || input.BadRequest? || input.Cancelled?
    ensures Parent(if over then Over else Idle, log) == React(Parent(Up, before), input, limits)
    ensures Proper(log, limits) && Living(log) == 0 && Streak(log, limits) == 0
  {
    log := before;
    if !input.Exits? { log := Stop(log, input, limits); }
    log := Note(log, Reaped, limits);
    over := !input.Exits?;
  }

  /** Signals the child, and kills it if that does not help; on a request that cannot be made it is killed at once. */
  method Stop(before: seq<Event>, input: Input, limits: Limits) returns (log: seq<Event>)
    requires Proper(before, limits) && Living(before) == 1 && Streak(before, limits) < Patience(limits)
    requires input.BadRequest? || input.Cancelled?
    ensures log == before + (if input.BadRequest? then [Killed] else if input.exits then [Signalled] else [Signalled] + [Killed])
    ensures Proper(log, limits) && Living(log) == 1 && Streak(log, limits) == 0
  {
    log := before;
    if input.Cancelled? {
      log := Note(log, Signalled, limits);
      if !input.exits { log := Note(log, Killed, limits); }
    } else {
      log := Note(log, Killed, limits);
    }
  }

  method Note(log: seq<Event>, e: Event, limits: Limits) returns (longer: seq<Event>)
    requires Proper(log, limits)
    requires e.Started? ==> Living(log) == 0
    requires !e.Started? ==> Living(log) == 1
    requires e.KilledHung? <==> Streak(log, limits) >= Patience(limits)
    ensures longer == log + [e] && Proper(longer, limits)
    ensures Living(longer) == Living(log) + match e case Started => 1 case Reaped => -1 case _ => 0
    ensures Answered(longer) == match e case Started => false case Probed(ok, _) => ok || Answered(log) case _ => Answered(log)
    ensures Streak(longer, limits) ==
            if e.Probed? && !e.ok && Counted(log, e.age, limits) then Streak(log, limits) + 1 else 0
    ensures Age(longer) == match e case Started => 0 case Probed(_, age) => age case _ => Age(log)
  {
    Readings(log, e, limits);
    Extend(log, e, limits);
    longer := log + [e];
  }

  /** A killed child had failed the configured number of probes in a row, none of them excused by its youth. */
  lemma {:induction false} KilledForCause(log: seq<Event>, n: nat, limits: Limits, back: nat)
    requires n < |log| && Streak(log[..n], limits) > back
    ensures back < n
    ensures var m := n - 1 - back; log[m].Probed? && !log[m].ok && Counted(log[..m], log[m].age, limits)
  {
    var prefix := log[..n];
    assert prefix != [];
    assert prefix[..n - 1] == log[..n - 1];
    if back > 0 { KilledForCause(log, n - 1, limits, back - 1); }
  }

  // --- What becomes of a child and of the parent -----------------------------------------------------------

  lemma OneMoreInput(inputs: seq<Input>, input: Input, limits: Limits)
    ensures ReactAll(inputs + [input], limits) == React(ReactAll(inputs, limits), input, limits)
  {
    assert (inputs + [input])[..|inputs|] == inputs;
  }

  /** A child that exits on its own is reaped and replaced by the next that starts. */
  lemma ExitIsReplaced(p: Parent, limits: Limits)
    requires p.phase.Up?
    ensures React(React(p, Exits, limits), Starts, limits) == Parent(Up, p.log + [Reaped] + [Started])
  {}

  /** The probe is the one that makes patience run out. */
  predicate LastStraw(log: seq<Event>, tick: Input, limits: Limits) {
    && tick.Tick? && !tick.ok && (Answered(log) || Age(log) + tick.passed >= limits.startup)
    && Streak(log, limits) + 1 >= (if limits.failures < 1 then 1 else limits.failures)
  }

  lemma StreakAfter(log: seq<Event>, tick: Input, limits: Limits)
    requires tick.Tick?
    ensures Streak(log + [Probed(tick.ok, Age(log) + tick.passed)], limits) >= Patience(limits) <==> LastStraw(log, tick, limits)
  {
    Readings(log, Probed(tick.ok, Age(log) + tick.passed), limits);
  }

  /** A hung child is killed at exactly that probe; once it is dead it is replaced, and otherwise the parent gives up. */
  lemma HungIsReplaced(p: Parent, tick: Input, limits: Limits)
    requires p.phase.Up? && LastStraw(p.log, tick, limits)
    ensures var killed := p.log + [Probed(false, Age(p.log) + tick.passed)] + [KilledHung];
            React(React(p, tick, limits), Starts, limits) ==
            if tick.dies then Parent(Up, killed + [Reaped] + [Started]) else Parent(Over, killed)
  {
    StreakAfter(p.log, tick, limits);
  }

  /** Any other probe is only noted. */
  lemma OthersAreNoted(p: Parent, tick: Input, limits: Limits)
    requires p.phase.Up? && tick.Tick? && !LastStraw(p.log, tick, limits)
    ensures React(p, tick, limits) == Parent(Up, p.log + [Probed(tick.ok, Age(p.log) + tick.passed)])
  {
    StreakAfter(p.log, tick, limits);
  }

  /** When the parent has to stop it signals the child, kills it if that does not help, reaps it, and starts no other. */
  lemma StopIsFinal(inputs: seq<Input>, exits: bool, more: seq<Input>, limits: Limits)
    requires ReactAll(inputs, limits).phase.Up?
    ensures ReactAll(inputs + [Cancelled(exits)] + more, limits).log ==
            ReactAll(inputs, limits).log + (if exits then [Signalled, Reaped] else [Signalled, Killed, Reaped])
  {
    var stopped := inputs + [Cancelled(exits)];
    OneMoreInput(inputs, Cancelled(exits), limits);
    assert (stopped + more)[..|stopped|] == stopped;
    OverIsOver(stopped + more, limits, |stopped|);
  }

  /** Between children none is alive, while one is watched exactly one is, and a parent that returns leaves none but one it could not kill. */
  lemma {:induction false} LivingByPhase(inputs: seq<Input>, limits: Limits)
    ensures var p := ReactAll(inputs, limits);
            && (p.phase.Idle? ==> Living(p.log) == 0) && (p.phase.Up? ==> Living(p.log) == 1)
            && (p.phase.Over? ==> Living(p.log) == if p.log != [] && p.log[|p.log| - 1].KilledHung? then 1 else 0)
            && (!p.phase.Over? ==> p.log == [] || !p.log[|p.log| - 1].KilledHung?)
  {
    if inputs != [] {
      var init, input := inputs[..|inputs| - 1], inputs[|inputs| - 1];
      LivingByPhase(init, limits);
      PhaseStep(ReactAll(init, limits), input, limits);
    }
  }

  predicate LivingFits(p: Parent) {
    && (p.phase.Idle? ==> Living(p.log) == 0) && (p.phase.Up? ==> Living(p.log) == 1)
    && (p.phase.Over? ==> Living(p.log) == if p.log != [] && p.log[|p.log| - 1].KilledHung? then 1 else 0)
    && (!p.phase.Over? ==> p.log == [] || !p.log[|p.log| - 1].KilledHung?)
  }

  lemma PhaseStep(p: Parent, input: Input, limits: Limits)
    requires LivingFits(p)
    ensures LivingFits(React(p, input, limits))
  {
    if p.phase.Idle? && input.Starts? {
      Readings(p.log, Started, limits);
    } else if p.phase.Up? && input.Tick? {
      PhaseTick(p, input, limits);
    } else if p.phase.Up? {
      PhaseStop(p, input, limits);
    }
  }

  lemma PhaseTick(p: Parent, tick: Input, limits: Limits)
    requires LivingFits(p) && p.phase.Up? && tick.Tick?
    ensures LivingFits(React(p, tick, limits))
  {
    TickStep(p.log, Probed(tick.ok, Age(p.log) + tick.passed), limits);
  }

  lemma PhaseStop(p: Parent, input: Input, limits: Limits)
    requires LivingFits(p) && p.phase.Up? && !input.Tick?
    ensures LivingFits(React(p, input, limits))
  {
    StopStep(p.log, limits);
  }

  lemma TickStep(log: seq<Event>, probe: Event, limits: Limits)
    requires probe.Probed?
    ensures Living(log + [probe]) == Living(log) && Living(log + [probe] + [KilledHung]) == Living(log)
    ensures Living(log + [probe] + [KilledHung] + [Reaped]) == Living(log) - 1
  {
    Readings(log, probe, limits);
    Readings(log + [probe], KilledHung, limits);
    Readings(log + [probe] + [KilledHung], Reaped, limits);
  }

  lemma StopStep(log: seq<Event>, limits: Limits)
    ensures Living(log + [Reaped]) == Living(log) - 1
    ensures Living(log + [Killed] + [Reaped]) == Living(log) - 1 && Living(log + [Signalled] + [Reaped]) == Living(log) - 1
    ensures Living(log + [Signalled] + [Killed] + [Reaped]) == Living(log) - 1
  {
    Readings(log, Reaped, limits);
    Readings(log, Killed, limits);
    Readings(log + [Killed], Reaped, limits);
    Readings(log, Signalled, limits);
    Readings(log + [Signalled], Reaped, limits);
    Readings(log + [Signalled], Killed, limits);
    Readings(log + [Signalled] + [Killed], Reaped, limits);
  }
}
