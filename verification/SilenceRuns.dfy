/** What every run of syncs and ticks keeps for one agent name: spacing, the kill switch, and the six-hour deadline. */
module SilenceRuns {
  import opened Wrappers
  import opened Time
  import opened ProactiveTiming
  import opened Heartbeat

  /** A sync that lists the agent or not, or a tick, as one agent name sees it. */
  datatype Step =
    | Sync(now: int, entry: Option<Registered>)
    | Tick(now: int, around: Surroundings)

  predicate Ordered(steps: seq<Step>)
  {
    (forall i :: 0 <= i < |steps| && steps[i].Tick? ==> ValidSurroundings(steps[i].around))
    && forall i, j :: 0 <= i < j < |steps| ==> steps[i].now <= steps[j].now
  }

  const NOTHING := Memory(None, None)

  function Advance(m: Memory, step: Step): (Memory, bool)
    requires step.Tick? ==> ValidSurroundings(step.around)
  {
    match step
    case Sync(now, entry) => (m.(agent := Synced(m.agent, entry, now)), false)
    case Tick(now, around) => Ticked(m, now, around)
  }

  /** What is remembered of the agent before step `i`, from the scheduler's start on. */
  function Before(steps: seq<Step>, i: nat): Memory
    requires Ordered(steps) && i <= |steps|
  {
    if i == 0 then NOTHING else Advance(Before(steps, i - 1), steps[i - 1]).0
  }

  /** Step `i` emits the agent's silence-breaker event. */
  predicate Fires(steps: seq<Step>, i: nat)
    requires Ordered(steps) && i < |steps|
  {
    Advance(Before(steps, i), steps[i]).1
  }

  // ---------- invariants ----------

  /** The trigger is set and in the past, and an open window is anchored. */
  predicate Sound(m: Memory, now: int)
  {
    && (m.agent.Some? ==> m.agent.value.lastEvolutionTrigger.Some? && m.agent.value.lastEvolutionTrigger.value <= now)
    && Anchored(m.window, now)
  }

  lemma AdvanceKeepsSound(m: Memory, step: Step)
    requires step.Tick? ==> ValidSurroundings(step.around)
    requires Sound(m, step.now)
    ensures Sound(Advance(m, step).0, step.now)
  {
    hide GateStep;
    if step.Tick? {
      StepKeepsAnchor(m.window, Call(step.now, step.around.naturalTiming, step.around.history));
    }
  }

  lemma {:induction false} RunIsSound(steps: seq<Step>, i: nat, now: int)
    requires Ordered(steps) && i <= |steps|
    requires forall k :: 0 <= k < i ==> steps[k].now <= now
    ensures Sound(Before(steps, i), now)
    decreases i
  {
    if i > 0 {
      RunIsSound(steps, i - 1, steps[i - 1].now);
      AdvanceKeepsSound(Before(steps, i - 1), steps[i - 1]);
    }
  }

  // ---------- spacing ----------

  /** From `t` on the agent is either unknown or has been triggered at `t` or later. */
  predicate TriggeredSince(m: Memory, t: int)
  {
    m.agent.Some? ==> m.agent.value.lastEvolutionTrigger.Some? && m.agent.value.lastEvolutionTrigger.value >= t
  }

  lemma {:induction false} TriggerStays(steps: seq<Step>, i: nat, j: nat)
    requires Ordered(steps) && i < j <= |steps| && Fires(steps, i)
    ensures TriggeredSince(Before(steps, j), steps[i].now)
    decreases j
  {
    if j > i + 1 {
      TriggerStays(steps, i, j - 1);
    }
  }

  lemma SilenceIsElapsed(a: LiveAgent, now: int)
    requires a.lastEvolutionTrigger.Some? && a.lastEvolutionTrigger.value <= now
    requires HoursSilent(a, now) > a.config.maxSilenceHours
    ensures (now - a.lastEvolutionTrigger.value) as real > a.config.maxSilenceHours * HOUR as real
  {
    var d := now - a.lastEvolutionTrigger.value;
    assert d >= NumMinutes(d) * MINUTE;
    assert NumMinutes(d) as real > a.config.maxSilenceHours * 60.0;
  }

  /** Two events of one agent are further apart than its threshold, also when it was removed and added in between. */
  lemma EventsAreSpaced(steps: seq<Step>, i: nat, j: nat)
    requires Ordered(steps) && i < j < |steps| && Fires(steps, i) && Fires(steps, j)
    ensures Before(steps, j).agent.Some?
    ensures (steps[j].now - steps[i].now) as real > Before(steps, j).agent.value.config.maxSilenceHours * HOUR as real
  {
    hide Before, GateStep, Usable, Anchored;
    RunIsSound(steps, j, steps[j].now);
    TriggerStays(steps, i, j);
    var agent := Before(steps, j).agent.value;
    SilenceIsElapsed(agent, steps[j].now);
    assert steps[j].now - steps[i].now >= steps[j].now - agent.lastEvolutionTrigger.value;
  }

  // ---------- the kill switch ----------

  lemma {:induction false} ConfigIsLastSynced(steps: seq<Step>, l: nat, i: nat)
    requires Ordered(steps) && l < i <= |steps| && steps[l].Sync?
    requires forall k :: l < k < i ==> steps[k].Tick?
    ensures var entry, agent := steps[l].entry, Before(steps, i).agent;
      && (agent.Some? <==> entry.Some? && entry.value.operational)
      && (agent.Some? ==> agent.value.config == entry.value.config)
    decreases i
  {
    hide GateStep;
    if i > l + 1 {
      ConfigIsLastSynced(steps, l, i - 1);
    }
  }

  /** Nothing fires unless the last sync listed the agent as operational, enabled, and with evolution switched on. */
  lemma SilentWhileSwitchedOff(steps: seq<Step>, l: nat, i: nat)
    requires Ordered(steps) && l < i < |steps| && steps[l].Sync? && Fires(steps, i)
    requires forall k :: l < k < i ==> steps[k].Tick?
    ensures var entry := steps[l].entry;
      entry.Some? && entry.value.operational && entry.value.config.enabled && entry.value.config.evolutionEnabled
    ensures steps[i].Tick? && steps[i].around.mayDetect && steps[i].around.mayCommit
  {
    ConfigIsLastSynced(steps, l, i);
  }

  // ---------- the deadline ----------

  /** A step that keeps the agent listed, switched on and permitted, with no larger threshold. */
  predicate KeepsEligible(step: Step, threshold: real)
  {
    match step
    case Sync(_, entry) =>
      entry.Some? && entry.value.operational && entry.value.config.enabled && entry.value.config.evolutionEnabled
      && entry.value.config.maxSilenceHours <= threshold
    case Tick(_, around) => around.mayDetect && around.mayCommit
  }

  predicate StaysEligible(steps: seq<Step>, i: nat, j: nat, threshold: real)
  {
    forall k :: i < k <= j < |steps| ==> KeepsEligible(steps[k], threshold)
  }

  /** An agent whose silence crossed its threshold at `start`, not yet reported, with its deferral anchored by then. */
  predicate Due(m: Memory, start: int, threshold: real, trigger: Option<int>)
  {
    && m.agent.Some? && m.agent.value.config.enabled && m.agent.value.config.evolutionEnabled
    && m.agent.value.config.maxSilenceHours <= threshold && m.agent.value.lastEvolutionTrigger == trigger
    && m.window.Some? && m.window.value.since <= start
  }

  lemma MinutesGrow(d: int, e: int)
    requires d <= e
    ensures NumMinutes(d) <= NumMinutes(e)
  {
  }

  /** A due agent stays due over one more step that does not report it, and that step is within six hours. */
  lemma DueStep(m: Memory, step: Step, start: int, threshold: real, trigger: Option<int>)
    requires step.Tick? ==> ValidSurroundings(step.around)
    requires Sound(m, step.now) && Due(m, start, threshold, trigger) && start <= step.now
    requires trigger.Some? && NumMinutes(start - trigger.value) as real / 60.0 > threshold
    requires KeepsEligible(step, threshold) && !Advance(m, step).1
    ensures Due(Advance(m, step).0, start, threshold, trigger)
    ensures step.Tick? ==> step.now < start + MAX_DEFER
  {
    hide GateStep;
    if step.Tick? {
      MinutesGrow(start - trigger.value, step.now - trigger.value);
      assert Candidate(m.agent.value, step.now, step.around);
      StepKeepsAnchor(m.window, Call(step.now, step.around.naturalTiming, step.around.history));
    }
  }

  lemma {:induction false} DueUntilReported(steps: seq<Step>, i: nat, j: nat)
    requires Ordered(steps) && i <= j < |steps| && steps[i].Tick?
    requires Before(steps, i).agent.Some? && steps[i].around.mayCommit
    requires Candidate(Before(steps, i).agent.value, steps[i].now, steps[i].around)
    requires StaysEligible(steps, i, j, Before(steps, i).agent.value.config.maxSilenceHours)
    requires forall k :: i <= k <= j ==> !Fires(steps, k)
    ensures var a := Before(steps, i).agent.value;
      Due(Before(steps, j + 1), steps[i].now, a.config.maxSilenceHours, a.lastEvolutionTrigger)
    ensures steps[j].Tick? ==> steps[j].now < steps[i].now + MAX_DEFER
    decreases j
  {
    hide GateStep;
    var m, a := Before(steps, j), Before(steps, i).agent.value;
    RunIsSound(steps, j, steps[j].now);
    assert !Fires(steps, j);
    if i == j {
      StepKeepsAnchor(m.window, Call(steps[i].now, steps[i].around.naturalTiming, steps[i].around.history));
    } else {
      DueUntilReported(steps, i, j - 1);
      RunIsSound(steps, i, steps[i].now);
      DueStep(m, steps[j], steps[i].now, a.config.maxSilenceHours, a.lastEvolutionTrigger);
    }
  }

  /**
   An agent that stays eligible gets its event no later than the first tick six hours after its silence was first seen
   to have crossed the threshold.
   */
  lemma ReportedWithinSixHours(steps: seq<Step>, i: nat, j: nat)
    requires Ordered(steps) && i <= j < |steps| && steps[i].Tick? && steps[j].Tick?
    requires Before(steps, i).agent.Some? && steps[i].around.mayCommit
    requires Candidate(Before(steps, i).agent.value, steps[i].now, steps[i].around)
    requires StaysEligible(steps, i, j, Before(steps, i).agent.value.config.maxSilenceHours)
    requires steps[j].now >= steps[i].now + MAX_DEFER
    ensures exists k :: i <= k <= j && Fires(steps, k)
  {
    if forall k :: i <= k <= j ==> !Fires(steps, k) {
      DueUntilReported(steps, i, j);
    }
  }

  // ---------- exactly when an event is emitted ----------

  /** Some whole number of minutes that has passed since the trigger is more than the threshold. */
  ghost predicate Overdue(a: LiveAgent, now: int)
  {
    a.lastEvolutionTrigger.Some? &&
    exists minutes: nat ::
      && minutes * 60_000_000_000 <= now - a.lastEvolutionTrigger.value
      && minutes as real > 60.0 * a.config.maxSilenceHours
  }

  lemma OverdueMeaning(a: LiveAgent, now: int)
    requires a.lastEvolutionTrigger.Some? && a.lastEvolutionTrigger.value <= now
    ensures Overdue(a, now) <==> HoursSilent(a, now) > a.config.maxSilenceHours
  {
    var d := now - a.lastEvolutionTrigger.value;
    var m := d / 60_000_000_000;
    assert NumMinutes(d) == m && m * 60_000_000_000 <= d;
    if minutes: nat :| minutes * 60_000_000_000 <= d && minutes as real > 60.0 * a.config.maxSilenceHours {
      assert minutes <= m;
    }
  }

  /** A silence of the threshold and one more minute is always noticed; one up to the threshold never is. */
  lemma NoticedWithinAMinute(a: LiveAgent, now: int)
    requires a.lastEvolutionTrigger.Some? && a.lastEvolutionTrigger.value <= now
    ensures var d := (now - a.lastEvolutionTrigger.value) as real;
      && (d >= a.config.maxSilenceHours * 3_600_000_000_000.0 + 60_000_000_000.0 ==> Overdue(a, now))
      && (d <= a.config.maxSilenceHours * 3_600_000_000_000.0 ==> !Overdue(a, now))
  {
    var d := now - a.lastEvolutionTrigger.value;
    var m := d / 60_000_000_000;
    assert m * 60_000_000_000 <= d < (m + 1) * 60_000_000_000;
    if d as real >= a.config.maxSilenceHours * 3_600_000_000_000.0 + 60_000_000_000.0 {
      assert m as real > 60.0 * a.config.maxSilenceHours;
    }
  }

  /** The agent is listed, enabled, with evolution switched on, and its silence has crossed its threshold. */
  ghost predicate IsDue(m: Memory, now: int)
  {
    && m.agent.Some? && m.agent.value.config.enabled && m.agent.value.config.evolutionEnabled
    && Overdue(m.agent.value, now)
  }

  /** The gate holds the event of this tick back. */
  ghost predicate IsHeldBack(m: Memory, now: int, around: Surroundings)
    requires ValidSurroundings(around)
  {
    exists until, reason :: Defers(m.window, Call(now, around.naturalTiming, around.history), until, reason)
  }

  /** A step emits the event exactly when it is a tick, the agent is due and permitted, and nothing holds it back. */
  lemma FiresExactly(steps: seq<Step>, i: nat)
    requires Ordered(steps) && i < |steps|
    ensures Fires(steps, i) <==>
      var step, m := steps[i], Before(steps, i);
      step.Tick? && IsDue(m, step.now) && step.around.mayDetect && step.around.mayCommit
      && !IsHeldBack(m, step.now, step.around)
  {
    hide GateStep, Defers, Overdue, Usable, Before, HoursSilent;
    var step, m := steps[i], Before(steps, i);
    RunIsSound(steps, i, step.now);
    if step.Tick? && m.agent.Some? {
      OverdueMeaning(m.agent.value, step.now);
      GateMeaning(m.window, Call(step.now, step.around.naturalTiming, step.around.history));
    }
  }

  /** With natural timing off, or a history that cannot be loaded and no open window, a due event is emitted at once. */
  lemma SentAtOnce(steps: seq<Step>, i: nat)
    requires Ordered(steps) && i < |steps| && steps[i].Tick?
    requires IsDue(Before(steps, i), steps[i].now) && steps[i].around.mayDetect && steps[i].around.mayCommit
    requires !steps[i].around.naturalTiming || (steps[i].around.history.None?
      && (Before(steps, i).window.Some? ==> steps[i].now >= Before(steps, i).window.value.until))
    ensures Fires(steps, i)
  {
    hide Fires, Before, IsDue, HoldsBack;
    FiresExactly(steps, i);
  }
}
