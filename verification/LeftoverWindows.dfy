/**
 Deferral windows that outlive the event they were opened for. A window is kept by agent name, and nothing closes it
 when the agent goes or is switched off; the next event of that name then counts its six hours from the old window.
 */
module LeftoverWindows {
  import opened Wrappers
  import opened Time
  import opened ProactiveTiming
  import opened Heartbeat
  import opened SilenceRuns

  // ---------- what a leftover window does ----------

  /** With a window older than six hours the next event is sent at once, whatever the user is doing. */
  lemma OldWindowSendsAtOnce(m: Memory, now: int, s: Surroundings)
    requires ValidSurroundings(s) && IsCandidate(m, now, s) && s.mayCommit && Sound(m, now)
    requires m.window.Some? && now >= m.window.value.since + MAX_DEFER
    ensures Ticked(m, now, s).1
  {
    hide Candidate;
    StepKeepsAnchor(m.window, Call(now, s.naturalTiming, s.history));
  }

  /** No user message at all, and one that just came in. */
  function NoMessages(): InteractionHistory
  {
    InteractionHistory(seq(24, _ => 0), 0, None)
  }

  function Writing(now: int): InteractionHistory
  {
    InteractionHistory(seq(24, _ => 1), 24, Some(now))
  }

  lemma WritingDefers(now: int)
    ensures Usable(Writing(now)) && Evaluate(now, Writing(now), None) == Defer(now + MID_FLOW_WINDOW, MidFlow)
    ensures Usable(NoMessages()) && Evaluate(now, NoMessages(), None) == SendNow
  {
    assert Writing(now).hourCounts[0] == 1;
  }

  /** The tick decides as it would for a message that was never deferred. */
  ghost predicate DecidesAfresh(m: Memory, now: int, s: Surroundings)
  {
    forall h | Usable(h) ::
      Ticked(m, now, s.(history := Some(h))) == Ticked(m.(window := None), now, s.(history := Some(h)))
  }

  /** An event that is due is treated as new, with an anchor of its own, exactly when no window of its name is open. */
  lemma OwnAnchorExactly(m: Memory, now: int, s: Surroundings)
    requires IsCandidate(m, now, s) && s.mayCommit && s.naturalTiming && Sound(m, now)
    ensures DecidesAfresh(m, now, s) <==> m.window.None?
  {
    hide Candidate, Usable, Evaluate;
    if m.window.Some? {
      WritingDefers(now);
      var w := m.window.value;
      var h := if now < w.until then NoMessages() else Writing(now);
      StepKeepsAnchor(m.window, Call(now, true, Some(h)));
      assert Ticked(m, now, s.(history := Some(h))) != Ticked(m.(window := None), now, s.(history := Some(h)));
    }
  }

  // ---------- how a window is left over ----------

  /** An open window belongs to a silence that has crossed its threshold, of an agent that is switched on. */
  predicate StillDue(m: Memory, now: int)
  {
    m.window.Some? ==>
      m.agent.Some? && m.agent.value.config.enabled && m.agent.value.config.evolutionEnabled
      && HoursSilent(m.agent.value, now) > m.agent.value.config.maxSilenceHours
  }

  /** The sync keeps the agent, switched on, with a threshold its silence has crossed as well. */
  predicate KeepsDue(m: Memory, now: int, entry: Option<Registered>)
  {
    && m.agent.Some? && entry.Some? && entry.value.operational
    && entry.value.config.enabled && entry.value.config.evolutionEnabled
    && HoursSilent(m.agent.value, now) > entry.value.config.maxSilenceHours
  }

  /** Only syncs leave windows over: they drop the agent, switch it off, or raise its threshold past its silence. */
  lemma OnlySyncsLeaveWindows(m: Memory, before: int, step: Step)
    requires step.Tick? ==> ValidSurroundings(step.around)
    requires Sound(m, before) && StillDue(m, before) && before <= step.now
    ensures StillDue(Advance(m, step).0, step.now) <==>
      step.Tick? || m.window.None? || KeepsDue(m, step.now, step.entry)
  {
    hide Usable, Evaluate;
    if m.agent.Some? {
      var t := m.agent.value.lastEvolutionTrigger.value;
      MinutesGrow(before - t, step.now - t);
    }
  }

  // ---------- a run ----------

  /**
   An agent is deferred while its user is writing, removed, added again hours later, and silent again: its new event is
   sent into the user's turn, while it would have been deferred without the leftover window.
   */
  lemma LeftoverWindowRun() returns (steps: seq<Step>)
    ensures SilenceRuns.Ordered(steps) && |steps| == 5 && steps[2].Sync? && steps[2].entry.None?
    ensures steps[4].Tick? && steps[4].around.history == Some(Writing(steps[4].now)) && Fires(steps, 4)
    ensures !Ticked(Before(steps, 4).(window := None), steps[4].now, steps[4].around).1
    ensures forall k :: 0 <= k < 4 ==> !Fires(steps, k)
  {
    hide Evaluate, GateStep, Usable;
    var listed := Some(Registered(true, Config(true, 1.0, true)));
    var early, late := Surroundings(true, true, true, Some(Writing(2 * HOUR))),
      Surroundings(true, true, true, Some(Writing(11 * HOUR)));
    WritingDefers(2 * HOUR);
    WritingDefers(11 * HOUR);
    steps := [
      Sync(0, listed), Tick(2 * HOUR, early), Sync(3 * HOUR, None), Sync(9 * HOUR, listed), Tick(11 * HOUR, late)];
    FirstTick(2 * HOUR);
    FirstTick(11 * HOUR);
    var config := listed.value.config;
    var m1 := Memory(Some(LiveAgent(config, Some(0))), None);
    var w := Some(DeferralWindow(2 * HOUR, 2 * HOUR + MID_FLOW_WINDOW, MidFlow));
    assert Before(steps, 0) == NOTHING && Before(steps, 1) == m1;
    assert Before(steps, 2) == m1.(window := w) && !Fires(steps, 1);
    assert Before(steps, 3) == Memory(None, w);
    assert Before(steps, 4) == Memory(Some(LiveAgent(config, Some(9 * HOUR))), w);
    OldWindowSendsAtOnce(Before(steps, 4), 11 * HOUR, late);
  }

  lemma FirstTick(now: int)
    ensures Usable(Writing(now))
    ensures GateStep(None, Call(now, true, Some(Writing(now))))
      == (Some(DeferralWindow(now, now + MID_FLOW_WINDOW, MidFlow)), Defer(now + MID_FLOW_WINDOW, MidFlow))
  {
    hide Evaluate;
    WritingDefers(now);
  }
}
