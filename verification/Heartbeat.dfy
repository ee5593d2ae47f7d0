/**
 The silence breaker of the heartbeat scheduler: registry syncs and ticks over the live agents, with the
 natural-timing gate deciding when a due event is sent. Times are integers in nanoseconds, thresholds are reals.
 */
module Heartbeat {
  import opened Wrappers
  import opened Time
  import opened ProactiveTiming

  datatype Config = Config(enabled: bool, maxSilenceHours: real, evolutionEnabled: bool)

  /** An agent as the registry lists it. */
  datatype Registered = Registered(operational: bool, config: Config)

  datatype LiveAgent = LiveAgent(config: Config, lastEvolutionTrigger: Option<int>)

  datatype SilenceBreakerEvent = SilenceBreakerEvent(agentId: string, timestamp: int)

  /**
   What a tick finds for one agent: the autonomy gate at detection and at commit, the kill switch, and the interaction
   history unless loading it failed.
   */
  datatype Surroundings = Surroundings(
    mayDetect: bool, mayCommit: bool, naturalTiming: bool, history: Option<InteractionHistory>)

  predicate ValidSurroundings(s: Surroundings)
  {
    s.history.Some? ==> Usable(s.history.value)
  }

  // ---------- one agent, one step ----------

  /** Whole minutes of a duration, truncated toward zero. */
  function NumMinutes(d: int): int
  {
    if d >= 0 then d / MINUTE else -(-d / MINUTE)
  }

  function HoursSilent(a: LiveAgent, now: int): real
  {
    if a.lastEvolutionTrigger.Some? then NumMinutes(now - a.lastEvolutionTrigger.value) as real / 60.0
    else a.config.maxSilenceHours + 1.0
  }

  predicate Candidate(a: LiveAgent, now: int, s: Surroundings)
  {
    a.config.enabled && s.mayDetect && a.config.evolutionEnabled && HoursSilent(a, now) > a.config.maxSilenceHours
  }

  /** The agent is known and its silence has crossed its threshold. */
  predicate IsCandidate(m: Memory, now: int, s: Surroundings)
  {
    m.agent.Some? && Candidate(m.agent.value, now, s)
  }

  /** The scheduler's memory of one agent name: its live state and the deferral window of its silence event. */
  datatype Memory = Memory(agent: Option<LiveAgent>, window: Option<DeferralWindow>)

  function Synced(agent: Option<LiveAgent>, entry: Option<Registered>, now: int): Option<LiveAgent>
  {
    if entry.None? || !entry.value.operational then None
    else if agent.Some? then Some(agent.value.(config := entry.value.config))
    else Some(LiveAgent(entry.value.config, Some(now)))
  }

  /** What a tick does to the memory of one agent, and whether it emits the agent's event. */
  function Ticked(m: Memory, now: int, s: Surroundings): (Memory, bool)
    requires ValidSurroundings(s)
  {
    if !IsCandidate(m, now, s) || !s.mayCommit then (m, false)
    else
      var (window, decision) := GateStep(m.window, Call(now, s.naturalTiming, s.history));
      if decision.Defer? then (Memory(m.agent, window), false)
      else (Memory(Some(m.agent.value.(lastEvolutionTrigger := Some(now))), window), true)
  }

  lemma NotDue(m: Memory, now: int, s: Surroundings)
    requires ValidSurroundings(s) && !IsCandidate(m, now, s)
    ensures Ticked(m, now, s) == (m, false)
  {
  }

  // ---------- the scheduler ----------

  function Key(agentId: string): string
  {
    "silence:" + agentId
  }

  lemma KeyInjective(a: string, b: string)
    requires Key(a) == Key(b)
    ensures a == b
  {
    assert Key(a)[8..] == a && Key(b)[8..] == b;
  }

  function Lookup<V>(m: map<string, V>, name: string): Option<V>
  {
    if name in m then Some(m[name]) else None
  }

  function EventsOf(names: seq<string>, now: int): (events: seq<SilenceBreakerEvent>)
    ensures |events| == |names| && forall i :: 0 <= i < |names| ==> events[i] == SilenceBreakerEvent(names[i], now)
  {
    seq(|names|, i requires 0 <= i < |names| => SilenceBreakerEvent(names[i], now))
  }

  /** Agents that are not listed are gone, and were as good as gone after the sync. */
  lemma AbsentIsNone(was: map<string, LiveAgent>, registry: map<string, Registered>, kept: map<string, LiveAgent>,
                     now: int)
    requires kept == map name | name in was && name in registry :: was[name]
    ensures forall name | name in registry.Keys :: Lookup(kept, name) == Lookup(was, name)
    ensures forall name | name !in registry.Keys ::
              Lookup(kept, name) == Synced(Lookup(was, name), Lookup(registry, name), now)
  {
  }

  lemma OneSynced(before: map<string, LiveAgent>, after: map<string, LiveAgent>, registry: map<string, Registered>,
                  name: string, now: int)
    requires name in registry
    requires var entry := registry[name];
      after ==
        if !entry.operational then before - {name}
        else if name in before then before[name := before[name].(config := entry.config)]
        else before[name := LiveAgent(entry.config, Some(now))]
    ensures Lookup(after, name) == Synced(Lookup(before, name), Lookup(registry, name), now)
    ensures forall other :: other != name ==> Lookup(after, other) == Lookup(before, other)
  {
  }

  class HeartbeatScheduler {
    var agents: map<string, LiveAgent>
    const timingDeferrals: DeferralLedger
    var events: seq<SilenceBreakerEvent>

    constructor ()
      ensures agents == map[] && events == [] && fresh(timingDeferrals) && timingDeferrals.windows == map[]
    {
      agents := map[];
      events := [];
      timingDeferrals := new DeferralLedger();
    }

    function Recall(name: string): Memory
      reads this, timingDeferrals
    {
      Memory(Lookup(agents, name), timingDeferrals.Get(Key(name)))
    }

    method SyncFromRegistry(now: int, registry: map<string, Registered>)
      modifies this`agents
      ensures forall name ::
                Recall(name) ==
                old(Recall(name)).(agent := Synced(old(Recall(name)).agent, Lookup(registry, name), now))
    {
      hide Synced;
      agents := map name | name in agents && name in registry :: agents[name];
      AbsentIsNone(old(agents), registry, agents, now);
      hide Lookup;
      var todo := registry.Keys;
      while todo != {}
        invariant todo <= registry.Keys
        invariant forall name | name in todo :: Lookup(agents, name) == Lookup(old(agents), name)
        invariant forall name | name !in todo ::
                    Lookup(agents, name) == Synced(Lookup(old(agents), name), Lookup(registry, name), now)
        decreases |todo|
      {
        var name :| name in todo;
        todo := todo - {name};
        var entry := registry[name];
        ghost var before := agents;
        if !entry.operational {
          agents := agents - {name};
        } else if name in agents {
          agents := agents[name := agents[name].(config := entry.config)];
        } else {
          agents := agents[name := LiveAgent(entry.config, Some(now))];
        }
        OneSynced(before, agents, registry, name, now);
      }
    }

    /** Detection: the agents whose silence has crossed their threshold, in any order. */
    method DetectSilence(now: int, around: string -> Surroundings) returns (candidates: seq<string>)
      ensures forall i, j :: 0 <= i < j < |candidates| ==> candidates[i] != candidates[j]
      ensures forall name :: name in candidates <==> IsCandidate(Recall(name), now, around(name))
    {
      candidates := [];
      var todo := agents.Keys;
      while todo != {}
        invariant todo <= agents.Keys
        invariant forall name | name in candidates :: name !in todo
        invariant forall i, j :: 0 <= i < j < |candidates| ==> candidates[i] != candidates[j]
        invariant forall name ::
                    name in candidates <==>
                    name in agents && name !in todo && Candidate(agents[name], now, around(name))
        decreases |todo|
      {
        var name :| name in todo;
        todo := todo - {name};
        if Candidate(agents[name], now, around(name)) {
          candidates := candidates + [name];
        }
      }
    }

    /** Gate and commit for one candidate; nothing else in the scheduler changes. */
    method CommitSilence(aid: string, now: int, s: Surroundings) returns (fired: bool)
      requires ValidSurroundings(s) && IsCandidate(Recall(aid), now, s)
      modifies this, timingDeferrals
      ensures (Recall(aid), fired) == Ticked(old(Recall(aid)), now, s)
      ensures forall name | name != aid :: Recall(name) == old(Recall(name))
      ensures events == old(events) + if fired then [SilenceBreakerEvent(aid, now)] else []
    {
      forall name | name != aid
        ensures Key(name) != Key(aid)
      {
        if Key(name) == Key(aid) {
          KeyInjective(name, aid);
        }
      }
      if !s.mayCommit {
        return false;
      }
      var decision := timingDeferrals.GateKeyedSend(Key(aid), Call(now, s.naturalTiming, s.history));
      if decision.Defer? {
        return false;
      }
      agents := agents[aid := agents[aid].(lastEvolutionTrigger := Some(now))];
      events := events + [SilenceBreakerEvent(aid, now)];
      return true;
    }

    /** One tick: what it remembers of every agent, and one event for exactly the agents due and not deferred. */
    method Tick(now: int, around: string -> Surroundings) returns (fired: seq<string>)
      requires forall name :: ValidSurroundings(around(name))
      modifies this, timingDeferrals
      ensures forall name :: Recall(name) == Ticked(old(Recall(name)), now, around(name)).0
      ensures forall name :: name in fired <==> Ticked(old(Recall(name)), now, around(name)).1
      ensures forall i, j :: 0 <= i < j < |fired| ==> fired[i] != fired[j]
      ensures events == old(events) + EventsOf(fired, now)
    {
      var candidates := DetectSilence(now, around);
      fired := [];
      hide Recall, IsCandidate, Ticked, ValidSurroundings;
      for i := 0 to |candidates|
        invariant forall name | name in candidates[..i] ::
                    Recall(name) == Ticked(old(Recall(name)), now, around(name)).0
        invariant forall name | name !in candidates[..i] :: Recall(name) == old(Recall(name))
        invariant forall name ::
                    name in fired <==> name in candidates[..i] && Ticked(old(Recall(name)), now, around(name)).1
        invariant forall i, j :: 0 <= i < j < |fired| ==> fired[i] != fired[j]
        invariant events == old(events) + EventsOf(fired, now)
      {
        var aid := candidates[i];
        assert aid !in candidates[..i] && candidates[..i + 1] == candidates[..i] + [aid];
        assert Recall(aid) == old(Recall(aid));
        var sent := CommitSilence(aid, now, around(aid));
        if sent {
          fired := fired + [aid];
        }
      }
      assert candidates[..|candidates|] == candidates;
      forall name | name !in candidates
        ensures Ticked(old(Recall(name)), now, around(name)) == (old(Recall(name)), false)
      {
        NotDue(old(Recall(name)), now, around(name));
      }
    }
  }
}
