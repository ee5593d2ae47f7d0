/**
 The runtime brand: readiness calls retarget one polling loop, which shows the name its local gateway answers with.
 Every lock section and every await is one step, so the runs below are all interleavings of any number of callers
 with the loop.
 */
module DistributorBrand {
  import opened Wrappers

  const ORIGINAL_NAME := "DuDuClaw"

  /** The generation counter is a u64 and wraps around. */
  const GENERATIONS: nat := 0x1_0000_0000_0000_0000

  datatype PollTarget = PollTarget(port: nat, generation: nat)

  function Retargeted(t: PollTarget, port: nat): PollTarget
  {
    PollTarget(port, (t.generation + 1) % GENERATIONS)
  }

  /** What a fetch yields: nothing (an error, an invalid name, not modified), or a name and perhaps its etag. */
  datatype Reply = Nothing | Named(name: string, etag: Option<string>)

  /** Where a readiness call stands after it retargeted: about to swap `fetched`, to spawn the loop, or to notify it. */
  datatype CallerAt = Swapping | Spawning | Notifying

  datatype LoopAt = Reading | Fetching | Landing(reply: Reply) | Sleeping

  /** The polling loop: its own variables, and how many readiness calls there had been when it last read the target. */
  datatype Loop = Loop(at: LoopAt, etag: Option<string>, previousTarget: Option<PollTarget>, readAt: nat)

  /** Where the shown name came from: the target that answered with it, and the etag that came along. */
  datatype Origin = Origin(target: PollTarget, etag: Option<string>)

  datatype State = State(
    target: PollTarget, fetched: bool, permit: bool, name: string,
    callers: map<nat, CallerAt>, loop: Option<Loop>,
    origin: Option<Origin>, readyCalls: nat)

  const INITIAL := State(PollTarget(0, 0), false, false, ORIGINAL_NAME, map[], None, None, 0)

  datatype Step =
    | Ready(caller: nat, port: nat)
    | Swap(caller: nat)
    | Spawn(caller: nat)
    | Notify(caller: nat)
    | Read
    | Answer(reply: Reply)
    | Land
    | Wake
    | TimeOut

  predicate LoopIs(s: State, at: LoopAt)
  {
    s.loop.Some? && s.loop.value.at == at
  }

  predicate CallerIs(s: State, caller: nat, at: CallerAt)
  {
    caller in s.callers && s.callers[caller] == at
  }

  predicate Enabled(s: State, step: Step)
  {
    match step
    case Ready(c, _) => c !in s.callers
    case Swap(c) => CallerIs(s, c, Swapping)
    case Spawn(c) => CallerIs(s, c, Spawning)
    case Notify(c) => CallerIs(s, c, Notifying)
    case Read => LoopIs(s, Reading)
    case Answer(_) => LoopIs(s, Fetching)
    case Land => s.loop.Some? && s.loop.value.at.Landing?
    case Wake => LoopIs(s, Sleeping) && s.permit
    case TimeOut => LoopIs(s, Sleeping)
  }

  /** Whether landing writes the name: there is one, and the target is still the one that was asked. */
  predicate Lands(s: State)
    requires Enabled(s, Land)
  {
    s.loop.value.at.reply.Named? && s.loop.value.previousTarget == Some(s.target)
  }

  function Apply(s: State, step: Step): State
    requires Enabled(s, step)
  {
    match step
    case Ready(c, port) =>
      s.(target := Retargeted(s.target, port), callers := s.callers[c := Swapping], readyCalls := s.readyCalls + 1)
    case Swap(c) =>
      s.(callers := s.callers[c := if s.fetched then Notifying else Spawning], fetched := true)
    case Spawn(c) =>
      s.(callers := s.callers - {c}, loop := Some(Loop(Reading, None, None, 0)))
    case Notify(c) =>
      s.(callers := s.callers - {c}, permit := true)
    case Read =>
      var l := s.loop.value;
      var etag := if l.previousTarget != Some(s.target) then None else l.etag;
      s.(loop := Some(Loop(Fetching, etag, Some(s.target), s.readyCalls)))
    case Answer(reply) =>
      s.(loop := Some(s.loop.value.(at := Landing(reply))))
    case Land =>
      var l := s.loop.value;
      if Lands(s) then
        s.(name := l.at.reply.name, origin := Some(Origin(s.target, l.at.reply.etag)),
           loop := Some(l.(at := Sleeping, etag := l.at.reply.etag)))
      else s.(loop := Some(l.(at := Sleeping)))
    case Wake =>
      s.(permit := false, loop := Some(s.loop.value.(at := Reading)))
    case TimeOut =>
      s.(loop := Some(s.loop.value.(at := Reading)))
  }

  // ---------- the invariant ----------

  /** A caller has yet to notify the loop. */
  ghost predicate CallerPending(s: State)
  {
    exists c :: CallerIs(s, c, Swapping) || CallerIs(s, c, Notifying)
  }

  /** The loop has not polled the current target and is past the point where it would look. */
  predicate Outdated(s: State)
  {
    s.loop.Some? && s.loop.value.at != Reading && s.loop.value.previousTarget != Some(s.target)
  }

  /** The loop runs, or exactly one caller is about to spawn it, or nobody has swapped yet. */
  ghost predicate OneLoop(s: State)
  {
    && (forall c, d :: CallerIs(s, c, Spawning) && CallerIs(s, d, Spawning) ==> c == d)
    && (forall c :: CallerIs(s, c, Spawning) || CallerIs(s, c, Notifying) ==> s.fetched)
    && (forall c :: CallerIs(s, c, Spawning) ==> s.loop.None?)
    && (s.loop.Some? ==> s.fetched)
    && (s.fetched && s.loop.None? ==> exists c :: CallerIs(s, c, Spawning))
  }

  /** An etag the loop holds came with the shown name, from the target it belongs to. */
  predicate EtagSound(s: State)
  {
    && (s.origin.None? ==> s.name == ORIGINAL_NAME)
    && (s.loop.Some? && s.loop.value.etag.Some? ==>
          s.loop.value.previousTarget.Some?
          && s.origin == Some(Origin(s.loop.value.previousTarget.value, s.loop.value.etag)))
    && (s.loop.Some? && s.loop.value.at != Reading ==> s.loop.value.previousTarget.Some?)
  }

  /** An outdated loop has a stored wake-up, or a caller that is about to store one. */
  ghost predicate NoLostWakeUp(s: State)
  {
    Outdated(s) ==> s.permit || CallerPending(s)
  }

  /** Generations count the readiness calls, modulo their width. */
  predicate Counted(s: State)
  {
    && s.target.generation == s.readyCalls % GENERATIONS
    && (s.loop.Some? && s.loop.value.previousTarget.Some? ==>
          s.loop.value.readAt <= s.readyCalls
          && s.loop.value.previousTarget.value.generation == s.loop.value.readAt % GENERATIONS)
  }

  ghost predicate Inv(s: State)
  {
    OneLoop(s) && EtagSound(s) && NoLostWakeUp(s) && Counted(s)
  }

  lemma StepKeepsOneLoop(s: State, step: Step)
    requires OneLoop(s) && Enabled(s, step)
    ensures OneLoop(Apply(s, step))
  {
    var t := Apply(s, step);
    forall c, at: CallerAt | CallerIs(t, c, at)
      ensures CallerIs(s, c, at) || (step == Ready(c, t.target.port) && at == Swapping)
        || (step == Swap(c) && at == if s.fetched then Notifying else Spawning)
    {
    }
    if t.fetched && t.loop.None? {
      if s.fetched {
        var c :| CallerIs(s, c, Spawning);
        assert CallerIs(t, c, Spawning);
      } else {
        assert CallerIs(t, step.caller, Spawning);
      }
    }
  }

  lemma StepKeepsEtagSound(s: State, step: Step)
    requires EtagSound(s) && Enabled(s, step)
    ensures EtagSound(Apply(s, step))
  {
  }

  lemma StepKeepsWakeUp(s: State, step: Step)
    requires OneLoop(s) && NoLostWakeUp(s) && Enabled(s, step)
    ensures NoLostWakeUp(Apply(s, step))
  {
    var t := Apply(s, step);
    if Outdated(t) && !t.permit {
      if step.Ready? {
        assert CallerIs(t, step.caller, Swapping);
      } else {
        var c :| CallerIs(s, c, Swapping) || CallerIs(s, c, Notifying);
        assert CallerIs(t, c, Swapping) || CallerIs(t, c, Notifying);
      }
    }
  }

  lemma StepKeepsCount(s: State, step: Step)
    requires Counted(s) && Enabled(s, step)
    ensures Counted(Apply(s, step))
  {
  }

  // ---------- all runs ----------

  /** The states of a run, each enabled step after the other, from the initial state on. */
  ghost predicate Reachable(s: State, steps: seq<Step>)
    decreases |steps|
  {
    if steps == [] then s == INITIAL
    else
      var last := steps[|steps| - 1];
      exists before :: Reachable(before, steps[..|steps| - 1]) && Enabled(before, last) && s == Apply(before, last)
  }

  lemma {:induction false} ReachableInv(s: State, steps: seq<Step>)
    requires Reachable(s, steps)
    ensures Inv(s)
    decreases |steps|
  {
    if steps != [] {
      var last := steps[|steps| - 1];
      var before :| Reachable(before, steps[..|steps| - 1]) && Enabled(before, last) && s == Apply(before, last);
      ReachableInv(before, steps[..|steps| - 1]);
      StepKeepsOneLoop(before, last);
      StepKeepsEtagSound(before, last);
      StepKeepsWakeUp(before, last);
      StepKeepsCount(before, last);
    }
  }

  /** A request carries an etag only when the shown name came with that etag, from the very target that is asked. */
  lemma EtagMatchesShownName(s: State, steps: seq<Step>)
    requires Reachable(s, steps) && LoopIs(s, Fetching) && s.loop.value.etag.Some?
    ensures s.loop.value.previousTarget.Some?
    ensures s.origin == Some(Origin(s.loop.value.previousTarget.value, s.loop.value.etag))
  {
    ReachableInv(s, steps);
  }

  /** The loop never sleeps on an outdated target without a stored wake-up, unless a caller has yet to notify it. */
  lemma NeverSleepsThroughRetargeting(s: State, steps: seq<Step>)
    requires Reachable(s, steps) && LoopIs(s, Sleeping) && s.loop.value.previousTarget != Some(s.target)
    ensures Enabled(s, Wake) || exists c :: CallerIs(s, c, Swapping) || Enabled(s, Notify(c))
    ensures forall c | CallerIs(s, c, Swapping) :: Enabled(s, Swap(c)) && Enabled(Apply(s, Swap(c)), Notify(c))
  {
    ReachableInv(s, steps);
    if !s.permit {
      var c :| CallerIs(s, c, Swapping) || CallerIs(s, c, Notifying);
      assert CallerIs(s, c, Swapping) || Enabled(s, Notify(c));
    }
  }

  /** `t` follows `s` by these steps, each enabled in its turn. */
  predicate Leads(s: State, steps: seq<Step>, t: State)
    decreases |steps|
  {
    if steps == [] then s == t else Enabled(s, steps[0]) && Leads(Apply(s, steps[0]), steps[1..], t)
  }

  lemma NoSpawnBesideLoop(s: State)
    requires OneLoop(s) && s.loop.Some?
    ensures forall caller :: !Enabled(s, Spawn(caller))
  {
    forall caller
      ensures !Enabled(s, Spawn(caller))
    {
      assert !CallerIs(s, caller, Spawning);
    }
  }

  /** A running loop runs in every later state, and no caller is about to spawn another. */
  lemma {:induction false} LoopStays(s: State, steps: seq<Step>, t: State)
    requires OneLoop(s) && s.loop.Some? && Leads(s, steps, t)
    ensures t.loop.Some? && forall caller :: !Enabled(t, Spawn(caller))
    decreases |steps|
  {
    hide OneLoop;
    if steps == [] {
      NoSpawnBesideLoop(t);
    } else {
      StepKeepsOneLoop(s, steps[0]);
      LoopStays(Apply(s, steps[0]), steps[1..], t);
    }
  }

  /** There is never a second loop: spawning finds none running, and no spawn is enabled in any state after it. */
  lemma LoopIsSpawnedOnce(s: State, before: seq<Step>, caller: nat, after: seq<Step>, t: State)
    requires Reachable(s, before) && Enabled(s, Spawn(caller)) && Leads(Apply(s, Spawn(caller)), after, t)
    ensures s.loop.None? && t.loop.Some?
    ensures forall other :: !Enabled(t, Spawn(other))
  {
    ReachableInv(s, before);
    StepKeepsOneLoop(s, Spawn(caller));
    LoopStays(Apply(s, Spawn(caller)), after, t);
  }

  /**
   A named reply is shown exactly when the readiness calls since its request are a multiple of the counter's width and
   end on the port that was asked. Below 2^64 calls that means: exactly when there was none.
   */
  lemma ReplyLandsExactly(s: State, steps: seq<Step>)
    requires Reachable(s, steps) && Enabled(s, Land) && s.loop.value.at.reply.Named?
    ensures s.loop.value.previousTarget.Some? && s.loop.value.readAt <= s.readyCalls
    ensures var since, reply, t := s.readyCalls - s.loop.value.readAt, s.loop.value.at.reply, Apply(s, Land);
      if since % GENERATIONS == 0 && s.target.port == s.loop.value.previousTarget.value.port
      then Lands(s) && t.name == reply.name && t.origin == Some(Origin(s.target, reply.etag))
      else !Lands(s) && t.name == s.name && t.origin == s.origin
  {
    ReachableInv(s, steps);
    SameRemainder(s.loop.value.readAt, s.readyCalls);
  }

  /** Hence no step but a landing changes the shown name, and only with a reply that the current port was asked for. */
  lemma NameOnlyFromCurrentTarget(s: State, steps: seq<Step>, step: Step)
    requires Reachable(s, steps) && Enabled(s, step) && Apply(s, step).name != s.name
    ensures step == Land && s.loop.value.previousTarget == Some(s.target) && s.loop.value.at.reply.Named?
    ensures (s.readyCalls - s.loop.value.readAt) % GENERATIONS == 0 && s.loop.value.readAt <= s.readyCalls
    ensures Apply(s, step).name == s.loop.value.at.reply.name
    ensures Apply(s, step).origin == Some(Origin(s.target, s.loop.value.at.reply.etag))
  {
    ReplyLandsExactly(s, steps);
  }

  lemma SameRemainder(a: nat, b: nat)
    requires a <= b
    ensures a % GENERATIONS == b % GENERATIONS <==> (b - a) % GENERATIONS == 0
  {
  }

  // ---------- what a poll achieves ----------

  /** The last signal of the run is a notification that no wake-up has consumed. */
  predicate Signalled(steps: seq<Step>)
  {
    steps != [] &&
    var last := steps[|steps| - 1];
    last.Notify? || (!last.Wake? && Signalled(steps[..|steps| - 1]))
  }

  /** A wake-up is stored exactly when a caller has notified since the loop was last woken; a timeout consumes none. */
  lemma {:induction false} PermitMeaning(s: State, steps: seq<Step>)
    requires Reachable(s, steps)
    ensures s.permit <==> Signalled(steps)
    decreases |steps|
  {
    if steps != [] {
      var last := steps[|steps| - 1];
      var before :| Reachable(before, steps[..|steps| - 1]) && Enabled(before, last) && s == Apply(before, last);
      PermitMeaning(before, steps[..|steps| - 1]);
    }
  }

  /** A poll that no readiness call comes between shows what it was answered, and the next one asks with its etag. */
  lemma PollShowsAnswer(s: State, name: string, etag: Option<string>)
    requires LoopIs(s, Reading)
    ensures var asked := Apply(s, Read);
      && Enabled(asked, Answer(Named(name, etag)))
      && var shown := Apply(Apply(asked, Answer(Named(name, etag))), Land);
      && shown.name == name && LoopIs(shown, Sleeping)
      && var again := Apply(Apply(shown, TimeOut), Read);
      && LoopIs(again, Fetching) && again.loop.value.etag == etag
      && again.loop.value.previousTarget == Some(s.target)
  {
  }

  /** A poll that is answered with nothing new keeps the name and the etag; one that is overtaken drops the etag. */
  lemma PollWithoutNews(s: State, caller: nat, port: nat)
    requires LoopIs(s, Fetching) && s.loop.value.previousTarget == Some(s.target) && caller !in s.callers
    ensures var kept := Apply(Apply(s, Answer(Nothing)), Land);
      && kept.name == s.name && kept.origin == s.origin
      && Apply(Apply(kept, TimeOut), Read).loop.value.etag == s.loop.value.etag
    ensures var later := Apply(Apply(s, Answer(Nothing)), Land);
      var moved := Apply(later, Ready(caller, port));
      moved.target.port == port && moved.target.generation == (s.target.generation + 1) % 0x1_0000_0000_0000_0000
      && Apply(Apply(moved, TimeOut), Read).loop.value.etag == None
  {
  }
}
