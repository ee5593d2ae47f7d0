/**
 The natural-timing gate: a due proactive message is sent now or deferred to a better moment. Times are integers in
 nanoseconds since the Unix epoch, in UTC.
 */
module ProactiveTiming {
  import opened Wrappers
  import opened Time

  const MID_FLOW_WINDOW := 10 * MINUTE
  const MAX_DEFER := 6 * HOUR
  const QUIET_EXIT_GRACE := 30 * MINUTE
  const MIN_QUIET_EVENTS := 20

  datatype DeferReason = QuietHours | MidFlow

  datatype SendDecision = SendNow | Defer(until: int, reason: DeferReason)

  // ---------- the learned rhythm ----------

  datatype InteractionHistory = InteractionHistory(hourCounts: seq<nat>, total: nat, lastUserMessage: Option<int>)

  function HourOf(t: int): (h: nat)
    ensures h < 24
  {
    t / HOUR % 24
  }

  function CountIn(timestamps: seq<int>, hour: nat): nat
  {
    if timestamps == [] then 0
    else CountIn(timestamps[..|timestamps| - 1], hour) + if HourOf(timestamps[|timestamps| - 1]) == hour then 1 else 0
  }

  /** `h` is what the given user messages teach: their number per hour of day, their number, and the latest one. */
  ghost predicate Learned(h: InteractionHistory, timestamps: seq<int>)
  {
    && |h.hourCounts| == 24 && h.total == |timestamps|
    && (forall hour :: 0 <= hour < 24 ==> h.hourCounts[hour] == CountIn(timestamps, hour))
    && (h.lastUserMessage.None? <==> timestamps == [])
    && (h.lastUserMessage.Some? ==> h.lastUserMessage.value in timestamps)
    && (h.lastUserMessage.Some? ==> forall t | t in timestamps :: t <= h.lastUserMessage.value)
  }

  method FromTimestamps(timestamps: seq<int>) returns (h: InteractionHistory)
    ensures Learned(h, timestamps)
  {
    h := InteractionHistory(seq(24, _ => 0), 0, None);
    for i := 0 to |timestamps|
      invariant Learned(h, timestamps[..i])
    {
      var ts := timestamps[i];
      assert timestamps[..i + 1][..i] == timestamps[..i] && timestamps[..i + 1] == timestamps[..i] + [ts];
      var hour := HourOf(ts);
      h := h.(
        hourCounts := h.hourCounts[hour := h.hourCounts[hour] + 1],
        total := h.total + 1,
        lastUserMessage :=
          if h.lastUserMessage.None? || ts > h.lastUserMessage.value then Some(ts) else h.lastUserMessage);
    }
    assert timestamps[..|timestamps|] == timestamps;
  }

  /** What the gate needs of a history: a counter per hour, and a busy hour as soon as anything was counted. */
  predicate Usable(h: InteractionHistory)
  {
    |h.hourCounts| == 24 && (h.total > 0 ==> exists hour :: 0 <= hour < 24 && h.hourCounts[hour] > 0)
  }

  lemma LearnedIsUsable(h: InteractionHistory, timestamps: seq<int>)
    requires Learned(h, timestamps)
    ensures Usable(h)
  {
    if h.total > 0 {
      var last := timestamps[|timestamps| - 1];
      assert h.hourCounts[HourOf(last)] > 0;
    }
  }

  // ---------- the decision ----------

  function Min(a: int, b: int): int { if a < b then a else b }

  /** The hour of day `k` hours after `hour` never saw a user message. */
  predicate QuietAfter(h: InteractionHistory, hour: nat, k: nat)
    requires |h.hourCounts| == 24
  {
    h.hourCounts[(hour + k) % 24] == 0
  }

  /** The first hour from `ahead` hours on, at most a day away, in which the user was ever active. */
  function NextActive(h: InteractionHistory, hour: nat, ahead: nat): (r: Option<nat>)
    requires |h.hourCounts| == 24
    ensures r.Some? ==> ahead <= r.value <= 24 && !QuietAfter(h, hour, r.value)
    ensures forall k :: ahead <= k <= 24 && (r.Some? ==> k < r.value) ==> QuietAfter(h, hour, k)
    decreases 25 - ahead
  {
    if ahead > 24 then None
    else if !QuietAfter(h, hour, ahead) then Some(ahead)
    else NextActive(h, hour, ahead + 1)
  }

  predicate InMidFlow(now: int, h: InteractionHistory)
  {
    h.lastUserMessage.Some? && 0 <= now - h.lastUserMessage.value < MID_FLOW_WINDOW
  }

  predicate InQuietHour(now: int, h: InteractionHistory)
    requires |h.hourCounts| == 24
  {
    h.total >= MIN_QUIET_EVENTS && h.hourCounts[HourOf(now)] == 0
  }

  function Evaluate(now: int, h: InteractionHistory, since: Option<int>): SendDecision
    requires |h.hourCounts| == 24
  {
    if since.Some? && now - since.value >= MAX_DEFER then SendNow
    else
      var cap := (if since.Some? then since.value else now) + MAX_DEFER;
      if h.total == 0 then SendNow
      else if InMidFlow(now, h) then Defer(Min(h.lastUserMessage.value + MID_FLOW_WINDOW, cap), MidFlow)
      else if InQuietHour(now, h) then
        var ahead := NextActive(h, HourOf(now), 1);
        if ahead.None? then SendNow
        else Defer(Min(now - now % HOUR + ahead.value * HOUR + QUIET_EXIT_GRACE, cap), QuietHours)
      else SendNow
  }

  // ---------- one key of the ledger ----------

  datatype DeferralWindow = DeferralWindow(since: int, until: int, reason: DeferReason)

  /** One call of the gate: its time, whether natural timing is on, and the history unless loading it failed. */
  datatype Call = Call(now: int, enabled: bool, history: Option<InteractionHistory>)

  predicate ValidCall(c: Call)
  {
    c.history.Some? ==> Usable(c.history.value)
  }

  /** What a call does to the window of its key, and what it decides. */
  function GateStep(w: Option<DeferralWindow>, c: Call): (r: (Option<DeferralWindow>, SendDecision))
    requires ValidCall(c)
  {
    if !c.enabled then (None, SendNow)
    else if w.Some? && c.now < w.value.until then (w, Defer(w.value.until, w.value.reason))
    else if c.history.None? then (None, SendNow)
    else
      match Evaluate(c.now, c.history.value, if w.Some? then Some(w.value.since) else None)
      case SendNow => (None, SendNow)
      case Defer(until, reason) =>
        (Some(DeferralWindow(if w.Some? then w.value.since else c.now, until, reason)), Defer(until, reason))
  }

  // ---------- when a call defers, in terms of the clock ----------

  /** The user wrote within the last ten minutes. */
  predicate Writing(h: InteractionHistory, now: int)
  {
    h.lastUserMessage.Some? && h.lastUserMessage.value <= now < h.lastUserMessage.value + 600_000_000_000
  }

  /** The hour of day `k` hours on has seen a user message. */
  predicate Used(h: InteractionHistory, now: int, k: nat)
    requires |h.hourCounts| == 24
  {
    h.hourCounts[(now / 3_600_000_000_000 + k) % 24] > 0
  }

  /** Twenty messages or more, none in this hour of day, and the next hour of day with one is `ahead` hours on. */
  predicate Asleep(h: InteractionHistory, now: int, ahead: nat)
    requires |h.hourCounts| == 24
  {
    && h.total >= 20 && 1 <= ahead <= 24 && Used(h, now, ahead)
    && forall k :: 0 <= k < ahead ==> !Used(h, now, k)
  }

  /** `until` is the earlier of the natural moment and six hours from the anchor. */
  predicate IsEarlier(until: int, moment: int, anchor: int)
  {
    var cap := anchor + 21_600_000_000_000;
    until == if moment < cap then moment else cap
  }

  /** The history holds the message back: ten minutes after the user wrote, or half past the next active hour. */
  ghost predicate HoldsBack(h: InteractionHistory, now: int, anchor: int, until: int, reason: DeferReason)
    requires |h.hourCounts| == 24
  {
    && h.total > 0 && now < anchor + 21_600_000_000_000
    && match reason
       case MidFlow => Writing(h, now) && IsEarlier(until, h.lastUserMessage.value + 600_000_000_000, anchor)
       case QuietHours =>
         !Writing(h, now) && exists ahead :: Asleep(h, now, ahead) && IsEarlier(until, HalfPast(now, ahead), anchor)
  }

  function HalfPast(now: int, ahead: nat): int
  {
    (now / 3_600_000_000_000 + ahead) * 3_600_000_000_000 + 1_800_000_000_000
  }

  /**
   A call defers: natural timing is on, and either the open window has not ended, or there is none, the history could be
   loaded, and it holds the message back.
   */
  ghost predicate Defers(w: Option<DeferralWindow>, c: Call, until: int, reason: DeferReason)
    requires ValidCall(c)
  {
    && c.enabled
    && if w.Some? && c.now < w.value.until then until == w.value.until && reason == w.value.reason
       else
         c.history.Some?
         && HoldsBack(c.history.value, c.now, if w.Some? then w.value.since else c.now, until, reason)
  }

  lemma UsedMeaning(h: InteractionHistory, now: int, k: nat)
    requires |h.hourCounts| == 24
    ensures Used(h, now, k) <==> !QuietAfter(h, HourOf(now), k)
  {
    var q := now / 3_600_000_000_000;
    assert (q + k) % 24 == (q % 24 + k) % 24;
  }

  lemma NextActiveMeaning(h: InteractionHistory, now: int, ahead: nat)
    requires |h.hourCounts| == 24 && h.total >= 20
    ensures Asleep(h, now, ahead) <==> InQuietHour(now, h) && NextActive(h, HourOf(now), 1) == Some(ahead)
  {
    hide NextActive, HourOf, QuietAfter, Used;
    forall k: nat
      ensures Used(h, now, k) <==> !QuietAfter(h, HourOf(now), k)
    {
      UsedMeaning(h, now, k);
    }
    ThisHour(h, now);
    var next := NextActive(h, HourOf(now), 1);
    if Asleep(h, now, ahead) {
      assert QuietAfter(h, HourOf(now), 0);
    }
    if InQuietHour(now, h) && next == Some(ahead) {
      assert forall k: nat :: k < ahead ==> QuietAfter(h, HourOf(now), k);
    }
  }

  lemma ThisHour(h: InteractionHistory, now: int)
    requires |h.hourCounts| == 24 && h.total >= 20
    ensures InQuietHour(now, h) <==> QuietAfter(h, HourOf(now), 0)
  {
  }

  lemma HalfPastMeaning(now: int, ahead: nat)
    ensures now - now % HOUR + ahead * HOUR + QUIET_EXIT_GRACE == HalfPast(now, ahead)
  {
    assert now == HOUR * (now / HOUR) + now % HOUR;
  }

  lemma EvaluateMeaning(h: InteractionHistory, now: int, since: Option<int>, until: int, reason: DeferReason)
    requires Usable(h)
    ensures Evaluate(now, h, since) == Defer(until, reason) <==>
      HoldsBack(h, now, if since.Some? then since.value else now, until, reason)
  {
    hide NextActive, HourOf, Usable, Asleep, HalfPast;
    assert |h.hourCounts| == 24 by { UsableHours(h); }
    var ahead := NextActive(h, HourOf(now), 1);
    if ahead.Some? {
      HalfPastMeaning(now, ahead.value);
    }
    if h.total >= 20 {
      forall k: nat
        ensures Asleep(h, now, k) <==> InQuietHour(now, h) && ahead == Some(k)
      {
        NextActiveMeaning(h, now, k);
      }
    } else {
      AwakeWhenYoung(h, now);
    }
  }

  lemma UsableHours(h: InteractionHistory)
    requires Usable(h)
    ensures |h.hourCounts| == 24
  {
  }

  lemma AwakeWhenYoung(h: InteractionHistory, now: int)
    requires |h.hourCounts| == 24 && h.total < 20
    ensures forall ahead: nat :: !Asleep(h, now, ahead)
  {
  }

  /** What a call decides and leaves behind, exactly. */
  lemma GateMeaning(w: Option<DeferralWindow>, c: Call)
    requires ValidCall(c)
    ensures var (after, decision) := GateStep(w, c);
      && (forall until, reason :: decision == Defer(until, reason) <==> Defers(w, c, until, reason))
      && (decision.SendNow? ==> after.None?)
      && (decision.Defer? ==>
            after == Some(DeferralWindow(if w.Some? then w.value.since else c.now, decision.until, decision.reason)))
  {
    hide Evaluate, HoldsBack;
    if c.history.Some? {
      forall until, reason
        ensures Evaluate(c.now, c.history.value, if w.Some? then Some(w.value.since) else None) == Defer(until, reason)
          <==> HoldsBack(c.history.value, c.now, if w.Some? then w.value.since else c.now, until, reason)
      {
        EvaluateMeaning(c.history.value, c.now, if w.Some? then Some(w.value.since) else None, until, reason);
      }
    }
  }

  class DeferralLedger {
    var windows: map<string, DeferralWindow>

    constructor ()
      ensures windows == map[]
    {
      windows := map[];
    }

    function Get(key: string): Option<DeferralWindow>
      reads this
    {
      if key in windows then Some(windows[key]) else None
    }

    method Mark(key: string, now: int, until: int, reason: DeferReason)
      modifies this
      ensures windows == old(windows)[key := DeferralWindow(
        if key in old(windows) then old(windows)[key].since else now, until, reason)]
    {
      var since := if key in windows then windows[key].since else now;
      windows := windows[key := DeferralWindow(since, until, reason)];
    }

    method Clear(key: string)
      modifies this
      ensures windows == old(windows) - {key}
    {
      windows := windows - {key};
    }

    /** The one-stop gate of the heartbeat's send paths. */
    method GateKeyedSend(key: string, c: Call) returns (decision: SendDecision)
      requires ValidCall(c)
      modifies this
      ensures (Get(key), decision) == GateStep(old(Get(key)), c)
      ensures forall other :: other != key ==> Get(other) == old(Get(other))
      ensures forall until, reason :: decision == Defer(until, reason) <==> Defers(old(Get(key)), c, until, reason)
      ensures decision.SendNow? <==> Get(key).None?
      ensures decision.Defer? ==>
        && Get(key).value.until == decision.until && Get(key).value.reason == decision.reason
        && Get(key).value.since == if old(Get(key)).Some? then old(Get(key)).value.since else c.now
    {
      GateMeaning(Get(key), c);
      hide Defers, Evaluate;
      if !c.enabled {
        Clear(key);
        return SendNow;
      }
      var win := Get(key);
      if win.Some? && c.now < win.value.until {
        return Defer(win.value.until, win.value.reason);
      }
      if c.history.None? {
        Clear(key);
        return SendNow;
      }
      var deferredSince := if win.Some? then Some(win.value.since) else None;
      decision := Evaluate(c.now, c.history.value, deferredSince);
      if decision.SendNow? {
        Clear(key);
      } else {
        Mark(key, c.now, decision.until, decision.reason);
      }
    }
  }

  // ---------- what every run of one key keeps ----------

  /** An open window is anchored in the past and never reaches beyond six hours from its anchor. */
  predicate Anchored(w: Option<DeferralWindow>, now: int)
  {
    w.Some? ==> w.value.since <= now && w.value.since < w.value.until <= w.value.since + MAX_DEFER
  }

  /** Where the six hours of a message that is due at `now` count from. */
  function Anchor(w: Option<DeferralWindow>, now: int): int
  {
    if w.Some? then w.value.since else now
  }

  predicate Fresh(w: Option<DeferralWindow>, c: Call)
    requires ValidCall(c)
  {
    GateStep(w, c).1.Defer? && (w.None? || c.now >= w.value.until)
  }

  lemma QuietTarget(now: int, ahead: nat)
    requires 1 <= ahead
    ensures now - now % HOUR + ahead * HOUR > now
  {
  }

  /** Every call keeps the window anchored; a deferral always points ahead, and never survives the six hours. */
  lemma StepKeepsAnchor(w: Option<DeferralWindow>, c: Call)
    requires ValidCall(c) && Anchored(w, c.now)
    ensures var (after, decision) := GateStep(w, c);
      && Anchored(after, c.now)
      && (decision.Defer? <==> after.Some?)
      && (decision.Defer? ==> after.value.since == Anchor(w, c.now))
      && (decision.Defer? ==> decision == Defer(after.value.until, after.value.reason))
      && (decision.Defer? ==> c.now < decision.until && c.now < Anchor(w, c.now) + MAX_DEFER)
  {
    if c.history.Some? {
      var h := c.history.value;
      var ahead := NextActive(h, HourOf(c.now), 1);
      if ahead.Some? {
        QuietTarget(c.now, ahead.value);
      }
    }
  }

  // ---------- whole runs of one key ----------

  predicate Ordered(calls: seq<Call>)
  {
    (forall i :: 0 <= i < |calls| ==> ValidCall(calls[i]))
    && forall i, j :: 0 <= i < j < |calls| ==> calls[i].now <= calls[j].now
  }

  function Decisions(w: Option<DeferralWindow>, calls: seq<Call>): (ds: seq<SendDecision>)
    requires Ordered(calls)
    ensures |ds| == |calls|
    decreases |calls|
  {
    if calls == [] then []
    else
      var (after, decision) := GateStep(w, calls[0]);
      [decision] + Decisions(after, calls[1..])
  }

  function WindowAfter(w: Option<DeferralWindow>, calls: seq<Call>): Option<DeferralWindow>
    requires Ordered(calls)
    decreases |calls|
  {
    if calls == [] then w else WindowAfter(GateStep(w, calls[0]).0, calls[1..])
  }

  predicate AllDeferred(ds: seq<SendDecision>)
  {
    forall i :: 0 <= i < |ds| ==> ds[i].Defer?
  }

  /**
   As long as a message is only deferred, its window keeps the anchor of the first deferral, the window ends within
   six hours of it, and so does every one of the calls.
   */
  lemma {:induction false} DeferredRun(w: Option<DeferralWindow>, calls: seq<Call>)
    requires calls != [] && Ordered(calls) && Anchored(w, calls[0].now) && AllDeferred(Decisions(w, calls))
    ensures var anchor, last, after := Anchor(w, calls[0].now), calls[|calls| - 1].now, WindowAfter(w, calls);
      && after.Some? && after.value.since == anchor
      && last < after.value.until <= anchor + MAX_DEFER
    decreases |calls|
  {
    hide GateStep;
    StepKeepsAnchor(w, calls[0]);
    var (after, decision) := GateStep(w, calls[0]);
    var ds := Decisions(w, calls);
    assert ds[0] == decision;
    if |calls| > 1 {
      assert Decisions(after, calls[1..]) == ds[1..];
      DeferredRun(after, calls[1..]);
    } else {
      assert calls[1..] == [];
    }
  }

  /** Delayed, never lost, never past six hours: a call six hours after the anchor has seen the message sent. */
  lemma NeverPastSixHours(w: Option<DeferralWindow>, calls: seq<Call>, j: nat)
    requires j < |calls| && Ordered(calls) && Anchored(w, calls[0].now)
    requires calls[j].now >= Anchor(w, calls[0].now) + MAX_DEFER
    ensures exists i :: 0 <= i <= j && Decisions(w, calls)[i] == SendNow
  {
    DecisionsPrefix(w, calls, j + 1);
    if AllDeferred(Decisions(w, calls[..j + 1])) {
      DeferredRun(w, calls[..j + 1]);
      assert false;
    }
    var i :| 0 <= i < j + 1 && !Decisions(w, calls[..j + 1])[i].Defer?;
    assert Decisions(w, calls)[i] == SendNow;
  }

  lemma {:induction false} DecisionsPrefix(w: Option<DeferralWindow>, calls: seq<Call>, n: nat)
    requires n <= |calls| && Ordered(calls)
    ensures Decisions(w, calls[..n]) == Decisions(w, calls)[..n]
    decreases n
  {
    hide GateStep;
    if n > 0 {
      var after := GateStep(w, calls[0]).0;
      DecisionsPrefix(after, calls[1..], n - 1);
      assert calls[..n][1..] == calls[1..][..n - 1];
    }
  }
}
