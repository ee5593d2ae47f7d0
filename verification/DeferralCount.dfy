/**
 How often one message is deferred before it is sent, when its history does not change: never more than three times, and
 a third time exactly when its last user message is recorded in a certain stretch of the future.
 */
module DeferralCount {
  import opened Wrappers
  import opened Time
  import opened ProactiveTiming

  /** Every call meets its open window before its end, or less than half an hour after it. */
  predicate Punctual(w: Option<DeferralWindow>, calls: seq<Call>)
    requires Ordered(calls)
    decreases |calls|
  {
    calls != [] ==>
      && (w.Some? ==> calls[0].now < w.value.until + QUIET_EXIT_GRACE)
      && Punctual(GateStep(w, calls[0]).0, calls[1..])
  }

  /** How many new deferrals are computed before the message is sent. */
  function FreshDeferrals(w: Option<DeferralWindow>, calls: seq<Call>): nat
    requires Ordered(calls)
    decreases |calls|
  {
    if calls == [] || GateStep(w, calls[0]).1.SendNow? then 0
    else (if Fresh(w, calls[0]) then 1 else 0) + FreshDeferrals(GateStep(w, calls[0]).0, calls[1..])
  }

  predicate SameHistory(calls: seq<Call>, h: InteractionHistory)
  {
    forall i :: 0 <= i < |calls| ==> calls[i].enabled && calls[i].history == Some(h)
  }

  // ---------- what is left of an open window ----------

  /** The window that an evaluation at `now` leaves, if it defers again. */
  function Renewed(w: DeferralWindow, now: int, h: InteractionHistory): Option<DeferralWindow>
    requires Usable(h)
  {
    match Evaluate(now, h, Some(w.since))
    case SendNow => None
    case Defer(until, reason) => Some(DeferralWindow(w.since, until, reason))
  }

  predicate InTime(w: DeferralWindow, now: int)
  {
    w.until <= now < w.until + QUIET_EXIT_GRACE
  }

  /** However the window is met in time, at most `n` more deferrals follow. */
  ghost predicate Settles(w: DeferralWindow, h: InteractionHistory, n: nat)
    requires Usable(h)
    decreases n
  {
    forall now :: InTime(w, now) && Renewed(w, now, h).Some? ==> n > 0 && Settles(Renewed(w, now, h).value, h, n - 1)
  }

  lemma {:induction false} SettledRun(w: DeferralWindow, calls: seq<Call>, h: InteractionHistory, n: nat)
    requires Usable(h) && Settles(w, h, n)
    requires Ordered(calls) && SameHistory(calls, h) && Punctual(Some(w), calls)
    ensures FreshDeferrals(Some(w), calls) <= n
    decreases |calls|
  {
    hide Evaluate;
    if calls != [] {
      var c := calls[0];
      if c.now < w.until {
        SettledRun(w, calls[1..], h, n);
      } else if Renewed(w, c.now, h).Some? {
        assert InTime(w, c.now);
        SettledRun(Renewed(w, c.now, h).value, calls[1..], h, n - 1);
      }
    }
  }

  // ---------- the kinds of windows ----------

  /** `until` is half past the start of an hour in which the user was active. */
  predicate ActiveAround(h: InteractionHistory, until: int)
    requires Usable(h)
  {
    until % HOUR == QUIET_EXIT_GRACE && h.hourCounts[HourOf(until)] > 0
  }

  predicate AtCap(w: DeferralWindow)
  {
    w.until == w.since + MAX_DEFER
  }

  /** When the window ends, the user's last message is no active turn any more, or the cap is reached. */
  predicate Calm(w: DeferralWindow, h: InteractionHistory)
  {
    AtCap(w) || (h.lastUserMessage.Some? ==> h.lastUserMessage.value + MID_FLOW_WINDOW <= w.until)
  }

  /** The window ends in an hour in which the user was active, or at the cap. */
  predicate Awake(w: DeferralWindow, h: InteractionHistory)
    requires Usable(h)
  {
    AtCap(w) || ActiveAround(h, w.until)
  }

  lemma SameHour(until: int, now: int)
    requires until % HOUR == QUIET_EXIT_GRACE && until <= now < until + QUIET_EXIT_GRACE
    ensures HourOf(now) == HourOf(until)
  {
    assert now / HOUR == until / HOUR;
  }

  lemma NextHour(until: int, now: int)
    requires until % HOUR == QUIET_EXIT_GRACE && until + QUIET_EXIT_GRACE <= now < until + QUIET_EXIT_GRACE + HOUR
    ensures HourOf(now) == HourOf(until + QUIET_EXIT_GRACE)
  {
    assert now / HOUR == (until + QUIET_EXIT_GRACE) / HOUR;
  }

  /** Half past the start of the next hour in which the user was ever active. */
  function QuietExit(now: int, h: InteractionHistory): int
    requires Usable(h) && h.total > 0
  {
    BusyAhead(now, h);
    now - now % HOUR + NextActive(h, HourOf(now), 1).value * HOUR + QUIET_EXIT_GRACE
  }

  lemma BusyAhead(now: int, h: InteractionHistory)
    requires Usable(h) && h.total > 0
    ensures NextActive(h, HourOf(now), 1).Some?
  {
    var hour :| 0 <= hour < 24 && h.hourCounts[hour] > 0;
    var k := if hour > HourOf(now) then hour - HourOf(now) else hour + 24 - HourOf(now);
    assert !QuietAfter(h, HourOf(now), k);
  }

  lemma QuietExitIsActive(now: int, h: InteractionHistory)
    requires Usable(h) && h.total > 0
    ensures ActiveAround(h, QuietExit(now, h)) && QuietExit(now, h) > now + QUIET_EXIT_GRACE
  {
    hide NextActive, HourOf, QuietAfter;
    BusyAhead(now, h);
    var ahead := NextActive(h, HourOf(now), 1).value;
    HoursOn(now, ahead);
    NotQuiet(h, HourOf(now), ahead);
  }

  lemma NotQuiet(h: InteractionHistory, hour: nat, ahead: nat)
    requires |h.hourCounts| == 24 && !QuietAfter(h, hour, ahead)
    ensures h.hourCounts[(hour + ahead) % 24] > 0
  {
  }

  /** Half past the start of the hour that is `ahead` hours on. */
  lemma HoursOn(now: int, ahead: nat)
    requires ahead >= 1
    ensures var until := now - now % HOUR + ahead * HOUR + QUIET_EXIT_GRACE;
      until % HOUR == QUIET_EXIT_GRACE && until > now + QUIET_EXIT_GRACE && HourOf(until) == (HourOf(now) + ahead) % 24
  {
    var q := now / HOUR;
    var until := (q + ahead) * HOUR + QUIET_EXIT_GRACE;
    assert now - now % HOUR == q * HOUR;
    assert until / HOUR == q + ahead;
    assert (q + ahead) % 24 == (q % 24 + ahead) % 24;
  }

  /** Every deferral is computed from mid-flow or from quiet hours. */
  lemma Deferred(now: int, h: InteractionHistory, since: Option<int>)
    requires Usable(h) && Evaluate(now, h, since).Defer?
    ensures var cap := (if since.Some? then since.value else now) + MAX_DEFER;
      && now < cap && h.total > 0
      && Evaluate(now, h, since) ==
        if InMidFlow(now, h) then Defer(Min(h.lastUserMessage.value + MID_FLOW_WINDOW, cap), MidFlow)
        else Defer(Min(QuietExit(now, h), cap), QuietHours)
    ensures !InMidFlow(now, h) ==> InQuietHour(now, h)
  {
    hide NextActive;
  }

  /** An evaluation within half an hour of a calm end in an active hour, or of the cap, sends. */
  lemma LastThenSent(w: DeferralWindow, now: int, h: InteractionHistory)
    requires Usable(h) && Calm(w, h) && Awake(w, h) && InTime(w, now)
    ensures Evaluate(now, h, Some(w.since)) == SendNow
  {
    hide NextActive, HourOf;
    if !AtCap(w) {
      SameHour(w.until, now);
    }
  }

  lemma CalmAndAwakeSettles(w: DeferralWindow, h: InteractionHistory)
    requires Usable(h) && Calm(w, h) && Awake(w, h)
    ensures Settles(w, h, 0)
  {
    hide Evaluate;
    forall now | InTime(w, now)
      ensures Renewed(w, now, h).None?
    {
      LastThenSent(w, now, h);
    }
  }

  /** After a calm end only quiet hours can defer again, and then to the last time. */
  lemma CalmSettles(w: DeferralWindow, h: InteractionHistory)
    requires Usable(h) && Calm(w, h)
    ensures Settles(w, h, 1)
  {
    hide Evaluate, Settles, ActiveAround, QuietExit, InQuietHour;
    forall now | InTime(w, now) && Renewed(w, now, h).Some?
      ensures Settles(Renewed(w, now, h).value, h, 0)
    {
      Deferred(now, h, Some(w.since));
      QuietExitIsActive(now, h);
      CalmAndAwakeSettles(Renewed(w, now, h).value, h);
    }
    SettlesBy(w, h, 1);
  }

  lemma SettlesBy(w: DeferralWindow, h: InteractionHistory, n: nat)
    requires Usable(h) && n > 0
    requires forall now :: InTime(w, now) && Renewed(w, now, h).Some? ==> Settles(Renewed(w, now, h).value, h, n - 1)
    ensures Settles(w, h, n)
  {
  }

  /** After an end in an active hour only mid-flow can defer again, and then to a calm end. */
  lemma AwakeSettles(w: DeferralWindow, h: InteractionHistory)
    requires Usable(h) && Awake(w, h)
    ensures Settles(w, h, 2)
  {
    hide Evaluate, Settles, QuietExit, HourOf;
    forall now | InTime(w, now) && Renewed(w, now, h).Some?
      ensures Settles(Renewed(w, now, h).value, h, 1)
    {
      Deferred(now, h, Some(w.since));
      if !AtCap(w) {
        SameHour(w.until, now);
      }
      CalmSettles(Renewed(w, now, h).value, h);
    }
    SettlesBy(w, h, 2);
  }

  // ---------- how many deferrals from the first call on ----------

  /** The window that the first call of a message opens. */
  function Opened(now: int, h: InteractionHistory): Option<DeferralWindow>
    requires Usable(h)
  {
    match Evaluate(now, h, None)
    case SendNow => None
    case Defer(until, reason) => Some(DeferralWindow(now, until, reason))
  }

  /** The calls for one message, first seen at `start`, with an unchanged history. */
  predicate PunctualRun(calls: seq<Call>, start: int, h: InteractionHistory)
  {
    calls != [] && calls[0].now == start && Ordered(calls) && SameHistory(calls, h) && Punctual(None, calls)
  }

  lemma FirstCall(calls: seq<Call>, start: int, h: InteractionHistory, n: nat)
    requires Usable(h) && PunctualRun(calls, start, h)
    requires Opened(start, h).Some? ==> Settles(Opened(start, h).value, h, n)
    ensures FreshDeferrals(None, calls) <= n + 1
  {
    hide Evaluate, Settles;
    if Opened(start, h).Some? {
      SettledRun(Opened(start, h).value, calls[1..], h, n);
    }
  }

  lemma OpenedIsCalmOrAwake(start: int, h: InteractionHistory)
    requires Usable(h) && Opened(start, h).Some?
    ensures var w := Opened(start, h).value;
      && w.since == start < w.until && (Calm(w, h) || Awake(w, h))
      && (Calm(w, h) ||
          (InQuietHour(start, h) && !AtCap(w) && w == DeferralWindow(start, QuietExit(start, h), QuietHours)))
  {
    hide Evaluate, InQuietHour, QuietExit;
    Deferred(start, h, None);
    QuietExitIsActive(start, h);
  }

  /** Whatever the timestamps say, a punctual message with an unchanged history is deferred at most three times. */
  lemma AtMostThreeDeferrals(calls: seq<Call>, start: int, h: InteractionHistory)
    requires Usable(h) && PunctualRun(calls, start, h)
    ensures FreshDeferrals(None, calls) <= 3
  {
    hide Evaluate, Settles, Calm, Awake;
    if Opened(start, h).Some? {
      var w := Opened(start, h).value;
      OpenedIsCalmOrAwake(start, h);
      if Calm(w, h) {
        CalmSettles(w, h);
        FirstCall(calls, start, h, 1);
      } else {
        AwakeSettles(w, h);
        FirstCall(calls, start, h, 2);
      }
    } else {
      FirstCall(calls, start, h, 0);
    }
  }

  function Max(a: int, b: int): int { if a < b then b else a }

  /**
   The message is due in a quiet hour, the last user message is recorded less than ten minutes before, or less than half
   an hour after, the planned end of the quiet hours, no activity is known in the hour that follows, and both that hour
   and the end of the recorded turn come before the cap.
   */
  predicate Skewed(start: int, h: InteractionHistory)
    requires Usable(h)
  {
    InQuietHour(start, h) && h.lastUserMessage.Some? &&
    var exit, last := QuietExit(start, h), h.lastUserMessage.value;
    && exit - MID_FLOW_WINDOW < last < exit + QUIET_EXIT_GRACE
    && h.hourCounts[HourOf(exit + QUIET_EXIT_GRACE)] == 0
    && Max(exit + QUIET_EXIT_GRACE, last + MID_FLOW_WINDOW) < start + MAX_DEFER
  }

  /** Unless the record is skewed, a mid-flow deferral after quiet hours is the last one. */
  lemma UnskewedSettles(start: int, h: InteractionHistory)
    requires Usable(h) && !Skewed(start, h) && Opened(start, h).Some?
    ensures Settles(Opened(start, h).value, h, 1)
  {
    hide Evaluate, Settles, QuietExit, HourOf, ActiveAround, InQuietHour;
    var w := Opened(start, h).value;
    OpenedIsCalmOrAwake(start, h);
    if Calm(w, h) {
      CalmSettles(w, h);
    } else {
      forall now | InTime(w, now) && Renewed(w, now, h).Some?
        ensures Settles(Renewed(w, now, h).value, h, 0)
      {
        MidFlowAfterQuiet(start, now, h);
      }
      SettlesBy(w, h, 1);
    }
  }

  lemma MidFlowAfterQuiet(start: int, now: int, h: InteractionHistory)
    requires Usable(h) && !Skewed(start, h) && InQuietHour(start, h)
    requires var w := DeferralWindow(start, QuietExit(start, h), QuietHours);
      !AtCap(w) && Awake(w, h) && InTime(w, now) && Renewed(w, now, h).Some?
    ensures Settles(Renewed(DeferralWindow(start, QuietExit(start, h), QuietHours), now, h).value, h, 0)
  {
    hide Evaluate, Settles, QuietExit;
    var w := DeferralWindow(start, QuietExit(start, h), QuietHours);
    var v := Renewed(w, now, h).value;
    Deferred(now, h, Some(start));
    SameHour(w.until, now);
    assert InMidFlow(now, h);
    forall later | InTime(v, later)
      ensures Renewed(v, later, h).None?
    {
      if Renewed(v, later, h).Some? {
        Deferred(later, h, Some(start));
        if later < w.until + QUIET_EXIT_GRACE {
          SameHour(w.until, later);
        } else {
          NextHour(w.until, later);
        }
        assert false;
      }
    }
    SettlesNow(v, h);
  }

  lemma SettlesNow(w: DeferralWindow, h: InteractionHistory)
    requires Usable(h) && forall now :: InTime(w, now) ==> Renewed(w, now, h).None?
    ensures Settles(w, h, 0)
  {
  }

  /** A skewed record defers three times: at first, while the user seems to be writing, and in the quiet hour after. */
  lemma SkewedRun(start: int, h: InteractionHistory) returns (calls: seq<Call>)
    requires Usable(h) && Skewed(start, h)
    ensures PunctualRun(calls, start, h) && FreshDeferrals(None, calls) == 3
  {
    hide Evaluate, GateStep, NextActive, HourOf;
    var exit, last := QuietExit(start, h), h.lastUserMessage.value;
    var first, second := Max(exit, last), Max(exit + QUIET_EXIT_GRACE, last + MID_FLOW_WINDOW);
    SkewedDecisions(start, h, first, second);
    var a, b, c := Call(start, true, Some(h)), Call(first, true, Some(h)), Call(second, true, Some(h));
    calls := [a, b, c];
    var w := DeferralWindow(start, exit, QuietHours);
    var v := DeferralWindow(start, last + MID_FLOW_WINDOW, MidFlow);
    StepDefers(None, a, h);
    StepDefers(Some(w), b, h);
    StepDefers(Some(v), c, h);
    assert calls[1..] == [b, c] && [b, c][1..] == [c] && [c][1..] == [];
    var u := GateStep(Some(v), c).0;
    assert Punctual(u, []) && FreshDeferrals(u, []) == 0;
    assert Punctual(Some(v), [c]) && FreshDeferrals(Some(v), [c]) == 1;
    assert Punctual(Some(w), [b, c]) && FreshDeferrals(Some(w), [b, c]) == 2;
  }

  lemma StepDefers(w: Option<DeferralWindow>, c: Call, h: InteractionHistory)
    requires Usable(h) && c.enabled && c.history == Some(h) && (w.Some? ==> w.value.until <= c.now)
    requires Evaluate(c.now, h, if w.Some? then Some(w.value.since) else None).Defer?
    ensures var d := Evaluate(c.now, h, if w.Some? then Some(w.value.since) else None);
      GateStep(w, c) == (Some(DeferralWindow(Anchor(w, c.now), d.until, d.reason)), d) && Fresh(w, c)
  {
    hide Evaluate;
  }

  lemma SkewedDecisions(start: int, h: InteractionHistory, first: int, second: int)
    requires Usable(h) && Skewed(start, h)
    requires var exit, last := QuietExit(start, h), h.lastUserMessage.value;
      && first == Max(exit, last) && second == Max(exit + QUIET_EXIT_GRACE, last + MID_FLOW_WINDOW)
    ensures start < first < QuietExit(start, h) + QUIET_EXIT_GRACE
    ensures first < second < h.lastUserMessage.value + MID_FLOW_WINDOW + QUIET_EXIT_GRACE
    ensures Evaluate(start, h, None) == Defer(QuietExit(start, h), QuietHours)
    ensures Evaluate(first, h, Some(start)) == Defer(h.lastUserMessage.value + MID_FLOW_WINDOW, MidFlow)
    ensures Evaluate(second, h, Some(start)).Defer?
  {
    hide NextActive, HourOf;
    var exit, last := QuietExit(start, h), h.lastUserMessage.value;
    QuietExitIsActive(start, h);
    NextHour(exit, second);
    BusyAhead(start, h);
    BusyAhead(second, h);
  }

  /** Two deferrals are the most for a message first due at `start`, exactly unless its record is skewed. */
  lemma AtMostTwoExactly(start: int, h: InteractionHistory)
    requires Usable(h)
    ensures (forall calls | PunctualRun(calls, start, h) :: FreshDeferrals(None, calls) <= 2) <==> !Skewed(start, h)
  {
    hide Evaluate, Settles, Skewed;
    if Skewed(start, h) {
      var calls := SkewedRun(start, h);
    } else {
      forall calls | PunctualRun(calls, start, h)
        ensures FreshDeferrals(None, calls) <= 2
      {
        if Opened(start, h).Some? {
          UnskewedSettles(start, h);
        }
        FirstCall(calls, start, h, 1);
      }
    }
  }

  /** An open window with a calm end is deferred at most once more, and not at all when it ends in an active hour. */
  lemma OpenWindowDeferrals(w: DeferralWindow, calls: seq<Call>, h: InteractionHistory)
    requires Usable(h) && Calm(w, h)
    requires Ordered(calls) && SameHistory(calls, h) && Punctual(Some(w), calls)
    ensures FreshDeferrals(Some(w), calls) <= if Awake(w, h) then 0 else 1
  {
    hide Evaluate, Settles, Calm, Awake, Punctual, FreshDeferrals;
    if Awake(w, h) {
      CalmAndAwakeSettles(w, h);
      SettledRun(w, calls, h, 0);
    } else {
      CalmSettles(w, h);
      SettledRun(w, calls, h, 1);
    }
  }

  /** With no timestamp from the future, a punctual message with an unchanged history is deferred at most twice. */
  lemma AtMostTwoDeferrals(calls: seq<Call>, start: int, h: InteractionHistory)
    requires Usable(h) && PunctualRun(calls, start, h)
    requires h.lastUserMessage.Some? ==> h.lastUserMessage.value <= start
    ensures FreshDeferrals(None, calls) <= 2
  {
    hide Evaluate, HourOf, QuietExit;
    if InQuietHour(start, h) {
      QuietExitIsActive(start, h);
    }
    AtMostTwoExactly(start, h);
  }

  // ---------- a third deferral ----------

  /** Twenty messages between noon and one o'clock, the last of them at 12:59. */
  function NoonHistory(): InteractionHistory
  {
    InteractionHistory(seq(24, i => if i == 12 then 20 else 0), 20, Some(12 * HOUR + 59 * MINUTE))
  }

  lemma NoonIsSkewed()
    ensures Usable(NoonHistory()) && Skewed(11 * HOUR, NoonHistory())
  {
    var h := NoonHistory();
    assert h.hourCounts[12] > 0;
    assert HourOf(11 * HOUR) == 11 && 11 * HOUR % HOUR == 0 && HourOf(13 * HOUR) == 13;
    assert NextActive(h, 11, 1) == Some(1) by { assert !QuietAfter(h, 11, 1); }
  }

  /** A message due at eleven, while the clock is two hours ahead of it in the record, is deferred three times. */
  lemma FutureTimestampDefersThrice() returns (calls: seq<Call>)
    ensures PunctualRun(calls, 11 * HOUR, NoonHistory()) && FreshDeferrals(None, calls) == 3
  {
    hide Skewed, NoonHistory;
    NoonIsSkewed();
    calls := SkewedRun(11 * HOUR, NoonHistory());
  }
}
