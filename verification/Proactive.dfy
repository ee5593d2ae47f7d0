/**
 The proactive rate limiter: a pruned list of recent sends. Instants are naturals on the monotonic clock, which starts
 at boot; `count as u32` is written out as a remainder.
 */
module Proactive {
  import opened Time

  const TWO_HOURS: nat := 2 * HOUR
  const U32: nat := 0x1_0000_0000

  /** How many of the sends lie less than an hour before `now`. */
  function Recent(sends: seq<nat>, now: nat): (n: nat)
    ensures n <= |sends|
  {
    if sends == [] then 0
    else Recent(sends[..|sends| - 1], now) + if now - sends[|sends| - 1] < HOUR then 1 else 0
  }

  /** How many of the sends lie in the half-open hour from `start` on. */
  function InHour(sends: seq<nat>, start: nat): nat
  {
    if sends == [] then 0
    else InHour(sends[..|sends| - 1], start) + if start <= sends[|sends| - 1] < start + HOUR then 1 else 0
  }

  predicate Sorted(sends: seq<nat>)
  {
    forall i, j :: 0 <= i < j < |sends| ==> sends[i] <= sends[j]
  }

  /** Every send found fewer than `limit` sends in the hour before it. */
  predicate Limited(sends: seq<nat>, limit: nat)
  {
    forall k :: 0 <= k < |sends| ==> Recent(sends[..k], sends[k]) < limit
  }

  /** The positions of the sends less than 3600 seconds, in nanoseconds, before `now`. */
  ghost function RecentAt(sends: seq<nat>, now: nat): set<nat>
  {
    set i: nat | i < |sends| && now - sends[i] < 3_600_000_000_000
  }

  lemma {:induction false} RecentMeaning(sends: seq<nat>, now: nat)
    ensures Recent(sends, now) == |RecentAt(sends, now)|
    decreases |sends|
  {
    if sends != [] {
      var k := |sends| - 1;
      RecentMeaning(sends[..k], now);
      var before := RecentAt(sends[..k], now);
      assert RecentAt(sends, now) == if now - sends[k] < 3_600_000_000_000 then before + {k} else before;
    } else {
      assert RecentAt(sends, now) == {};
    }
  }

  lemma {:induction false} RecentConcat(a: seq<nat>, b: seq<nat>, now: nat)
    ensures Recent(a + b, now) == Recent(a, now) + Recent(b, now)
  {
    if b == [] {
      assert a + b == a;
    } else {
      RecentConcat(a, b[..|b| - 1], now);
      assert (a + b)[..|a + b| - 1] == a + b[..|b| - 1];
    }
  }

  lemma {:induction false} NoneRecent(gone: seq<nat>, now: nat)
    requires forall i :: 0 <= i < |gone| ==> now - gone[i] >= HOUR
    ensures Recent(gone, now) == 0
  {
    if gone != [] {
      NoneRecent(gone[..|gone| - 1], now);
    }
  }

  /** Seen later, no more of the same sends are recent. */
  lemma {:induction false} RecentShrinks(sends: seq<nat>, now: nat, later: nat)
    requires now <= later
    ensures Recent(sends, later) <= Recent(sends, now)
  {
    if sends != [] {
      RecentShrinks(sends[..|sends| - 1], now, later);
    }
  }

  lemma {:induction false} HourIsRecent(sends: seq<nat>, start: nat, now: nat)
    requires now < start + HOUR
    ensures InHour(sends, start) <= Recent(sends, now)
  {
    if sends != [] {
      HourIsRecent(sends[..|sends| - 1], start, now);
    }
  }

  /** When every send kept the limit, no half-open hour holds more sends than the limit. */
  lemma {:induction false} NoHourOverLimit(sends: seq<nat>, limit: nat, start: nat)
    requires Limited(sends, limit)
    ensures InHour(sends, start) <= limit
  {
    if sends != [] {
      var k := |sends| - 1;
      assert forall i :: 0 <= i < k ==> sends[..k][..i] == sends[..i];
      NoHourOverLimit(sends[..k], limit, start);
      if start <= sends[k] < start + HOUR {
        HourIsRecent(sends[..k], start, sends[k]);
      }
    }
  }

  lemma {:induction false} RecentIsHour(sends: seq<nat>, now: nat)
    requires forall i :: 0 <= i < |sends| ==> sends[i] <= now
    ensures Recent(sends, now) == InHour(sends, if now >= HOUR then now - HOUR + 1 else 0)
  {
    if sends != [] {
      RecentIsHour(sends[..|sends| - 1], now);
    }
  }

  lemma LimitedNext(sends: seq<nat>, limit: nat, now: nat)
    requires Limited(sends, limit) && Recent(sends, now) < limit
    ensures Limited(sends + [now], limit)
  {
    var all := sends + [now];
    forall k | 0 <= k < |all|
      ensures Recent(all[..k], all[k]) < limit
    {
      assert all[..k] == if k < |sends| then sends[..k] else sends;
    }
  }

  /** `recent` is what is left of all the sends: pruned ones lie over two hours back, none lies ahead of the clock. */
  predicate Remembers(recent: seq<nat>, sends: seq<nat>, clock: nat)
  {
    && |recent| <= |sends| && recent == sends[|sends| - |recent|..]
    && Sorted(sends) && (forall i :: 0 <= i < |sends| ==> sends[i] <= clock)
    && (forall i :: 0 <= i < |sends| - |recent| ==> clock - sends[i] > TWO_HOURS)
  }

  lemma RemembersPush(recent: seq<nat>, sends: seq<nat>, clock: nat, now: nat, later: nat)
    requires Remembers(recent, sends, clock) && clock <= now <= later
    ensures Remembers(recent + [now], sends + [now], later)
  {
    var all := sends + [now];
    assert all[|all| - |recent| - 1..] == recent + [now];
  }

  lemma RemembersPop(recent: seq<nat>, sends: seq<nat>, clock: nat)
    requires Remembers(recent, sends, clock) && recent != [] && clock - recent[0] > TWO_HOURS
    ensures Remembers(recent[1..], sends, clock)
  {
    var k := |sends| - |recent|;
    assert sends[k..][1..] == sends[k + 1..] && sends[k..][0] == sends[k];
  }

  class ProactiveState {
    var recentMessages: seq<nat>
    var totalSent: nat
    var totalSilent: nat

    /** Every send so far, never pruned, and the latest reading of the clock. */
    ghost var sends: seq<nat>
    ghost var clock: nat

    ghost predicate Valid()
      reads this
    {
      Remembers(recentMessages, sends, clock)
    }

    constructor ()
      ensures Valid() && sends == [] && recentMessages == [] && clock == 0
    {
      recentMessages, totalSent, totalSilent, sends, clock := [], 0, 0, [], 0;
    }

    /** The number of listed sends that are recent is the number of all sends that are. */
    lemma PruningIsInvisible(now: nat)
      requires Valid() && now >= clock
      ensures Recent(recentMessages, now) == Recent(sends, now)
    {
      var k := |sends| - |recentMessages|;
      assert sends == sends[..k] + recentMessages;
      RecentConcat(sends[..k], recentMessages, now);
      NoneRecent(sends[..k], now);
    }

    /** The answer is that of the full send history, up to the width of the counter. */
    method CanSend(maxPerHour: nat, now: nat) returns (allowed: bool)
      requires Valid() && now >= clock && maxPerHour < U32
      ensures allowed <==> Recent(sends, now) % U32 < maxPerHour
    {
      PruningIsInvisible(now);
      var count := 0;
      for i := 0 to |recentMessages|
        invariant count == Recent(recentMessages[..i], now)
      {
        assert recentMessages[..i + 1][..i] == recentMessages[..i];
        if now - recentMessages[i] < HOUR {
          count := count + 1;
        }
      }
      assert recentMessages[..|recentMessages|] == recentMessages;
      return count % U32 < maxPerHour;
    }

    /** Records a send at `now`, and prunes at `later`. */
    method RecordSent(now: nat, later: nat)
      requires Valid() && clock <= now <= later
      modifies this
      ensures Valid() && sends == old(sends) + [now] && clock == later
      ensures totalSent == old(totalSent) + 1 && totalSilent == old(totalSilent)
    {
      hide Remembers;
      RemembersPush(recentMessages, sends, clock, now, later);
      recentMessages := recentMessages + [now];
      totalSent := totalSent + 1;
      sends, clock := sends + [now], later;
      while recentMessages != [] && later - recentMessages[0] > TWO_HOURS
        invariant Valid() && sends == old(sends) + [now] && clock == later
        invariant totalSent == old(totalSent) + 1 && totalSilent == old(totalSilent)
        decreases |recentMessages|
      {
        RemembersPop(recentMessages, sends, clock);
        recentMessages := recentMessages[1..];
      }
    }

    method RecordSilent()
      requires Valid()
      modifies this`totalSilent
      ensures Valid() && totalSilent == old(totalSilent) + 1
    {
      totalSilent := totalSilent + 1;
    }

    /** The call site: check and record under one lock, reading the clock three times. */
    method SendIfAllowed(limit: nat, checked: nat, sent: nat, pruned: nat) returns (ok: bool)
      requires Valid() && clock <= checked <= sent <= pruned
      requires limit < U32 && Limited(sends, limit)
      modifies this
      ensures Valid() && Limited(sends, limit)
      ensures ok <==> Recent(old(sends), checked) < limit
      ensures sends == old(sends) + if ok then [sent] else []
    {
      hide Limited, Recent, InHour;
      RecentIsHour(sends, checked);
      NoHourOverLimit(sends, limit, if checked >= HOUR then checked - HOUR + 1 else 0);
      ok := CanSend(limit, checked);
      if ok {
        RecentShrinks(sends, checked, sent);
        LimitedNext(sends, limit, sent);
        RecordSent(sent, pruned);
      }
    }

    /** The dashboard's count, also in the first hour after boot, is the limiter's own. */
    method MessagesThisHour(now: nat) returns (count: nat)
      requires Valid() && now >= clock
      ensures count == Recent(sends, now) % U32
    {
      PruningIsInvisible(now);
      count := 0;
      if now >= HOUR {
        var oneHourAgo := now - HOUR;
        for i := 0 to |recentMessages|
          invariant count == Recent(recentMessages[..i], now)
        {
          assert recentMessages[..i + 1][..i] == recentMessages[..i];
          if recentMessages[i] > oneHourAgo {
            count := count + 1;
          }
        }
        assert recentMessages[..|recentMessages|] == recentMessages;
      } else {
        AllRecent(recentMessages, now);
        count := |recentMessages|;
      }
      count := count % U32;
    }
  }

  lemma {:induction false} AllRecent(sends: seq<nat>, now: nat)
    requires now < HOUR
    ensures Recent(sends, now) == |sends|
  {
    if sends != [] {
      AllRecent(sends[..|sends| - 1], now);
    }
  }
}
