/** The list of recently used gateways: newest first, without repeated addresses, at most five. */
module GatewayPicker {
  import opened Wrappers
  import opened Sequences

  const RECENT_MAX := 5

  datatype GatewayRecord = GatewayRecord(name: string, host: string, port: nat, version: string, tls: bool, url: string)

  datatype DesktopGatewayState = DesktopGatewayState(lastGateway: Option<GatewayRecord>, recent: seq<GatewayRecord>)

  function AsciiLower(c: char): char
  {
    if 'A' <= c <= 'Z' then ((c as int) + 32) as char else c
  }

  /** Without trailing slashes, in lower case. */
  function Normal(url: string): string
  {
    if url != "" && url[|url| - 1] == '/' then Normal(url[..|url| - 1])
    else seq(|url|, i requires 0 <= i < |url| => AsciiLower(url[i]))
  }

  predicate SameUrl(a: string, b: string)
  {
    Normal(a) == Normal(b)
  }

  /** The address without its trailing slashes. */
  function Bare(url: string): (bare: string)
    ensures bare <= url && (bare == "" || bare[|bare| - 1] != '/')
    ensures forall i :: |bare| <= i < |url| ==> url[i] == '/'
  {
    if url != "" && url[|url| - 1] == '/' then Bare(url[..|url| - 1]) else url
  }

  /** The same character, or the two cases of one ASCII letter. */
  predicate SameLetter(x: char, y: char)
  {
    || x == y
    || (65 <= x as int <= 90 && y as int == x as int + 32)
    || (65 <= y as int <= 90 && x as int == y as int + 32)
  }

  lemma {:induction false} NormalIsLower(url: string)
    ensures |Normal(url)| == |Bare(url)|
    ensures forall i :: 0 <= i < |Bare(url)| ==> Normal(url)[i] == AsciiLower(Bare(url)[i])
  {
    if url != "" && url[|url| - 1] == '/' {
      NormalIsLower(url[..|url| - 1]);
    }
  }

  /** Addresses count as one exactly when, but for trailing slashes, they differ in the case of ASCII letters only. */
  lemma SameUrlMeaning(a: string, b: string)
    ensures SameUrl(a, b) <==>
      var x, y := Bare(a), Bare(b);
      |x| == |y| && forall i :: 0 <= i < |x| ==> SameLetter(x[i], y[i])
  {
    hide Normal, Bare;
    NormalIsLower(a);
    NormalIsLower(b);
    forall x: char, y: char
      ensures AsciiLower(x) == AsciiLower(y) <==> SameLetter(x, y)
    {
    }
    if SameUrl(a, b) {
      assert forall i :: 0 <= i < |Bare(a)| ==> AsciiLower(Bare(a)[i]) == Normal(a)[i] == Normal(b)[i];
    }
  }

  function Others(records: seq<GatewayRecord>, chosen: GatewayRecord): (others: seq<GatewayRecord>)
    ensures |others| <= |records|
  {
    if records == [] then []
    else (if SameUrl(records[0].url, chosen.url) then [] else [records[0]]) + Others(records[1..], chosen)
  }

  /** The list without a cap: the selection moves to the front, records of the same address go. */
  function Moved(all: seq<GatewayRecord>, chosen: GatewayRecord): seq<GatewayRecord>
  {
    [chosen] + Others(all, chosen)
  }

  function Capped(records: seq<GatewayRecord>): seq<GatewayRecord>
  {
    if |records| <= RECENT_MAX then records else records[..RECENT_MAX]
  }

  method WithSelection(prev: DesktopGatewayState, chosen: GatewayRecord) returns (state: DesktopGatewayState)
    ensures state == DesktopGatewayState(Some(chosen), Capped(Moved(prev.recent, chosen)))
    ensures 1 <= |state.recent| <= 5 && state.recent[0] == chosen
  {
    hide SameUrl, Others, Capped;
    var recent := [chosen];
    var i := 0;
    assert prev.recent[0..] == prev.recent;
    while i < |prev.recent|
      invariant 0 <= i <= |prev.recent| && 1 <= |recent| <= RECENT_MAX && recent[0] == chosen
      invariant Capped(recent + Others(prev.recent[i..], chosen)) == Capped(Moved(prev.recent, chosen))
    {
      if |recent| >= RECENT_MAX {
        CappedWhenFull(recent, Others(prev.recent[i..], chosen));
        break;
      }
      var r := prev.recent[i];
      OthersStep(recent, prev.recent, i, chosen);
      if !SameUrl(r.url, chosen.url) {
        recent := recent + [r];
      }
      i := i + 1;
    }
    if i == |prev.recent| {
      OthersOfNone(chosen);
      CappedWhenShort(recent);
      assert prev.recent[i..] == [] && recent + [] == recent;
    }
    return DesktopGatewayState(Some(chosen), recent);
  }

  lemma OthersStep(recent: seq<GatewayRecord>, records: seq<GatewayRecord>, i: nat, chosen: GatewayRecord)
    requires i < |records|
    ensures recent + Others(records[i..], chosen)
      == (if SameUrl(records[i].url, chosen.url) then recent else recent + [records[i]])
         + Others(records[i + 1..], chosen)
  {
    hide SameUrl;
    assert records[i..][1..] == records[i + 1..];
  }

  lemma CappedWhenFull(recent: seq<GatewayRecord>, rest: seq<GatewayRecord>)
    requires |recent| == RECENT_MAX
    ensures Capped(recent + rest) == recent
  {
  }

  lemma CappedWhenShort(recent: seq<GatewayRecord>)
    requires |recent| <= RECENT_MAX
    ensures Capped(recent) == recent
  {
  }

  /** The state after a history of selections, oldest first, from the empty state. */
  function After(history: seq<GatewayRecord>): DesktopGatewayState
  {
    if history == [] then DesktopGatewayState(None, [])
    else
      var k := |history| - 1;
      DesktopGatewayState(Some(history[k]), Capped(Moved(After(history[..k]).recent, history[k])))
  }

  /** Selection `i` of the history is the last one of its address. */
  predicate LastOfItsUrl(history: seq<GatewayRecord>, i: nat)
    requires i < |history|
  {
    forall j :: i < j < |history| ==> !SameUrl(history[j].url, history[i].url)
  }

  /** The unbounded list: every address once, by its last selection, newest first. */
  ghost function MostRecent(history: seq<GatewayRecord>, n: nat): seq<GatewayRecord>
    requires n <= |history|
  {
    if n == 0 then [] else Newest(history, n) + MostRecent(history, n - 1)
  }

  /** What selection `n - 1` contributes: itself, unless its address comes again later. */
  ghost function Newest(history: seq<GatewayRecord>, n: nat): seq<GatewayRecord>
    requires 0 < n <= |history|
  {
    if LastOfItsUrl(history, n - 1) then [history[n - 1]] else []
  }

  lemma {:induction false} OthersConcat(a: seq<GatewayRecord>, b: seq<GatewayRecord>, chosen: GatewayRecord)
    ensures Others(a + b, chosen) == Others(a, chosen) + Others(b, chosen)
  {
    hide SameUrl;
    if a == [] {
      assert a + b == b;
    } else {
      OthersConcat(a[1..], b, chosen);
      assert (a + b)[1..] == a[1..] + b && (a + b)[0] == a[0];
      var one := if SameUrl(a[0].url, chosen.url) then [] else [a[0]];
      Assoc(one, Others(a[1..], chosen), Others(b, chosen));
    }
  }

  lemma LastOfMore(history: seq<GatewayRecord>, chosen: GatewayRecord, i: nat)
    requires i < |history|
    ensures LastOfItsUrl(history + [chosen], i) <==> LastOfItsUrl(history, i) && !SameUrl(chosen.url, history[i].url)
  {
    hide SameUrl;
    var more := history + [chosen];
    assert more[|history|] == chosen && forall j :: 0 <= j < |history| ==> more[j] == history[j];
  }

  /** Selecting once more drops the chosen address from the unbounded list. */
  lemma {:induction false} MostRecentExtends(history: seq<GatewayRecord>, chosen: GatewayRecord, n: nat)
    requires n <= |history|
    ensures MostRecent(history + [chosen], n) == Others(MostRecent(history, n), chosen)
  {
    hide SameUrl, LastOfItsUrl, Others;
    if n > 0 {
      MostRecentExtends(history, chosen, n - 1);
      LastOfMore(history, chosen, n - 1);
      SameUrlIsSymmetric(history[n - 1].url, chosen.url);
      OthersConcat(Newest(history, n), MostRecent(history, n - 1), chosen);
      OthersOfOne(history[n - 1], chosen);
      OthersOfNone(chosen);
      assert (history + [chosen])[n - 1] == history[n - 1];
      assert Newest(history + [chosen], n) == Others(Newest(history, n), chosen);
    }
  }

  lemma OthersOfOne(r: GatewayRecord, chosen: GatewayRecord)
    ensures Others([r], chosen) == if SameUrl(r.url, chosen.url) then [] else [r]
  {
    hide SameUrl;
    assert [r][1..] == [];
  }

  lemma OthersOfNone(chosen: GatewayRecord)
    ensures Others([], chosen) == []
  {
  }

  lemma SameUrlIsSymmetric(a: string, b: string)
    ensures SameUrl(a, b) == SameUrl(b, a)
  {
  }

  lemma SameUrlIsReflexive(a: string)
    ensures SameUrl(a, a)
  {
  }

  predicate Distinct(records: seq<GatewayRecord>)
  {
    forall i, j :: 0 <= i < j < |records| ==> !SameUrl(records[i].url, records[j].url)
  }

  lemma {:induction false} MostRecentFrom(history: seq<GatewayRecord>, n: nat, k: nat) returns (i: nat)
    requires n <= |history| && k < |MostRecent(history, n)|
    ensures i < n && LastOfItsUrl(history, i) && MostRecent(history, n)[k] == history[i]
  {
    hide LastOfItsUrl;
    if LastOfItsUrl(history, n - 1) && k == 0 {
      i := n - 1;
    } else {
      i := MostRecentFrom(history, n - 1, if LastOfItsUrl(history, n - 1) then k - 1 else k);
    }
  }

  lemma {:induction false} MostRecentDistinct(history: seq<GatewayRecord>, n: nat)
    requires n <= |history|
    ensures Distinct(MostRecent(history, n))
  {
    hide SameUrl;
    if n > 0 {
      MostRecentDistinct(history, n - 1);
      var rest := MostRecent(history, n - 1);
      forall k | 0 <= k < |rest|
        ensures !SameUrl(history[n - 1].url, rest[k].url)
      {
        var i := MostRecentFrom(history, n - 1, k);
      }
    }
  }

  lemma {:induction false} OthersAll(records: seq<GatewayRecord>, chosen: GatewayRecord)
    requires forall i :: 0 <= i < |records| ==> !SameUrl(records[i].url, chosen.url)
    ensures Others(records, chosen) == records
  {
    hide SameUrl;
    if records != [] {
      OthersAll(records[1..], chosen);
      assert records == [records[0]] + records[1..];
    }
  }

  /** At most one of several distinct addresses is the chosen one. */
  lemma {:induction false} OthersMostly(records: seq<GatewayRecord>, chosen: GatewayRecord)
    requires Distinct(records)
    ensures |Others(records, chosen)| >= |records| - 1
  {
    if records != [] {
      if SameUrl(records[0].url, chosen.url) {
        OthersAll(records[1..], chosen);
      } else {
        OthersMostly(records[1..], chosen);
      }
    }
  }

  /**
   The cap commutes with a selection exactly when the first five entries keep at least four without the chosen address,
   or nothing behind them has another address.
   */
  lemma CapCommutes(all: seq<GatewayRecord>, chosen: GatewayRecord)
    ensures Capped(Moved(Capped(all), chosen)) == Capped(Moved(all, chosen)) <==>
      (|all| <= RECENT_MAX
      || |Others(all[..RECENT_MAX], chosen)| >= RECENT_MAX - 1
      || Others(all[RECENT_MAX..], chosen) == [])
  {
    hide SameUrl, Others;
    if |all| > RECENT_MAX {
      var a, b := all[..RECENT_MAX], all[RECENT_MAX..];
      assert all == a + b;
      OthersConcat(a, b, chosen);
      var x, y := Moved(a, chosen), Moved(all, chosen);
      assert y == x + Others(b, chosen);
      if |x| >= RECENT_MAX {
        assert x[..RECENT_MAX] == y[..RECENT_MAX];
      } else if Others(b, chosen) == [] {
        assert x == y;
      } else {
        assert |Capped(x)| < |Capped(y)|;
      }
    }
  }

  /** On a list of distinct addresses, what the capped list forgets, five entries would not have shown. */
  lemma CapLosesNothing(all: seq<GatewayRecord>, chosen: GatewayRecord)
    requires Distinct(all)
    ensures Capped(Moved(Capped(all), chosen)) == Capped(Moved(all, chosen))
  {
    hide SameUrl, Others, Capped, Moved;
    if |all| > RECENT_MAX {
      OthersMostly(all[..RECENT_MAX], chosen);
    }
    CapCommutes(all, chosen);
  }

  /**
   After any selections from the empty state, the list shows the first five of the unbounded most-recently-used list,
   and the last gateway is its head.
   */
  lemma {:induction false} RecentIsMostRecent(history: seq<GatewayRecord>)
    ensures After(history).recent == Capped(MostRecent(history, |history|))
    ensures history != [] ==>
      After(history).recent != [] && After(history).lastGateway == Some(After(history).recent[0])
      && After(history).recent[0] == history[|history| - 1]
    decreases |history|
  {
    hide SameUrl, LastOfItsUrl;
    if history != [] {
      var k := |history| - 1;
      var before, chosen := history[..k], history[k];
      RecentIsMostRecent(before);
      MostRecentDistinct(before, k);
      CapLosesNothing(MostRecent(before, k), chosen);
      assert history == before + [chosen];
      MostRecentExtends(before, chosen, k);
      NothingAfter(history);
      assert MostRecent(history, |history|) == Moved(MostRecent(before, k), chosen);
    }
  }

  lemma NothingAfter(history: seq<GatewayRecord>)
    requires history != []
    ensures LastOfItsUrl(history, |history| - 1)
  {
  }

  /** A remembered file with a repeated address is another matter: then the cap can hide an entry. */
  lemma RepeatedAddressLosesEntry(x: GatewayRecord, others: seq<GatewayRecord>)
    requires |others| == RECENT_MAX && Distinct([x] + others)
    ensures var all := [x, x] + others;
      Capped(Moved(Capped(all), x)) != Capped(Moved(all, x))
  {
    hide SameUrl, Others, Distinct;
    OthersAfterRepeat(x, others, 3);
    OthersAfterRepeat(x, others, RECENT_MAX);
    assert others[..RECENT_MAX] == others;
    assert Capped([x, x] + others) == [x, x] + others[..3];
    assert |Moved([x, x] + others[..3], x)| == 4;
    assert |Moved([x, x] + others, x)| == 6;
  }

  lemma OthersAfterRepeat(x: GatewayRecord, others: seq<GatewayRecord>, n: nat)
    requires n <= |others| && Distinct([x] + others)
    ensures Others([x, x] + others[..n], x) == others[..n]
  {
    hide SameUrl, Others;
    forall i | 0 <= i < n
      ensures !SameUrl(others[..n][i].url, x.url)
    {
      SameUrlIsSymmetric(x.url, others[i].url);
      assert !SameUrl(([x] + others)[0].url, ([x] + others)[i + 1].url);
    }
    OthersAll(others[..n], x);
    OthersConcat([x, x], others[..n], x);
    OthersOfOne(x, x);
    OthersConcat([x], [x], x);
    assert [x] + [x] == [x, x];
    assert SameUrl(x.url, x.url) by { SameUrlIsReflexive(x.url); }
  }
}
