/**
 Contract rules from outside are normalised and filtered before they take effect. What Unicode says about characters
 (lowercase, whitespace or control) is given as parameters; strings are sequences of code points.
 */
module ContractSanitize {
  import opened Wrappers
  import opened Search
  import opened Contract

  const MIN_MUST_NOT_CHARS: nat := 10
  const MIN_MUST_ALWAYS_CHARS: nat := 4
  const MAX_RULE_CHARS: nat := 160
  const MAX_RULES: nat := 8

  type CharClass = char -> bool

  datatype DropReason = TooShort | MatchesOwnWording | Duplicate | OverLimit

  // ---------- normalising one rule ----------

  predicate GlobMeta(c: char)
  {
    c in "*?[]"
  }

  /** Blanks become spaces and glob metacharacters go. */
  function Flat(blank: CharClass, raw: string): string
  {
    if raw == "" then ""
    else
      var c := if blank(raw[0]) then ' ' else raw[0];
      (if GlobMeta(c) then "" else [c]) + Flat(blank, raw[1..])
  }

  function WordEnd(s: string): (n: nat)
    ensures n <= |s| && (s != "" && s[0] != ' ' ==> n > 0)
    ensures (n < |s| ==> s[n] == ' ') && forall i :: 0 <= i < n ==> s[i] != ' '
  {
    if s == "" || s[0] == ' ' then 0 else 1 + WordEnd(s[1..])
  }

  /** The words between spaces; a flat text has no other whitespace. */
  function Words(s: string): (ws: seq<string>)
    decreases |s|
  {
    if s == "" then []
    else if s[0] == ' ' then Words(s[1..])
    else [s[..WordEnd(s)]] + Words(s[WordEnd(s)..])
  }

  function Joined(ws: seq<string>): string
  {
    if ws == [] then "" else if |ws| == 1 then ws[0] else ws[0] + " " + Joined(ws[1..])
  }

  function TruncateChars(s: string, max: nat): string
  {
    if |s| <= max then s else s[..max]
  }

  /** The rule before it is cut: its words with single spaces between them. */
  function Spaced(blank: CharClass, raw: string): string
  {
    Joined(Words(Flat(blank, raw)))
  }

  function NormalizeRule(blank: CharClass, raw: string): string
  {
    TruncateChars(Spaced(blank, raw), MAX_RULE_CHARS)
  }

  /** Spaces stand singly, between other characters. */
  predicate Tidy(s: string)
  {
    s == "" || (s[0] != ' ' && s[|s| - 1] != ' ' && forall i :: 0 <= i < |s| - 1 ==> s[i] != ' ' || s[i + 1] != ' ')
  }

  predicate Word(w: string)
  {
    w != "" && forall i :: 0 <= i < |w| ==> w[i] != ' '
  }

  lemma {:induction false} WordsAreWords(s: string)
    ensures forall i :: 0 <= i < |Words(s)| ==> Word(Words(s)[i])
    ensures forall w, c | w in Words(s) && c in w :: c in s
    decreases |s|
  {
    if s != "" {
      if s[0] == ' ' {
        WordsAreWords(s[1..]);
      } else {
        WordsAreWords(s[WordEnd(s)..]);
      }
    }
  }

  lemma {:induction false} JoinedIsTidy(ws: seq<string>)
    requires forall i :: 0 <= i < |ws| ==> Word(ws[i])
    ensures Tidy(Joined(ws)) && (ws != [] ==> Joined(ws) != "")
    ensures forall c | c in Joined(ws) :: c == ' ' || exists w | w in ws :: c in w
  {
    if |ws| > 1 {
      JoinedIsTidy(ws[1..]);
      var rest := Joined(ws[1..]);
      var s := ws[0] + " " + rest;
      forall i | 0 <= i < |s| - 1
        ensures s[i] != ' ' || s[i + 1] != ' '
      {
        if i > |ws[0]| {
          assert s[i] == rest[i - |ws[0]| - 1] && s[i + 1] == rest[i - |ws[0]|];
        }
      }
      assert s[|s| - 1] == rest[|rest| - 1];
    }
  }

  lemma WordsStep(s: string)
    requires s != "" && s[0] != ' ' && WordEnd(s) < |s|
    ensures Words(s) == [s[..WordEnd(s)]] + Words(s[WordEnd(s) + 1..])
  {
    hide WordEnd;
    var n := WordEnd(s);
    assert s[n..][0] == ' ' && s[n..][1..] == s[n + 1..];
    WordsAfterSpace(s[n..]);
  }

  lemma WordsAfterSpace(s: string)
    requires s != "" && s[0] == ' '
    ensures Words(s) == Words(s[1..])
  {
  }

  lemma JoinedStep(w: string, ws: seq<string>)
    requires ws != []
    ensures Joined([w] + ws) == w + " " + Joined(ws)
  {
    assert ([w] + ws)[1..] == ws;
  }

  lemma TidyRest(s: string, n: nat)
    requires Tidy(s) && n < |s| && s[n] == ' '
    ensures Tidy(s[n + 1..]) && s[n + 1..] != "" && s == s[..n] + " " + s[n + 1..]
  {
    var rest := s[n + 1..];
    assert rest[0] == s[n + 1] && rest[|rest| - 1] == s[|s| - 1];
    assert forall i :: 0 <= i < |rest| ==> rest[i] == s[n + 1 + i];
  }

  lemma SomeWord(s: string)
    requires s != "" && s[0] != ' '
    ensures Words(s) != []
  {
  }

  /** A tidy text is what its words join to. */
  lemma {:induction false} TidyRejoins(s: string)
    requires Tidy(s)
    ensures Joined(Words(s)) == s
    decreases |s|
  {
    if s != "" {
      var n := WordEnd(s);
      if n == |s| {
        assert s[..n] == s && s[n..] == "" && Words(s) == [s];
      } else {
        TidyRest(s, n);
        WordsStep(s);
        hide Words, Joined;
        var rest := s[n + 1..];
        SomeWord(rest);
        TidyRejoins(rest);
        JoinedStep(s[..n], Words(rest));
      }
    }
  }

  lemma {:induction false} FlatFacts(blank: CharClass, raw: string)
    ensures forall c | c in Flat(blank, raw) :: !GlobMeta(c) && (c == ' ' || !blank(c))
  {
    if raw != "" {
      FlatFacts(blank, raw[1..]);
    }
  }

  lemma {:induction false} FlatFixed(blank: CharClass, s: string)
    requires forall c | c in s :: !GlobMeta(c) && (c == ' ' || !blank(c))
    ensures Flat(blank, s) == s
  {
    if s != "" {
      assert s[0] in s && s == [s[0]] + s[1..];
      FlatFixed(blank, s[1..]);
    }
  }

  /** What every normalised rule is: bounded, free of glob characters, and tidy but for a cut after a space. */
  lemma NormalizedFacts(blank: CharClass, raw: string)
    ensures var n := NormalizeRule(blank, raw);
      && |n| <= MAX_RULE_CHARS
      && (forall c | c in n :: !GlobMeta(c) && (c == ' ' || !blank(c)))
      && (Tidy(n) <==> n == "" || n[|n| - 1] != ' ')
  {
    var flat := Flat(blank, raw);
    FlatFacts(blank, raw);
    WordsAreWords(flat);
    JoinedIsTidy(Words(flat));
    var whole := Joined(Words(flat));
    var n := NormalizeRule(blank, raw);
    assert forall i :: 0 <= i < |n| ==> n[i] == whole[i];
    forall c | c in n
      ensures !GlobMeta(c) && (c == ' ' || !blank(c))
    {
      assert c in whole;
    }
  }

  /** The rule is cut, and right after a space. */
  predicate CutsAfterSpace(blank: CharClass, raw: string)
  {
    var spaced := Spaced(blank, raw);
    |spaced| > MAX_RULE_CHARS && spaced[MAX_RULE_CHARS - 1] == ' '
  }

  /** Normalising twice is normalising once exactly for the rules that are not cut right after a space. */
  lemma NormalizeTwice(blank: CharClass, raw: string)
    ensures var n := NormalizeRule(blank, raw); NormalizeRule(blank, n) == n <==> !CutsAfterSpace(blank, raw)
  {
    NormalizedAgain(blank, raw);
    hide Words, Joined, Flat;
    WordsAreWords(Flat(blank, raw));
    JoinedIsTidy(Words(Flat(blank, raw)));
  }

  lemma NormalizedAgain(blank: CharClass, raw: string)
    ensures var n := NormalizeRule(blank, raw);
      NormalizeRule(blank, n) == n <==> n == "" || n[|n| - 1] != ' '
  {
    var n := NormalizeRule(blank, raw);
    NormalizedFacts(blank, raw);
    FlatFixed(blank, n);
    WordsAreWords(n);
    JoinedIsTidy(Words(n));
    if Tidy(n) {
      TidyRejoins(n);
    } else {
      JoinedNoLonger(n);
    }
  }

  /** 159 letters, a space and one more letter: the cut falls after the space. */
  lemma CutAfterSpace(blank: CharClass) returns (raw: string)
    requires !blank('a')
    ensures |raw| > MAX_RULE_CHARS && NormalizeRule(blank, raw) == raw[..MAX_RULE_CHARS] && CutsAfterSpace(blank, raw)
    ensures NormalizeRule(blank, NormalizeRule(blank, raw)) != NormalizeRule(blank, raw)
  {
    raw := seq(MAX_RULE_CHARS + 1, i => if i == MAX_RULE_CHARS - 1 then ' ' else 'a');
    assert Tidy(raw);
    FlatFixed(blank, raw);
    TidyRejoins(raw);
    NormalizeTwice(blank, raw);
  }

  lemma {:induction false} JoinedNoLonger(s: string)
    ensures |Joined(Words(s))| <= |s|
    decreases |s|
  {
    if s != "" {
      if s[0] == ' ' {
        JoinedNoLonger(s[1..]);
      } else {
        var n := WordEnd(s);
        JoinedNoLonger(s[n..]);
        if n < |s| {
          JoinedNoLonger(s[n + 1..]);
          assert s[n..][1..] == s[n + 1..];
        }
        assert Words(s)[1..] == Words(s[n..]);
      }
    }
  }

  // ---------- what an employee is meant to say ----------

  const RED_LINE_HEADINGS := ["紅線", "絕不", "禁止", "red line", "must not", "boundar", "never"]

  function TrimStart(space: CharClass, s: string): string
  {
    if s != "" && space(s[0]) then TrimStart(space, s[1..]) else s
  }

  predicate Heading(space: CharClass, line: string)
  {
    var t := TrimStart(space, line);
    t != "" && t[0] == '#'
  }

  ghost predicate RedLine(lower: Lowering, space: CharClass, line: string)
  {
    exists i :: 0 <= i < |RED_LINE_HEADINGS| && Contains(LowerAll(lower, TrimStart(space, line)), RED_LINE_HEADINGS[i])
  }

  /** Line `h` is the last heading above line `i`. */
  predicate LastHeading(space: CharClass, lines: seq<string>, h: nat, i: nat)
  {
    h < i <= |lines| && Heading(space, lines[h]) && forall k :: h < k < i ==> !Heading(space, lines[k])
  }

  /** Line `i` is no heading and does not stand under a red-line heading. */
  ghost predicate Spoken(lower: Lowering, space: CharClass, lines: seq<string>, i: nat)
    requires i < |lines|
  {
    !Heading(space, lines[i]) && forall h: nat | LastHeading(space, lines, h, i) :: !RedLine(lower, space, lines[h])
  }

  /** The spoken lines among the first `n`, each with a line break. */
  ghost function SpokenLines(lower: Lowering, space: CharClass, lines: seq<string>, n: nat): string
    requires n <= |lines|
  {
    if n == 0 then ""
    else
      SpokenLines(lower, space, lines, n - 1)
      + if Spoken(lower, space, lines, n - 1) then lines[n - 1] + "\n" else ""
  }

  method IsRedLine(lower: Lowering, space: CharClass, line: string) returns (red: bool)
    ensures red <==> RedLine(lower, space, line)
  {
    hide Contains, Find, RED_LINE_HEADINGS;
    var heading := LowerAll(lower, TrimStart(space, line));
    for i := 0 to |RED_LINE_HEADINGS|
      invariant forall k :: 0 <= k < i ==> !Contains(heading, RED_LINE_HEADINGS[k])
    {
      FindDecides(heading, RED_LINE_HEADINGS[i]);
      if Find(heading, RED_LINE_HEADINGS[i], 0) != -1 {
        return true;
      }
    }
    return false;
  }

  method SpokenText(lower: Lowering, space: CharClass, lines: seq<string>) returns (out: string)
    ensures out == SpokenLines(lower, space, lines, |lines|)
  {
    hide RedLine, Heading, TrimStart;
    out := "";
    var inRedLines := false;
    for i := 0 to |lines|
      invariant out == SpokenLines(lower, space, lines, i)
      invariant inRedLines <==> exists h: nat :: LastHeading(space, lines, h, i) && RedLine(lower, space, lines[h])
    {
      if Heading(space, lines[i]) {
        inRedLines := IsRedLine(lower, space, lines[i]);
        assert LastHeading(space, lines, i, i + 1);
      } else {
        assert forall h: nat :: LastHeading(space, lines, h, i + 1) <==> LastHeading(space, lines, h, i);
        if !inRedLines {
          out := out + (lines[i] + "\n");
        }
      }
    }
  }

  // ---------- which rules are kept ----------

  /** The inputs of the filter: how rules are normalised, the least length, and the lowered wording to spare. */
  datatype Filter = Filter(lower: Lowering, blank: CharClass, minChars: nat, spokenLower: Option<string>)

  function Norm(f: Filter, rules: seq<string>, i: nat): string
    requires i < |rules|
  {
    NormalizeRule(f.blank, rules[i])
  }

  ghost predicate OwnWording(f: Filter, rule: string)
  {
    f.spokenLower.Some? && Contains(f.spokenLower.value, LowerAll(f.lower, rule))
  }

  /** Long enough and not the employee's own wording. */
  ghost predicate Qualifies(f: Filter, rules: seq<string>, i: nat)
    requires i < |rules|
  {
    |Norm(f, rules, i)| >= f.minChars && !OwnWording(f, Norm(f, rules, i))
  }

  /** A qualifying rule that no earlier qualifying rule normalises to. */
  ghost predicate First(f: Filter, rules: seq<string>, i: nat)
    requires i < |rules|
  {
    && Qualifies(f, rules, i)
    && forall j :: 0 <= j < i && Qualifies(f, rules, j) ==> Norm(f, rules, j) != Norm(f, rules, i)
  }

  /** The distinct qualifying rules among the first `n`, in order. */
  ghost function Firsts(f: Filter, rules: seq<string>, n: nat): (fs: seq<string>)
    requires n <= |rules|
    ensures |fs| <= n
  {
    if n == 0 then []
    else Firsts(f, rules, n - 1) + if First(f, rules, n - 1) then [Norm(f, rules, n - 1)] else []
  }

  /** Why rule `i` is not kept, if it is not. */
  ghost function Reason(f: Filter, rules: seq<string>, i: nat): Option<DropReason>
    requires i < |rules|
  {
    if |Norm(f, rules, i)| < f.minChars then Some(TooShort)
    else if OwnWording(f, Norm(f, rules, i)) then Some(MatchesOwnWording)
    else if !First(f, rules, i) then Some(Duplicate)
    else if |Firsts(f, rules, i)| >= MAX_RULES then Some(OverLimit)
    else None
  }

  /** The dropped rules among the first `n`, each once, with its reason, in order. */
  ghost function Dropped(f: Filter, rules: seq<string>, n: nat): (ds: seq<(string, DropReason)>)
    requires n <= |rules|
    ensures |ds| <= n
  {
    if n == 0 then []
    else
      var r := Reason(f, rules, n - 1);
      Dropped(f, rules, n - 1) + if r.Some? then [(rules[n - 1], r.value)] else []
  }

  function FirstEight(rules: seq<string>): seq<string>
  {
    if |rules| <= MAX_RULES then rules else rules[..MAX_RULES]
  }

  /** The normalised rules that have passed the first two checks so far. */
  ghost predicate SeenAre(f: Filter, rules: seq<string>, n: nat, seen: set<string>)
    requires n <= |rules|
  {
    && (forall s | s in seen :: SeenBefore(f, rules, n, s))
    && (forall s | SeenBefore(f, rules, n, s) :: s in seen)
  }

  ghost predicate SeenBefore(f: Filter, rules: seq<string>, n: nat, s: string)
    requires n <= |rules|
  {
    exists j :: 0 <= j < n && Qualifies(f, rules, j) && Norm(f, rules, j) == s
  }

  lemma SeenNext(f: Filter, rules: seq<string>, n: nat, seen: set<string>)
    requires n < |rules| && SeenAre(f, rules, n, seen)
    ensures Qualifies(f, rules, n) ==> (First(f, rules, n) <==> Norm(f, rules, n) !in seen)
    ensures SeenAre(f, rules, n + 1, if Qualifies(f, rules, n) then seen + {Norm(f, rules, n)} else seen)
  {
    hide Qualifies, Norm;
    var s := Norm(f, rules, n);
    assert s in seen <==> SeenBefore(f, rules, n, s);
    forall t
      ensures SeenBefore(f, rules, n + 1, t) <==> SeenBefore(f, rules, n, t) || (Qualifies(f, rules, n) && t == s)
    {
      if SeenBefore(f, rules, n, t) {
        var j :| 0 <= j < n && Qualifies(f, rules, j) && Norm(f, rules, j) == t;
        assert j < n + 1;
      }
    }
  }

  /** The checks on the normalised rule itself. */
  method CheckRule(f: Filter, rule: string) returns (fault: Option<DropReason>)
    ensures fault ==
      if |rule| < f.minChars then Some(TooShort) else if OwnWording(f, rule) then Some(MatchesOwnWording) else None
  {
    if |rule| < f.minChars {
      return Some(TooShort);
    }
    if f.spokenLower.Some? {
      FindDecides(f.spokenLower.value, LowerAll(f.lower, rule));
      if Find(f.spokenLower.value, LowerAll(f.lower, rule), 0) != -1 {
        return Some(MatchesOwnWording);
      }
    }
    return None;
  }

  /** Keeps the first eight distinct qualifying rules, normalised and in order; reports the others with a reason. */
  method SanitizeList(f: Filter, rules: seq<string>, before: seq<(string, DropReason)>)
    returns (kept: seq<string>, dropped: seq<(string, DropReason)>)
    ensures kept == FirstEight(Firsts(f, rules, |rules|))
    ensures dropped == before + Dropped(f, rules, |rules|)
  {
    hide NormalizeRule, OwnWording, First, SeenAre;
    var seen: set<string> := {};
    kept, dropped := [], before;
    assert SeenAre(f, rules, 0, {}) by { NothingSeen(f, rules); }
    for i := 0 to |rules|
      invariant SeenAre(f, rules, i, seen)
      invariant kept == FirstEight(Firsts(f, rules, i))
      invariant dropped == before + Dropped(f, rules, i)
    {
      var rule := NormalizeRule(f.blank, rules[i]);
      SeenNext(f, rules, i, seen);
      FirstQualifies(f, rules, i);
      var reason := CheckRule(f, rule);
      if reason.None? {
        if rule in seen {
          reason := Some(Duplicate);
        } else if |kept| >= MAX_RULES {
          reason := Some(OverLimit);
        }
        seen := seen + {rule};
      }
      assert reason == Reason(f, rules, i);
      match reason
      case Some(r) => dropped := dropped + [(rules[i], r)];
      case None => kept := kept + [rule];
    }
  }

  lemma NothingSeen(f: Filter, rules: seq<string>)
    ensures SeenAre(f, rules, 0, {})
  {
  }

  lemma FirstQualifies(f: Filter, rules: seq<string>, i: nat)
    requires i < |rules|
    ensures First(f, rules, i) ==> Qualifies(f, rules, i)
  {
  }

  // ---------- what the lists amount to ----------

  /** No rule is kept twice, every kept rule qualifies, and kept and dropped rules together account for every input. */
  lemma {:induction false} SanitizedFacts(f: Filter, rules: seq<string>, n: nat)
    requires n <= |rules|
    ensures var kept := FirstEight(Firsts(f, rules, n));
      && |kept| <= MAX_RULES && |kept| + |Dropped(f, rules, n)| == n
      && (forall i, j :: 0 <= i < j < |kept| ==> kept[i] != kept[j])
    ensures forall s :: s in Firsts(f, rules, n) <==> SeenBefore(f, rules, n, s)
    ensures forall i, j :: 0 <= i < j < |Firsts(f, rules, n)| ==> Firsts(f, rules, n)[i] != Firsts(f, rules, n)[j]
  {
    hide Norm, OwnWording, First, Reason, SeenBefore, Qualifies;
    if n > 0 {
      SanitizedFacts(f, rules, n - 1);
      FirstStep(f, rules, n - 1);
    } else {
      NothingSeenBefore(f, rules);
    }
  }

  lemma NothingSeenBefore(f: Filter, rules: seq<string>)
    ensures forall s :: !SeenBefore(f, rules, 0, s)
  {
  }

  lemma FirstStep(f: Filter, rules: seq<string>, n: nat)
    requires n < |rules|
    ensures First(f, rules, n) <==> Qualifies(f, rules, n) && !SeenBefore(f, rules, n, Norm(f, rules, n))
    ensures Reason(f, rules, n).None? <==> First(f, rules, n) && |Firsts(f, rules, n)| < MAX_RULES
    ensures forall t :: SeenBefore(f, rules, n + 1, t) <==>
      SeenBefore(f, rules, n, t) || (Qualifies(f, rules, n) && t == Norm(f, rules, n))
  {
    hide Norm, OwnWording;
    forall t | SeenBefore(f, rules, n, t)
      ensures SeenBefore(f, rules, n + 1, t)
    {
      var j :| 0 <= j < n && Qualifies(f, rules, j) && Norm(f, rules, j) == t;
      assert j < n + 1;
    }
  }

  lemma NormalizedIsNoGlob(blank: CharClass, raw: string)
    ensures !LooksLikeGlob(NormalizeRule(blank, raw))
  {
    hide NormalizeRule;
    NormalizedFacts(blank, raw);
    assert GlobMeta('*') && GlobMeta('?') && GlobMeta('[');
  }

  lemma KeptQualifies(f: Filter, rules: seq<string>, rule: string)
    requires rule in FirstEight(Firsts(f, rules, |rules|))
    ensures !OwnWording(f, rule) && !LooksLikeGlob(rule)
  {
    hide OwnWording, NormalizeRule, LooksLikeGlob, Firsts, First;
    SanitizedFacts(f, rules, |rules|);
    assert rule in Firsts(f, rules, |rules|);
    assert SeenBefore(f, rules, |rules|, rule);
    var k :| 0 <= k < |rules| && Qualifies(f, rules, k) && Norm(f, rules, k) == rule;
    NormalizedIsNoGlob(f.blank, rules[k]);
  }

  /**
   With a persona given, no kept `must_not` rule blocks a reply that quotes any stretch of what the employee is meant
   to say.
   */
  lemma KeptRulesAllowOwnWording(f: Filter, rules: seq<string>, spoken: string, rule: string, i: nat, j: nat)
    requires f.spokenLower == Some(LowerAll(f.lower, spoken))
    requires rule in FirstEight(Firsts(f, rules, |rules|)) && i <= j <= |spoken|
    ensures !Violates(f.lower, rule, spoken[i..j])
  {
    hide Contains, Firsts, FirstEight, LooksLikeGlob;
    KeptQualifies(f, rules, rule);
    var r, whole := LowerAll(f.lower, rule), LowerAll(f.lower, spoken);
    assert LowerAll(f.lower, spoken[i..j]) == whole[i..j];
    if Contains(whole[i..j], r) {
      ExcerptContains(whole, r, i, j);
    }
  }

  datatype Boundaries = Boundaries(mustNot: seq<string>, mustAlways: seq<string>, maxToolCallsPerTurn: nat)

  /** The lowered wording of a persona given as lines, when there is one. */
  ghost function OwnSpeech(lower: Lowering, space: CharClass, soul: Option<seq<string>>): Option<string>
  {
    if soul.Some? then Some(LowerAll(lower, SpokenLines(lower, space, soul.value, |soul.value|))) else None
  }

  /** What both lists are filtered to, and everything that was dropped, `must_not` first. */
  ghost predicate Sanitized(f: Filter, g: Filter, b: Boundaries, clean: Boundaries, dropped: seq<(string, DropReason)>)
  {
    && clean.mustNot == FirstEight(Firsts(f, b.mustNot, |b.mustNot|))
    && clean.mustAlways == FirstEight(Firsts(g, b.mustAlways, |b.mustAlways|))
    && clean.maxToolCallsPerTurn == b.maxToolCallsPerTurn
    && dropped == Dropped(f, b.mustNot, |b.mustNot|) + Dropped(g, b.mustAlways, |b.mustAlways|)
  }

  /** Both lists of an external contract, with the persona's own wording protected from `must_not`. */
  method SanitizeBoundaries(lower: Lowering, space: CharClass, blank: CharClass, b: Boundaries,
                            soul: Option<seq<string>>)
    returns (clean: Boundaries, dropped: seq<(string, DropReason)>)
    ensures |clean.mustNot| <= MAX_RULES && |clean.mustAlways| <= MAX_RULES
    ensures Sanitized(
      Filter(lower, blank, MIN_MUST_NOT_CHARS, OwnSpeech(lower, space, soul)),
      Filter(lower, blank, MIN_MUST_ALWAYS_CHARS, None), b, clean, dropped)
    ensures |clean.mustNot| + |clean.mustAlways| + |dropped| == |b.mustNot| + |b.mustAlways|
    ensures soul.Some? ==>
      var spoken := SpokenLines(lower, space, soul.value, |soul.value|);
      forall rule, i, j | rule in clean.mustNot && 0 <= i <= j <= |spoken| :: !Violates(lower, rule, spoken[i..j])
  {
    hide Violates, SpokenLines, Firsts, Dropped, FirstEight;
    var spoken: Option<string> := None;
    ghost var own := "";
    if soul.Some? {
      var text := SpokenText(lower, space, soul.value);
      own := text;
      spoken := Some(LowerAll(lower, text));
    }
    var f, g := Filter(lower, blank, MIN_MUST_NOT_CHARS, spoken), Filter(lower, blank, MIN_MUST_ALWAYS_CHARS, None);
    var mustNot, mustAlways;
    mustNot, dropped := SanitizeList(f, b.mustNot, []);
    SanitizedFacts(f, b.mustNot, |b.mustNot|);
    mustAlways, dropped := SanitizeList(g, b.mustAlways, dropped);
    SanitizedFacts(g, b.mustAlways, |b.mustAlways|);
    assert [] + Dropped(f, b.mustNot, |b.mustNot|) == Dropped(f, b.mustNot, |b.mustNot|);
    clean := Boundaries(mustNot, mustAlways, b.maxToolCallsPerTurn);
    if soul.Some? {
      forall rule, i, j | rule in mustNot && 0 <= i <= j <= |own|
        ensures !Violates(lower, rule, own[i..j])
      {
        KeptRulesAllowOwnWording(f, b.mustNot, own, rule, i, j);
      }
    }
  }
}
