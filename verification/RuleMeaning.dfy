/** What sanitising does to the characters of a rule, why a rule is dropped, and which headings name red lines. */
module RuleMeaning {
  import opened Wrappers
  import opened Sequences
  import opened Search
  import opened Contract
  import opened ContractSanitize

  // ---------- the characters of a rule ----------

  /** The characters of a rule that normalising keeps: no blank, no star, question mark or bracket. */
  function Kept(blank: CharClass, raw: string): string
  {
    if raw == "" then ""
    else
      var c := raw[0];
      (if blank(c) || c == ' ' || c == '*' || c == '?' || c == '[' || c == ']' then "" else [c]) + Kept(blank, raw[1..])
  }

  /** The characters of a text that are no spaces. */
  function Solid(s: string): string
  {
    if s == "" then "" else (if s[0] == ' ' then "" else [s[0]]) + Solid(s[1..])
  }

  lemma {:induction false} SolidConcat(a: string, b: string)
    ensures Solid(a + b) == Solid(a) + Solid(b)
  {
    if a == "" {
      assert a + b == b;
    } else {
      SolidConcat(a[1..], b);
      assert (a + b)[1..] == a[1..] + b && (a + b)[0] == a[0];
      Assoc(if a[0] == ' ' then "" else [a[0]], Solid(a[1..]), Solid(b));
    }
  }

  lemma {:induction false} SolidFlat(blank: CharClass, raw: string)
    ensures Solid(Flat(blank, raw)) == Kept(blank, raw)
  {
    if raw != "" {
      SolidFlat(blank, raw[1..]);
      var c := if blank(raw[0]) then ' ' else raw[0];
      SolidOne(c);
      SolidConcat(if GlobMeta(c) then "" else [c], Flat(blank, raw[1..]));
    }
  }

  lemma SolidOne(c: char)
    ensures Solid([c]) == if c == ' ' then "" else [c]
    ensures Solid("") == "" && Solid(" ") == ""
    ensures GlobMeta(c) <==> c == '*' || c == '?' || c == '[' || c == ']'
  {
    assert [c][1..] == "" && " "[1..] == "";
  }

  lemma {:induction false} SolidJoined(ws: seq<string>)
    requires |ws| > 0
    ensures Solid(Joined(ws)) == Solid(ws[0]) + Solid(Joined(ws[1..]))
  {
    if |ws| == 1 {
      assert Solid(ws[0]) + Solid("") == Solid(ws[0]);
    } else {
      SolidOne(' ');
      SolidConcat(ws[0] + " ", Joined(ws[1..]));
      SolidConcat(ws[0], " ");
      assert Solid(ws[0]) + "" == Solid(ws[0]);
    }
  }

  lemma {:induction false} SolidWords(s: string)
    ensures Solid(Joined(Words(s))) == Solid(s)
    decreases |s|
  {
    hide Joined;
    if s == "" {
      NothingJoined();
    } else if s[0] == ' ' {
      SolidWords(s[1..]);
    } else {
      var n := WordEnd(s);
      SolidWords(s[n..]);
      var ws := Words(s);
      assert ws[1..] == Words(s[n..]);
      SolidJoined(ws);
      SolidConcat(s[..n], s[n..]);
      assert s == s[..n] + s[n..];
    }
  }

  lemma NothingJoined()
    ensures Joined([]) == "" && Solid("") == ""
  {
  }

  /**
   Normalising keeps every character that is no blank and no glob character, in order, and adds only spaces; all that is
   lost beyond that is what the cut to 160 characters takes.
   */
  lemma NormalizeKeeps(blank: CharClass, raw: string)
    ensures var spaced, n := Spaced(blank, raw), NormalizeRule(blank, raw);
      && Solid(spaced) == Kept(blank, raw)
      && n == if |spaced| <= 160 then spaced else spaced[..160]
  {
    SolidFlat(blank, raw);
    SolidWords(Flat(blank, raw));
  }

  /** A rule of at most 160 characters, without glob characters and with single inner spaces, is kept as it is. */
  lemma CleanRuleIsKept(blank: CharClass, rule: string)
    requires |rule| <= 160 && Tidy(rule)
    requires forall c | c in rule :: c != '*' && c != '?' && c != '[' && c != ']' && (c == ' ' || !blank(c))
    ensures NormalizeRule(blank, rule) == rule
  {
    FlatFixed(blank, rule);
    TidyRejoins(rule);
  }

  /** No star, question mark, bracket or blank but the space is left in a normalised rule. */
  lemma NormalizedCharacters(blank: CharClass, raw: string)
    ensures forall c | c in NormalizeRule(blank, raw) ::
              c != '*' && c != '?' && c != '[' && c != ']' && (c == ' ' || !blank(c))
  {
    hide NormalizeRule, GlobMeta;
    NormalizedFacts(blank, raw);
    forall c: char
      ensures GlobMeta(c) <==> c == '*' || c == '?' || c == '[' || c == ']'
    {
      SolidOne(c);
    }
  }

  // ---------- why a rule is dropped ----------

  /** An earlier rule that was long enough and no own wording normalises to the same. */
  ghost predicate Repeats(f: Filter, rules: seq<string>, i: nat)
    requires i < |rules|
  {
    exists j :: 0 <= j < i && Qualifies(f, rules, j) && Norm(f, rules, j) == Norm(f, rules, i)
  }

  /** The reasons, each by what holds of the rule, the first of them that applies. */
  lemma ReasonMeaning(f: Filter, rules: seq<string>, i: nat)
    requires i < |rules|
    ensures var n, reason := Norm(f, rules, i), Reason(f, rules, i);
      && (reason == Some(TooShort) <==> |n| < f.minChars)
      && (reason == Some(MatchesOwnWording) <==> |n| >= f.minChars && OwnWording(f, n))
      && (reason == Some(Duplicate) <==> Qualifies(f, rules, i) && Repeats(f, rules, i))
      && (reason == Some(OverLimit) <==>
          Qualifies(f, rules, i) && !Repeats(f, rules, i) && |Firsts(f, rules, i)| >= 8)
      && (reason.None? <==> Qualifies(f, rules, i) && !Repeats(f, rules, i) && |Firsts(f, rules, i)| < 8)
  {
    hide Norm, OwnWording, Firsts;
  }

  /** A rule in the list of kept ones has between the least number of characters and 160. */
  lemma KeptLengths(f: Filter, rules: seq<string>, rule: string)
    requires rule in FirstEight(Firsts(f, rules, |rules|))
    ensures f.minChars <= |rule| <= 160 && |FirstEight(Firsts(f, rules, |rules|))| <= 8
  {
    hide NormalizeRule, OwnWording, Firsts;
    SanitizedFacts(f, rules, |rules|);
    assert rule in Firsts(f, rules, |rules|);
    assert SeenBefore(f, rules, |rules|, rule);
    var j :| 0 <= j < |rules| && Qualifies(f, rules, j) && Norm(f, rules, j) == rule;
    NormalizedFacts(f.blank, rules[j]);
  }

  /** An external contract keeps at most eight rules of 10 to 160, and eight of 4 to 160 characters. */
  lemma ContractLimits(lower: Lowering, space: CharClass, blank: CharClass, b: Boundaries, soul: Option<seq<string>>,
                       clean: Boundaries, dropped: seq<(string, DropReason)>)
    requires Sanitized(
      Filter(lower, blank, MIN_MUST_NOT_CHARS, OwnSpeech(lower, space, soul)),
      Filter(lower, blank, MIN_MUST_ALWAYS_CHARS, None), b, clean, dropped)
    ensures |clean.mustNot| <= 8 && |clean.mustAlways| <= 8
    ensures forall rule | rule in clean.mustNot :: 10 <= |rule| <= 160
    ensures forall rule | rule in clean.mustAlways :: 4 <= |rule| <= 160
  {
    var f := Filter(lower, blank, MIN_MUST_NOT_CHARS, OwnSpeech(lower, space, soul));
    var g := Filter(lower, blank, MIN_MUST_ALWAYS_CHARS, None);
    hide Firsts, Dropped, OwnSpeech;
    forall rule | rule in clean.mustNot
      ensures 10 <= |rule| <= 160
    {
      KeptLengths(f, b.mustNot, rule);
    }
    forall rule | rule in clean.mustAlways
      ensures 4 <= |rule| <= 160
    {
      KeptLengths(g, b.mustAlways, rule);
    }
  }

  /** The kept rules are the first eight of the distinct qualifying ones, or all of them if there are no more. */
  lemma FirstEightMeaning(rules: seq<string>)
    ensures FirstEight(rules) <= rules && |FirstEight(rules)| == if |rules| <= 8 then |rules| else 8
  {
  }

  // ---------- red lines ----------

  /** A heading is a line whose first character after leading blanks is a number sign. */
  lemma {:induction false} HeadingMeaning(space: CharClass, line: string)
    requires !space('#')
    ensures Heading(space, line) <==>
      exists n :: 0 <= n < |line| && line[n] == '#' && forall k :: 0 <= k < n ==> space(line[k])
  {
    if line != "" && space(line[0]) {
      HeadingMeaning(space, line[1..]);
      if n :| 0 <= n < |line[1..]| && line[1..][n] == '#' && forall k :: 0 <= k < n ==> space(line[1..][k]) {
        assert line[n + 1] == '#' && forall k :: 0 <= k < n + 1 ==> space(line[k]) by {
          assert forall k :: 1 <= k < n + 1 ==> line[k] == line[1..][k - 1];
        }
      }
      if n :| 0 <= n < |line| && line[n] == '#' && forall k :: 0 <= k < n ==> space(line[k]) {
        assert line[1..][n - 1] == '#';
      }
    }
  }

  /** A line is spoken when it is no heading, and the last heading above it, if there is one, names no red lines. */
  lemma SpokenMeaning(lower: Lowering, space: CharClass, lines: seq<string>, h: nat, i: nat)
    requires h < i < |lines| && Heading(space, lines[h])
    requires forall k :: h < k < i ==> !Heading(space, lines[k])
    ensures Spoken(lower, space, lines, i) <==> !Heading(space, lines[i]) && !RedLine(lower, space, lines[h])
  {
    hide Heading, RedLine;
    assert LastHeading(space, lines, h, i);
  }

  lemma SpokenBeforeHeadings(lower: Lowering, space: CharClass, lines: seq<string>, i: nat)
    requires i < |lines| && forall k :: 0 <= k < i ==> !Heading(space, lines[k])
    ensures Spoken(lower, space, lines, i) <==> !Heading(space, lines[i])
  {
    hide Heading, RedLine;
  }

  /** A heading names red lines when, in lower case, it holds one of these words. */
  lemma RedLineMeaning(lower: Lowering, space: CharClass, line: string)
    ensures var t := LowerAll(lower, ContractSanitize.TrimStart(space, line));
      RedLine(lower, space, line) <==>
        (Contains(t, "紅線") || Contains(t, "絕不") || Contains(t, "禁止") || Contains(t, "red line")
        || Contains(t, "must not") || Contains(t, "boundar") || Contains(t, "never"))
  {
    hide LowerAll, Contains, ContractSanitize.TrimStart;
    var t, words := LowerAll(lower, ContractSanitize.TrimStart(space, line)), RED_LINE_HEADINGS;
    assert words[0] == "紅線" && words[1] == "絕不" && words[2] == "禁止" && words[3] == "red line";
    assert words[4] == "must not" && words[5] == "boundar" && words[6] == "never" && |words| == 7;
  }
}
