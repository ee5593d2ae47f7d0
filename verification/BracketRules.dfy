/**
 Rules with a bracket and no wildcard. They are tried as patterns although nothing in them is a wildcard, so what the
 translation does to their characters decides whether they are still matched as what they say.
 */
module BracketRules {
  import opened Wrappers
  import opened Search
  import opened Contract

  // ---------- what the pattern of such a rule searches for ----------

  lemma TrimEndIsPrefix(s: string, c: char)
    ensures TrimEnd(s, c) <= s
  {
  }

  /** The text the pattern of a rule without a star searches for. */
  function LonePattern(g: string): string
  {
    TrimEnd(Translated(g), '$')
  }

  lemma LonePatternFacts(g: string)
    requires g != "" && '*' !in g
    ensures '*' !in LonePattern(g) && LonePattern(g) != ""
  {
    hide TrimEnd, Translated;
    TranslatedStarFree(g);
    TrimEndIsPrefix(Translated(g), '$');
    Lengths(g);
    var h, c := g[..|g| - 1], g[|g| - 1];
    assert g == h + [c];
    TranslatedEnd(h, c);
  }

  /** The pattern is searched for as one piece, and it is found in itself, whatever the anchor. */
  lemma LoneSearch(g: string, text: string)
    requires g != "" && '*' !in g
    ensures RegexLite(Translated(g), text) ==> Contains(text, LonePattern(g))
    ensures RegexLite(Translated(g), LonePattern(g))
  {
    hide TrimStart, TrimEnd, Translated, SplitOn, Contains, Find, OccursAt;
    TranslatedStarts(g);
    LonePatternFacts(g);
    var q := LonePattern(g);
    Unseparated(q);
    FindDecides(text, q);
    FoundInItself(q);
    assert Greedy([q], q, 0, false) == Some(|q|);
  }

  lemma LowerLonePattern(lower: Lowering, rule: string)
    requires GoodLowering(lower)
    ensures var q := LonePattern(LowerAll(lower, rule)); LowerAll(lower, q) == q
  {
    var t := Translated(LowerAll(lower, rule));
    LowerPattern(lower, rule);
    TrimEndIsPrefix(t, '$');
    assert forall i :: 0 <= i < |t| ==> LowerAll(lower, t)[i] == t[i];
  }

  lemma BracketRuleAgreesOn(lower: Lowering, rule: string, response: string)
    requires GoodLowering(lower) && '[' in rule && '*' !in rule && '?' !in rule
    requires Contains(LonePattern(LowerAll(lower, rule)), LowerAll(lower, rule))
    ensures Violates(lower, rule, response) <==> GlobFound(LowerAll(lower, rule), LowerAll(lower, response))
  {
    var g, t := LowerAll(lower, rule), LowerAll(lower, response);
    var q := LonePattern(g);
    LowerPlain(lower, rule);
    LowerPattern(lower, rule);
    LowerTwice(lower, response);
    hide GoodLowering, LowerAll, RegexLite, Translated, LonePattern, Contains, GlobFound;
    if Contains(t, g) {
      ContainedIsFound(g, t);
    }
    if GlobFound(g, t) {
      LoneRule(g, t);
    }
    LoneSearch(g, t);
    if Contains(t, q) {
      ContainsTrans(t, q, g);
    }
  }

  /** The code agrees with what the rule says exactly when the text its pattern searches for contains the rule. */
  lemma AgreesWhenContained(lower: Lowering, rule: string)
    requires GoodLowering(lower) && '[' in rule && '*' !in rule && '?' !in rule
    ensures var g := LowerAll(lower, rule); Agrees(lower, rule) <==> Contains(LonePattern(g), g)
  {
    var g := LowerAll(lower, rule);
    var q := LonePattern(g);
    LowerPlain(lower, rule);
    LowerPattern(lower, rule);
    LowerLonePattern(lower, rule);
    hide GoodLowering, LowerAll, RegexLite, Translated, LonePattern, Contains, GlobFound;
    if Agrees(lower, rule) {
      LoneSearch(g, q);
      assert Violates(lower, rule, q);
      LoneRule(g, q);
    }
    if Contains(q, g) {
      forall response
        ensures Violates(lower, rule, response) <==> GlobFound(g, LowerAll(lower, response))
      {
        BracketRuleAgreesOn(lower, rule, response);
      }
    }
  }

  // ---------- which rules their own pattern contains ----------

  predicate AllSlashes(s: string)
  {
    forall i :: 0 <= i < |s| ==> s[i] == '\\'
  }

  /** But for backslashes at either end, the rule is a bracket and characters that need no escape. */
  predicate BracketThenPlain(rule: string)
  {
    var core := TrimEnd(TrimStart(rule, '\\'), '\\');
    core != "" && core[0] == '[' && PlainRule(core[1..])
  }

  function Letters(s: string): nat
  {
    if s == "" then 0 else (if s[0] == '\\' then 0 else 1) + Letters(s[1..])
  }

  lemma {:induction false} LettersConcat(a: string, b: string)
    ensures Letters(a + b) == Letters(a) + Letters(b)
  {
    if a == "" {
      assert a + b == b;
    } else {
      LettersConcat(a[1..], b);
      assert (a + b)[1..] == a[1..] + b;
    }
  }

  lemma {:induction false} NoLetters(s: string)
    requires Letters(s) == 0
    ensures AllSlashes(s)
  {
    if s != "" {
      NoLetters(s[1..]);
    }
  }

  lemma LettersOfUnit(c: char)
    requires c != '*'
    requires c != '?'
    ensures Letters(Unit(c)) == Letters([c])
  {
    assert [c][1..] == "";
    if c in ESCAPED {
      assert ['\\', c][1..] == [c];
    }
  }

  /** Escaping adds nothing but backslashes. */
  lemma {:induction false} LettersOfTranslated(g: string)
    requires '*' !in g && '?' !in g
    ensures Letters(Translated(g)) == Letters(g)
  {
    hide Unit;
    if g != "" {
      LettersOfTranslated(g[1..]);
      LettersOfUnit(g[0]);
      LettersConcat(Unit(g[0]), Translated(g[1..]));
      LettersConcat([g[0]], g[1..]);
      assert g == [g[0]] + g[1..];
    }
  }

  /** Only a trimmed dollar sign is missing from the pattern. */
  lemma LettersOfPattern(g: string)
    requires g != "" && '*' !in g && '?' !in g
    ensures Letters(LonePattern(g)) <= Letters(g)
    ensures Letters(LonePattern(g)) == Letters(g) ==> LonePattern(g) == Translated(g)
  {
    hide Translated, TrimEnd;
    LettersOfTranslated(g);
    var h, c := g[..|g| - 1], g[|g| - 1];
    assert g == h + [c];
    TranslatedEnd(h, c);
    LettersOfTranslated(h);
    LettersConcat(Translated(h), ['\\']);
    LettersConcat(h, [c]);
    assert ['\\'][1..] == "" && [c][1..] == "";
  }

  /** Where the pattern contains the rule, only backslashes are around it, and no dollar sign was trimmed. */
  lemma SlashesAround(g: string) returns (x: string, y: string)
    requires g != "" && '*' !in g && '?' !in g && Contains(LonePattern(g), g)
    ensures AllSlashes(x) && AllSlashes(y) && Translated(g) == x + g + y
  {
    hide Translated, LonePattern;
    var q := LonePattern(g);
    var i :| OccursAt(q, g, i);
    x, y := q[..i], q[i + |g|..];
    assert q == x + g + y;
    LettersConcat(x, g);
    LettersConcat(x + g, y);
    LettersOfPattern(g);
    NoLetters(x);
    NoLetters(y);
  }

  lemma LetterAfter(u: string, c: char, s: string)
    requires AllSlashes(u)
    ensures var w := u + [c] + s; (forall k :: 0 <= k < |u| ==> w[k] == '\\') && w[|u|] == c && w[|u| + 1..] == s
  {
  }

  /** A text begins with backslashes up to its first other character in one way only. */
  lemma SlashesThen(u: string, c: char, s: string, v: string, d: char, t: string)
    requires AllSlashes(u) && AllSlashes(v) && c != '\\' && d != '\\'
    requires u + [c] + s == v + [d] + t
    ensures c == d && s == t
  {
    LetterAfter(u, c, s);
    LetterAfter(v, d, t);
  }

  lemma {:induction false} TranslatedSlashes(a: string)
    requires AllSlashes(a)
    ensures AllSlashes(Translated(a)) && |Translated(a)| == 2 * |a|
  {
    if a != "" {
      TranslatedSlashes(a[1..]);
      assert '\\' in ESCAPED;
    }
  }

  /** The characters of `g` up to its first one that is no backslash. */
  lemma {:induction false} LeadingSlashes(g: string) returns (a: string, rest: string)
    ensures AllSlashes(a) && g == a + rest && TrimStart(g, '\\') == rest && (rest != "" ==> rest[0] != '\\')
  {
    if g != "" && g[0] == '\\' {
      a, rest := LeadingSlashes(g[1..]);
      a := ['\\'] + a;
    } else {
      a, rest := "", g;
    }
  }

  lemma {:induction false} TrailingSlashes(g: string, b: string)
    requires AllSlashes(b)
    requires g != "" ==> g[|g| - 1] != '\\'
    ensures TrimEnd(g + b, '\\') == g
    decreases |b|
  {
    if b == "" {
      assert g + b == g;
    } else {
      var c := b[..|b| - 1];
      TrailingSlashes(g, c);
      assert (g + b)[..|g + b| - 1] == g + c;
    }
  }

  /** What escaping leaves as it is, but for backslashes after it: plain characters, then backslashes. */
  lemma {:induction false} PlainThenSlashes(r: string, y: string) returns (m: string, b: string)
    requires '*' !in r && '?' !in r && AllSlashes(y) && Translated(r) == r + y
    ensures r == m + b && PlainRule(m) && AllSlashes(b)
    ensures m != "" ==> m[|m| - 1] != '\\'
  {
    if r == "" {
      m, b := "", "";
    } else if r[0] == '\\' {
      m, b := "", r;
      OnlySlashes(r, y);
    } else {
      FirstIsPlain(r, y);
      m, b := PlainThenSlashes(r[1..], y);
      m := [r[0]] + m;
    }
  }

  lemma FirstIsPlain(r: string, y: string)
    requires r != "" && r[0] !in "\\*?" && Translated(r) == r + y
    ensures r[0] !in ESCAPED && Translated(r[1..]) == r[1..] + y
  {
    hide Translated;
    var rest := Translated(r[1..]);
    assert ("\\" + [r[0]] + rest)[0] == '\\';
    TranslatedFirst(r);
    assert (r + y)[0] == r[0] && (r + y)[1..] == r[1..] + y;
    assert ("" + [r[0]] + rest)[1..] == rest;
  }

  /** Escaping doubles leading backslashes, so nothing can follow them where they stay as they are. */
  lemma OnlySlashes(r: string, y: string)
    requires r != "" && r[0] == '\\' && AllSlashes(y) && Translated(r) == r + y
    ensures AllSlashes(r)
  {
    hide Translated, Unit;
    var a, rest := LeadingSlashes(r);
    if rest != "" {
      LetterAfter(a, rest[0], rest[1..] + y);
      assert a + [rest[0]] + (rest[1..] + y) == r + y;
    }
    TranslatedConcat(a, rest);
    TranslatedSlashes(a);
  }

  lemma ContainedIsBracketThenPlain(g: string)
    requires '[' in g && '*' !in g && '?' !in g && Contains(LonePattern(g), g)
    ensures BracketThenPlain(g)
  {
    hide Translated, Unit, LonePattern, Contains, TrimStart, TrimEnd, PlainRule;
    var x, y := SlashesAround(g);
    var a, rest := LeadingSlashes(g);
    assert rest != "";
    var c, r := rest[0], rest[1..];
    AfterFirst(x, a, rest, y);
    var m, b := PlainThenSlashes(r, y);
    TailHasNoBracket(m, b);
    assert c == '[' by { assert '[' in a + ([c] + (m + b)); }
    assert rest == ([c] + m) + b;
    TrailingSlashes([c] + m, b);
  }

  /** Behind its first character that is no backslash, escaping only adds backslashes at the end of the rule. */
  lemma AfterFirst(x: string, a: string, rest: string, y: string)
    requires AllSlashes(a) && AllSlashes(x) && rest != "" && rest[0] !in "\\*?"
    requires Translated(a + rest) == x + (a + rest) + y
    ensures Translated(rest[1..]) == rest[1..] + y
  {
    hide Translated, Unit;
    var c, r := rest[0], rest[1..];
    TranslatedConcat(a, rest);
    TranslatedSlashes(a);
    TranslatedFirst(rest);
    var e := if c in ESCAPED then "\\" else "";
    assert Translated(a + rest) == (Translated(a) + e) + [c] + Translated(r);
    assert x + (a + rest) + y == (x + a) + [c] + (r + y);
    SlashesThen(Translated(a) + e, c, Translated(r), x + a, c, r + y);
  }

  lemma TailHasNoBracket(m: string, b: string)
    requires PlainRule(m) && AllSlashes(b)
    ensures '[' !in m + b
  {
    assert '[' in ESCAPED;
  }

  lemma TranslatedFirst(s: string)
    requires s != "" && s[0] != '*' && s[0] != '?'
    ensures Translated(s) == (if s[0] in ESCAPED then "\\" else "") + [s[0]] + Translated(s[1..])
  {
  }

  lemma {:induction false} BackToEnds(rule: string) returns (a: string, core: string, b: string)
    ensures rule == a + core + b && AllSlashes(a) && AllSlashes(b) && core == TrimEnd(TrimStart(rule, '\\'), '\\')
  {
    var rest;
    a, rest := LeadingSlashes(rule);
    core, b := EndSlashes(rest);
  }

  lemma {:induction false} EndSlashes(s: string) returns (core: string, b: string)
    ensures s == core + b && AllSlashes(b) && core == TrimEnd(s, '\\')
  {
    if s != "" && s[|s| - 1] == '\\' {
      core, b := EndSlashes(s[..|s| - 1]);
      assert s == s[..|s| - 1] + ['\\'];
      b := b + ['\\'];
    } else {
      core, b := s, "";
    }
  }

  lemma BracketThenPlainIsContained(g: string)
    requires '*' !in g && '?' !in g && BracketThenPlain(g)
    ensures Contains(LonePattern(g), g)
  {
    hide Translated, TrimStart, TrimEnd, PlainRule, LonePattern, Contains;
    var a, core, b := BackToEnds(g);
    var m := core[1..];
    assert core == "[" + m;
    NoTrimming(g, a, m, b);
    TranslatedParts(a, m, b);
    var u, v := Translated(a) + "\\", Translated(b);
    TranslatedSlashes(a);
    TranslatedSlashes(b);
    SlashMove(u, a, |a| + 1);
    SlashMove(b, v, |b|);
    SurroundedIsContained(u[..|a| + 1], g, v[|b|..]);
    assert u + ("[" + m) + v == u[..|a| + 1] + g + v[|b|..];
  }

  lemma SurroundedIsContained(x: string, g: string, y: string)
    ensures Contains(x + g + y, g)
  {
    assert OccursAt(x + g + y, g, |x|);
  }

  lemma TranslatedParts(a: string, m: string, b: string)
    requires PlainRule(m) && '*' !in m
    ensures Translated(a + ("[" + m) + b) == (Translated(a) + "\\") + ("[" + m) + Translated(b)
  {
    hide Translated, PlainRule;
    PlainPattern(m);
    TranslatedConcat(a + ("[" + m), b);
    TranslatedConcat(a, "[" + m);
    TranslatedFirst("[" + m);
    assert '[' in ESCAPED;
    assert ("[" + m)[1..] == m;
  }

  /** Backslashes are backslashes: a run that is long enough ends, or begins, with a shorter one. */
  lemma SlashMove(u: string, v: string, n: nat)
    requires AllSlashes(u) && AllSlashes(v)
    ensures |u| == n + |v| ==> u == u[..n] + v
    ensures |v| >= |u| == n ==> v == u + v[n..]
  {
  }

  lemma NoTrimming(g: string, a: string, m: string, b: string)
    requires g == a + ("[" + m) + b && AllSlashes(b) && PlainRule(m)
    ensures LonePattern(g) == Translated(g)
  {
    hide Translated, TrimEnd;
    var h, c := g[..|g| - 1], g[|g| - 1];
    assert g == h + [c];
    assert '$' in ESCAPED;
    TranslatedEnd(h, c);
  }

  lemma LowerBracketThenPlain(lower: Lowering, rule: string)
    requires GoodLowering(lower)
    ensures BracketThenPlain(LowerAll(lower, rule)) <==> BracketThenPlain(rule)
  {
    hide GoodLowering, TrimStart, TrimEnd, PlainRule;
    LowerTrimStart(lower, rule);
    LowerTrimEnd(lower, TrimStart(rule, '\\'));
    var core := TrimEnd(TrimStart(rule, '\\'), '\\');
    if core != "" {
      assert LowerAll(lower, core)[1..] == LowerAll(lower, core[1..]);
      LowerPlain(lower, core[1..]);
      LowerEscaped(lower, core[0], '[');
    }
  }

  lemma LowerEscaped(lower: Lowering, c: char, d: char)
    requires GoodLowering(lower) && d in ESCAPED
    ensures lower(c) == d <==> c == d
  {
    var metas := ESCAPED + "*?";
    assert d in metas;
  }

  lemma {:induction false} LowerTrimStart(lower: Lowering, s: string)
    requires GoodLowering(lower)
    ensures TrimStart(LowerAll(lower, s), '\\') == LowerAll(lower, TrimStart(s, '\\'))
  {
    hide GoodLowering;
    if s != "" {
      LowerTrimStart(lower, s[1..]);
      LowerEscaped(lower, s[0], '\\');
      assert LowerAll(lower, s)[1..] == LowerAll(lower, s[1..]);
    }
  }

  lemma {:induction false} LowerTrimEnd(lower: Lowering, s: string)
    requires GoodLowering(lower)
    ensures TrimEnd(LowerAll(lower, s), '\\') == LowerAll(lower, TrimEnd(s, '\\'))
  {
    hide GoodLowering;
    if s != "" {
      var k := |s| - 1;
      LowerTrimEnd(lower, s[..k]);
      LowerEscaped(lower, s[k], '\\');
      assert LowerAll(lower, s)[..k] == LowerAll(lower, s[..k]);
    }
  }

  /**
   A rule with a bracket and no wildcard is still matched as what it says exactly when, but for backslashes at either
   end, it is that bracket and characters that need no escape after it.
   */
  lemma BracketRulesAgree(lower: Lowering, rule: string)
    requires GoodLowering(lower) && '[' in rule && '*' !in rule && '?' !in rule
    ensures Agrees(lower, rule) <==> BracketThenPlain(rule)
  {
    hide GoodLowering, LowerAll, Agrees, LonePattern, Contains, BracketThenPlain;
    var g := LowerAll(lower, rule);
    LowerPlain(lower, rule);
    LowerBracket(lower, rule);
    AgreesWhenContained(lower, rule);
    LowerBracketThenPlain(lower, rule);
    if Contains(LonePattern(g), g) {
      ContainedIsBracketThenPlain(g);
    }
    if BracketThenPlain(g) {
      BracketThenPlainIsContained(g);
    }
  }

  lemma LowerBracket(lower: Lowering, rule: string)
    requires GoodLowering(lower) && '[' in rule
    ensures '[' in LowerAll(lower, rule)
  {
    var i :| 0 <= i < |rule| && rule[i] == '[';
    LowerEscaped(lower, '[', '[');
    assert LowerAll(lower, rule)[i] == '[';
  }

  /** The rule `a[` blocks a response in which it does not occur. */
  lemma LetterBeforeBracketDisagrees(lower: Lowering)
    requires GoodLowering(lower) && lower('a') == 'a'
    ensures Violates(lower, "a[", "a\\[")
    ensures !GlobFound(LowerAll(lower, "a["), LowerAll(lower, "a\\["))
  {
    hide LowerAll, RegexLite, TrimEnd, GlobFound, Contains, GoodLowering;
    var g, t := "a[", "a\\[";
    LowersToItself(lower);
    PatternOfLetterBracket();
    LowerPattern(lower, g);
    LoneSearch(g, t);
    NotContained();
    if GlobFound(g, t) {
      LoneRule(g, t);
    }
  }

  lemma LowersToItself(lower: Lowering)
    requires GoodLowering(lower) && lower('a') == 'a'
    ensures LowerAll(lower, "a[") == "a[" && LowerAll(lower, "a\\[") == "a\\["
  {
    LowerEscaped(lower, '[', '[');
    LowerEscaped(lower, '\\', '\\');
  }

  lemma PatternOfLetterBracket()
    ensures Translated("a[") == "a\\[" && LonePattern("a[") == "a\\["
  {
    assert "a["[1..] == "[" && "["[1..] == "";
    assert Translated("[") == "\\[" && Translated("a[") == "a" + "\\[";
  }

  lemma NotContained()
    ensures !Contains("a\\[", "a[")
  {
    assert forall i :: !OccursAt("a\\[", "a[", i) by {
      assert "a\\["[0..2] != "a[" by { assert "a\\["[0..2][1] == '\\'; }
      assert "a\\["[1..3] != "a[" by { assert "a\\["[1..3][0] == '\\'; }
    }
  }
}
