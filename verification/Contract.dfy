/**
 Behaviour contracts: `must_not` rules are matched against a response as substrings or as globs. Lowercasing is a
 function on characters, given as a parameter.
 */
module Contract {
  import opened Wrappers
  import opened Sequences
  import opened Search

  /** The characters the translation to a pattern puts a backslash in front of. */
  const ESCAPED := ".+(){}[]|^$\\"

  type Lowering = char -> char

  /** Lowercasing that settles at once and neither produces nor changes a character with a meaning in patterns. */
  ghost predicate GoodLowering(lower: Lowering)
  {
    forall c ::
      && lower(lower(c)) == lower(c)
      && (lower(c) in ESCAPED + "*?" <==> c in ESCAPED + "*?")
      && (c in ESCAPED + "*?" ==> lower(c) == c)
  }

  function LowerAll(lower: Lowering, s: string): (t: string)
    ensures |t| == |s| && forall i :: 0 <= i < |s| ==> t[i] == lower(s[i])
  {
    seq(|s|, i requires 0 <= i < |s| => lower(s[i]))
  }

  // ---------- the glob reading of a rule ----------

  /** `g` matches a prefix of `t`: `*` stands for any text, `?` for any character, everything else for itself. */
  ghost predicate GlobPrefix(g: string, t: string)
    decreases |g|
  {
    if g == "" then true
    else if g[0] == '*' then exists k :: 0 <= k <= |t| && GlobPrefix(g[1..], t[k..])
    else t != "" && (g[0] == '?' || g[0] == t[0]) && GlobPrefix(g[1..], t[1..])
  }

  /** Some excerpt of the text matches the rule. */
  ghost predicate GlobFrom(g: string, text: string, pos: nat)
  {
    exists i :: pos <= i <= |text| && GlobPrefix(g, text[i..])
  }

  ghost predicate GlobFound(g: string, text: string)
  {
    GlobFrom(g, text, 0)
  }

  // ---------- what the code computes ----------

  function Unit(c: char): string
  {
    if c == '*' then ".*" else if c == '?' then "." else if c in ESCAPED then ['\\', c] else [c]
  }

  function Translated(glob: string): string
  {
    if glob == "" then "" else Unit(glob[0]) + Translated(glob[1..])
  }

  lemma {:induction false} TranslatedConcat(a: string, b: string)
    ensures Translated(a + b) == Translated(a) + Translated(b)
  {
    hide Unit;
    if a == "" {
      assert a + b == b && Translated(a) == "" && "" + Translated(b) == Translated(b);
    } else {
      TranslatedConcat(a[1..], b);
      assert (a + b)[1..] == a[1..] + b && (a + b)[0] == a[0];
      Assoc(Unit(a[0]), Translated(a[1..]), Translated(b));
    }
  }

  method GlobToRegexPattern(glob: string) returns (out: string)
    ensures out == Translated(glob)
  {
    out := "";
    for i := 0 to |glob|
      invariant out == Translated(glob[..i])
    {
      var c := glob[i];
      TranslatedConcat(glob[..i], [c]);
      assert glob[..i + 1] == glob[..i] + [c] && Translated([c]) == Unit(c) + "";
      if c == '*' {
        out := out + ".*";
      } else if c == '?' {
        out := out + ".";
      } else if c in ESCAPED {
        out := out + ['\\', c];
      } else {
        out := out + [c];
      }
    }
    assert glob[..|glob|] == glob;
  }

  /** The pieces of `s` between the occurrences of `sep`, found from the left. */
  function SplitOn(s: string, sep: string): (parts: seq<string>)
    requires sep != ""
    ensures |parts| >= 1
    decreases |s|
  {
    var o := Find(s, sep, 0);
    if o == -1 then [s] else [s[..o]] + SplitOn(s[o + |sep|..], sep)
  }

  function TrimStart(s: string, c: char): string
  {
    if s != "" && s[0] == c then TrimStart(s[1..], c) else s
  }

  function TrimEnd(s: string, c: char): string
  {
    if s != "" && s[|s| - 1] == c then TrimEnd(s[..|s| - 1], c) else s
  }

  /** The greedy search: every part at its first occurrence after the one before; the position after the last one. */
  function Greedy(parts: seq<string>, text: string, pos: nat, startAnchor: bool): (end: Option<nat>)
    requires pos <= |text|
    ensures end.Some? ==> pos <= end.value <= |text|
    decreases |parts|
  {
    if parts == [] then Some(pos)
    else if parts[0] == "" then Greedy(parts[1..], text, pos, false)
    else
      var o := Find(text, parts[0], pos);
      if o == -1 || (startAnchor && o != pos) then None
      else Greedy(parts[1..], text, o + |parts[0]|, false)
  }

  function RegexLite(pattern: string, text: string): bool
  {
    var trimmed := TrimEnd(TrimStart(pattern, '^'), '$');
    var end := Greedy(SplitOn(trimmed, ".*"), text, 0, pattern != "" && pattern[0] == '^');
    end.Some? && (pattern != "" && pattern[|pattern| - 1] == '$' ==> end.value == |text|)
  }

  lemma GreedySkips(parts: seq<string>, i: nat)
    requires i < |parts|
    ensures parts[i..][0] == parts[i] && parts[i..][1..] == parts[i + 1..]
  {
  }

  method SearchParts(parts: seq<string>, text: string, anchorStart: bool) returns (end: Option<nat>)
    ensures end == Greedy(parts, text, 0, anchorStart)
  {
    hide OccursAt, Find;
    var pos: nat := 0;
    assert parts[0..] == parts;
    for i := 0 to |parts|
      invariant pos <= |text|
      invariant Greedy(parts, text, 0, anchorStart) == Greedy(parts[i..], text, pos, anchorStart && i == 0)
    {
      GreedySkips(parts, i);
      var part := parts[i];
      if part == "" {
        continue;
      }
      var idx := Find(text, part, pos);
      if idx == -1 || (i == 0 && anchorStart && idx != pos) {
        return None;
      }
      FoundInside(text, part, pos);
      pos := idx + |part|;
    }
    return Some(pos);
  }

  lemma FoundInside(text: string, part: string, pos: nat)
    ensures var idx := Find(text, part, pos); idx != -1 ==> pos <= idx && idx + |part| <= |text|
  {
  }

  method RegexLiteMatch(lower: Lowering, pattern: string, text: string) returns (found: bool)
    ensures found == RegexLite(LowerAll(lower, pattern), LowerAll(lower, text))
  {
    hide SplitOn, TrimStart, TrimEnd, LowerAll, Greedy;
    var textLower, patternLower := LowerAll(lower, text), LowerAll(lower, pattern);
    var anchorStart := patternLower != "" && patternLower[0] == '^';
    var anchorEnd := patternLower != "" && patternLower[|patternLower| - 1] == '$';
    var parts := SplitOn(TrimEnd(TrimStart(patternLower, '^'), '$'), ".*");
    var end := SearchParts(parts, textLower, anchorStart);
    return end.Some? && (!anchorEnd || end.value == |textLower|);
  }

  // ---------- plain rules: stars and characters that need no escape ----------

  predicate PlainRule(g: string)
  {
    forall i :: 0 <= i < |g| ==> g[i] != '?' && g[i] !in ESCAPED
  }

  /** The position of the first star, or the length of a rule without one. */
  function FirstStar(g: string): (n: nat)
    ensures n <= |g| && (n < |g| ==> g[n] == '*') && forall i :: 0 <= i < n ==> g[i] != '*'
  {
    if g == "" || g[0] == '*' then 0 else 1 + FirstStar(g[1..])
  }

  /** The pieces of a rule between its stars. */
  function StarPieces(g: string): (parts: seq<string>)
    ensures |parts| >= 1
    decreases |g|
  {
    var n := FirstStar(g);
    if n == |g| then [g] else [g[..n]] + StarPieces(g[n + 1..])
  }

  // ---------- the greedy search finds a placement whenever there is one ----------

  /** Starting earlier never loses. */
  lemma {:induction false} GreedyEarlier(parts: seq<string>, text: string, early: nat, late: nat)
    requires early <= late <= |text| && Greedy(parts, text, late, false).Some?
    ensures Greedy(parts, text, early, false).Some?
    decreases |parts|
  {
    if parts != [] {
      if parts[0] == "" {
        GreedyEarlier(parts[1..], text, early, late);
      } else {
        var o, p := Find(text, parts[0], early), Find(text, parts[0], late);
        assert OccursAt(text, parts[0], p);
        GreedyEarlier(parts[1..], text, o + |parts[0]|, p + |parts[0]|);
      }
    }
  }

  /** A star-free piece in front of a rule matches exactly where it occurs. */
  lemma {:induction false} PrefixOfPiece(a: string, g: string, t: string)
    requires forall i :: 0 <= i < |a| ==> a[i] != '*' && a[i] != '?'
    ensures GlobPrefix(a + g, t) <==> a <= t && GlobPrefix(g, t[|a|..])
    decreases |a|
  {
    if a == "" {
      assert a + g == g && t[0..] == t;
    } else {
      assert (a + g)[1..] == a[1..] + g;
      if t != "" {
        PrefixOfPiece(a[1..], g, t[1..]);
        assert a <= t <==> a[0] == t[0] && a[1..] <= t[1..];
        assert a <= t ==> t[1..][|a[1..]|..] == t[|a|..];
      }
    }
  }

  lemma OccursPrefix(text: string, a: string, i: nat)
    requires i <= |text|
    ensures a <= text[i..] <==> OccursAt(text, a, i)
    ensures OccursAt(text, a, i) ==> text[i..][|a|..] == text[i + |a|..]
  {
    if a <= text[i..] {
      assert text[i..i + |a|] == text[i..][..|a|];
    }
    if OccursAt(text, a, i) {
      assert text[i..][..|a|] == text[i..i + |a|];
    }
  }

  lemma StarThen(rest: string, text: string, p: nat)
    requires p <= |text|
    ensures GlobPrefix("*" + rest, text[p..]) <==> GlobFrom(rest, text, p)
  {
    var g, t := "*" + rest, text[p..];
    assert g[1..] == rest;
    if GlobPrefix(g, t) {
      var k :| 0 <= k <= |t| && GlobPrefix(g[1..], t[k..]);
      assert t[k..] == text[p + k..];
    }
    if GlobFrom(rest, text, p) {
      var i :| p <= i <= |text| && GlobPrefix(rest, text[i..]);
      assert t[i - p..] == text[i..];
    }
  }

  lemma PieceThenStar(a: string, rest: string, text: string, i: nat)
    requires i <= |text|
    requires forall k :: 0 <= k < |a| ==> a[k] != '*' && a[k] != '?'
    ensures GlobPrefix(a + ("*" + rest), text[i..]) <==> OccursAt(text, a, i) && GlobFrom(rest, text, i + |a|)
  {
    hide GlobPrefix, GlobFrom;
    PrefixOfPiece(a, "*" + rest, text[i..]);
    OccursPrefix(text, a, i);
    if OccursAt(text, a, i) {
      StarThen(rest, text, i + |a|);
    }
  }

  lemma PieceAlone(a: string, text: string, i: nat)
    requires i <= |text|
    requires forall k :: 0 <= k < |a| ==> a[k] != '*' && a[k] != '?'
    ensures GlobPrefix(a, text[i..]) <==> OccursAt(text, a, i)
  {
    PrefixOfPiece(a, "", text[i..]);
    assert a + "" == a;
    OccursPrefix(text, a, i);
  }

  /** A rule is one star-free piece, or such a piece, a star and a shorter rule. */
  lemma StarPiecesStep(g: string) returns (a: string, rest: string)
    ensures forall k :: 0 <= k < |a| ==> a[k] != '*' && a[k] in g
    ensures if '*' !in g then StarPieces(g) == [a] && a == g
      else g == a + ("*" + rest) && |rest| < |g| && StarPieces(g) == [a] + StarPieces(rest)
  {
    var n := FirstStar(g);
    a := g[..n];
    if n < |g| {
      rest := g[n + 1..];
      assert g[n] in g && g == a + ("*" + rest);
    } else {
      rest := "";
      assert a == g;
    }
  }

  /** Leftmost greedy search over the pieces of a rule succeeds exactly when the rule matches some excerpt. */
  lemma {:induction false} GreedyMeansGlob(g: string, text: string, pos: nat)
    requires pos <= |text| && '?' !in g
    ensures Greedy(StarPieces(g), text, pos, false).Some? <==> GlobFrom(g, text, pos)
    decreases |g|
  {
    hide GlobPrefix, OccursAt, Greedy, StarPieces;
    var a, rest := StarPiecesStep(g);
    if '*' !in g {
      LonePiece(a, text, pos);
      forall i: nat | pos <= i <= |text|
        ensures GlobPrefix(g, text[i..]) <==> OccursAt(text, g, i)
      {
        PieceAlone(g, text, i);
      }
    } else {
      FirstPiece(a, StarPieces(rest), text, pos);
      forall i: nat | pos <= i <= |text|
        ensures GlobPrefix(g, text[i..]) <==> PieceFits(a, StarPieces(rest), text, i)
      {
        PieceThenStar(a, rest, text, i);
        if i + |a| <= |text| {
          assert '?' !in rest;
          GreedyMeansGlob(rest, text, i + |a|);
        } else {
          OccursInside(text, a, i);
        }
      }
    }
  }

  lemma OccursInside(text: string, a: string, i: int)
    ensures OccursAt(text, a, i) ==> 0 <= i && i + |a| <= |text|
  {
  }

  /** The first piece may as well go where it first occurs. */
  lemma FirstPiece(a: string, parts: seq<string>, text: string, pos: nat)
    requires pos <= |text|
    ensures Greedy([a] + parts, text, pos, false).Some? <==>
      exists i :: pos <= i <= |text| && PieceFits(a, parts, text, i)
  {
    hide Greedy, OccursAt, PieceFits;
    var o := FirstOccurrence(a, text, pos);
    GreedyFront(a, parts, text, pos);
    if i: nat :| pos <= i <= |text| && PieceFits(a, parts, text, i) {
      FitsEarlier(a, parts, text, pos, i);
    }
  }

  /** The piece occurs at `i`, and the other pieces can be placed behind it. */
  ghost predicate PieceFits(a: string, parts: seq<string>, text: string, i: nat)
  {
    OccursAt(text, a, i) && i + |a| <= |text| && Greedy(parts, text, i + |a|, false).Some?
  }

  /** Where the search puts a piece; -1 when it occurs no more. */
  function FirstOccurrence(a: string, text: string, pos: nat): int
  {
    if a == "" then pos else Find(text, a, pos)
  }

  lemma GreedyFront(a: string, parts: seq<string>, text: string, pos: nat)
    requires pos <= |text|
    ensures var o := FirstOccurrence(a, text, pos);
      && (o == -1 || pos <= o <= |text|)
      && (Greedy([a] + parts, text, pos, false).Some? <==> o != -1 && PieceFits(a, parts, text, o))
  {
    assert ([a] + parts)[1..] == parts;
    hide OccursAt;
    var o := FirstOccurrence(a, text, pos);
    if a == "" {
      EmptyOccurs(text, pos);
    } else if o != -1 {
      OccursInside(text, a, o);
    }
  }

  lemma EmptyOccurs(text: string, pos: nat)
    requires pos <= |text|
    ensures OccursAt(text, "", pos)
  {
  }

  lemma FitsEarlier(a: string, parts: seq<string>, text: string, pos: nat, i: nat)
    requires pos <= i <= |text| && PieceFits(a, parts, text, i)
    ensures var o := FirstOccurrence(a, text, pos); o != -1 && 0 <= o && PieceFits(a, parts, text, o)
  {
    hide Greedy, OccursAt;
    var o := FirstOccurrence(a, text, pos);
    if a == "" {
      EmptyOccurs(text, pos);
    }
    assert o != -1 && o <= i;
    OccursInside(text, a, o);
    GreedyEarlier(parts, text, o + |a|, i + |a|);
  }

  lemma LonePiece(a: string, text: string, pos: nat)
    requires pos <= |text|
    ensures Greedy([a], text, pos, false).Some? <==> exists i :: pos <= i <= |text| && OccursAt(text, a, i)
  {
    if a == "" {
      assert OccursAt(text, a, pos);
    }
  }

  // ---------- the pattern of a rule, cut at its stars ----------

  /** The pieces of a rule as they appear in its pattern, with `tail` after the last one. */
  function PatternPieces(pieces: seq<string>, tail: string): seq<string>
    requires pieces != []
  {
    if |pieces| == 1 then [Translated(pieces[0]) + tail]
    else [Translated(pieces[0])] + PatternPieces(pieces[1..], tail)
  }

  lemma {:induction false} TranslatedStarFree(a: string)
    requires '*' !in a
    ensures '*' !in Translated(a)
  {
    if a != "" {
      TranslatedStarFree(a[1..]);
    }
  }

  /** The separator needs a star, so none starts inside a star-free text. */
  lemma NoSeparator(x: string, s: string, i: nat)
    requires '*' !in x && x <= s && i < |x|
    requires |x| < |s| ==> s[|x|] != '*'
    ensures !OccursAt(s, ".*", i)
  {
    if i + 2 <= |s| {
      assert s[i..i + 2][1] == s[i + 1] != '*';
    }
  }

  lemma FirstSeparator(x: string, y: string)
    requires '*' !in x
    ensures Find(x + (".*" + y), ".*", 0) == |x|
    ensures Find(x, ".*", 0) == -1
  {
    hide Find;
    var s := x + (".*" + y);
    assert s[|x|..|x| + 2] == ".*";
    forall i: nat | i < |x|
      ensures !OccursAt(s, ".*", i) && !OccursAt(x, ".*", i)
    {
      NoSeparator(x, s, i);
      NoSeparator(x, x, i);
    }
    assert OccursAt(s, ".*", |x|);
    assert forall i :: |x| <= i ==> !OccursAt(x, ".*", i);
  }

  lemma TranslatedAtStar(a: string, rest: string, tail: string)
    ensures Translated(a + ("*" + rest)) + tail == Translated(a) + (".*" + (Translated(rest) + tail))
  {
    hide Unit;
    TranslatedConcat(a, "*" + rest);
    assert ("*" + rest)[1..] == rest;
    StarUnit();
  }

  lemma StarUnit()
    ensures Unit('*') == ".*"
  {
  }

  lemma SplitAtSeparator(x: string, y: string)
    requires '*' !in x
    ensures SplitOn(x + (".*" + y), ".*") == [x] + SplitOn(y, ".*")
  {
    FirstSeparator(x, y);
    hide Find;
    var s := x + (".*" + y);
    assert s[..|x|] == x && s[|x| + 2..] == y;
  }

  lemma {:induction false} SplitTranslated(g: string, tail: string)
    requires '*' !in tail
    ensures SplitOn(Translated(g) + tail, ".*") == PatternPieces(StarPieces(g), tail)
    decreases |g|
  {
    hide StarPieces, Find, Translated, SplitOn;
    var a, rest := StarPiecesStep(g);
    TranslatedStarFree(a);
    if '*' !in g {
      Unseparated(Translated(a) + tail);
    } else {
      SplitTranslated(rest, tail);
      TranslatedAtStar(a, rest, tail);
      SplitAtSeparator(Translated(a), Translated(rest) + tail);
      assert ([a] + StarPieces(rest))[1..] == StarPieces(rest);
    }
  }

  lemma Unseparated(x: string)
    requires '*' !in x
    ensures SplitOn(x, ".*") == [x]
  {
    FirstSeparator(x, "");
  }

  lemma {:induction false} PlainPattern(g: string)
    requires PlainRule(g) && '*' !in g
    ensures Translated(g) == g
  {
    if g != "" {
      PlainPattern(g[1..]);
    }
  }

  lemma {:induction false} PlainPieces(g: string)
    requires PlainRule(g)
    ensures PatternPieces(StarPieces(g), "") == StarPieces(g)
    decreases |g|
  {
    hide StarPieces;
    var a, rest := StarPiecesStep(g);
    assert PlainRule(a) by { assert forall k :: 0 <= k < |a| ==> a[k] in g; }
    PlainPattern(a);
    assert a + "" == a;
    if '*' in g {
      assert forall k :: 0 <= k < |rest| ==> rest[k] == g[|a| + 1 + k];
      PlainPieces(rest);
      assert ([a] + StarPieces(rest))[1..] == StarPieces(rest);
    }
  }

  predicate EndsWithDollar(g: string)
  {
    g != "" && g[|g| - 1] == '$'
  }

  lemma TranslatedStarts(g: string)
    ensures TrimStart(Translated(g), '^') == Translated(g)
    ensures Translated(g) != "" ==> Translated(g)[0] != '^'
  {
    if g != "" {
      assert Translated(g)[0] == Unit(g[0])[0];
    }
  }

  lemma TranslatedLast(h: string, c: char)
    ensures Translated(h + [c]) == Translated(h) + Unit(c)
  {
    TranslatedConcat(h, [c]);
    assert [c][1..] == "";
    assert Unit(c) + "" == Unit(c);
  }

  lemma UnitEnds(c: char)
    ensures Unit(c) != "" && (Unit(c)[|Unit(c)| - 1] == '$' <==> c == '$')
    ensures c == '$' ==> Unit(c) == ['\\', '$']
  {
  }

  lemma TrimsNothing(t: string)
    requires !EndsWithDollar(t)
    ensures TrimEnd(t, '$') == t
  {
  }

  lemma TrimsOneDollar(t: string)
    ensures EndsWithDollar(t + ['\\', '$']) && TrimEnd(t + ['\\', '$'], '$') == t + ['\\']
  {
    var s, u := t + ['\\', '$'], t + ['\\'];
    assert s[..|s| - 1] == u;
    TrimsNothing(u);
  }

  lemma LastOf(t: string, u: string)
    requires u != ""
    ensures EndsWithDollar(t + u) <==> u[|u| - 1] == '$'
  {
  }

  lemma TranslatedEnd(h: string, c: char)
    ensures EndsWithDollar(Translated(h + [c])) <==> c == '$'
    ensures TrimEnd(Translated(h + [c]), '$') == if c == '$' then Translated(h) + ['\\'] else Translated(h + [c])
  {
    hide TrimEnd, Unit, Translated, EndsWithDollar;
    TranslatedLast(h, c);
    UnitEnds(c);
    LastOf(Translated(h), Unit(c));
    if c == '$' {
      TrimsOneDollar(Translated(h));
    } else {
      TrimsNothing(Translated(h + [c]));
    }
  }

  /** What the search in the pattern of a rule comes down to, anchors included. */
  lemma PatternSearch(g: string, text: string)
    requires !EndsWithDollar(g)
    ensures RegexLite(Translated(g), text) == Greedy(PatternPieces(StarPieces(g), ""), text, 0, false).Some?
  {
    hide Translated, SplitOn, Greedy, PatternPieces, StarPieces, TrimStart, TrimEnd;
    TranslatedStarts(g);
    if g == "" {
      EmptyPattern();
    } else {
      assert g == g[..|g| - 1] + [g[|g| - 1]];
      TranslatedEnd(g[..|g| - 1], g[|g| - 1]);
    }
    SplitTranslated(g, "");
    assert Translated(g) + "" == Translated(g);
  }

  lemma EmptyPattern()
    ensures Translated("") == "" && TrimEnd("", '$') == ""
  {
  }

  /** A rule that ends with a dollar sign loses it in the pattern, and keeps the backslash that was put before it. */
  lemma DollarPatternSearch(h: string, text: string)
    requires RegexLite(Translated(h + ['$']), text)
    ensures Greedy(PatternPieces(StarPieces(h), "\\"), text, 0, false).Some?
  {
    hide Translated, SplitOn, Greedy, PatternPieces, StarPieces, TrimStart, TrimEnd;
    TranslatedStarts(h + ['$']);
    TranslatedEnd(h, '$');
    SplitTranslated(h, "\\");
  }

  // ---------- rules and responses ----------

  /** Whether a rule is tried as a pattern when it is no substring. */
  predicate LooksLikeGlob(rule: string)
  {
    '*' in rule || '?' in rule || '[' in rule
  }

  /** What counts as a violation of one rule. */
  ghost predicate Violates(lower: Lowering, rule: string, response: string)
  {
    var r, t := LowerAll(lower, rule), LowerAll(lower, response);
    Contains(t, r) || (LooksLikeGlob(rule) && RegexLite(LowerAll(lower, Translated(r)), LowerAll(lower, t)))
  }

  /** The rules among these that the response violates, in their order, repeated rules included. */
  ghost function Violated(lower: Lowering, rules: seq<string>, response: string): (violated: seq<string>)
    ensures forall rule :: rule in violated <==> rule in rules && Violates(lower, rule, response)
  {
    hide Violates;
    if rules == [] then []
    else
      var k := |rules| - 1;
      Violated(lower, rules[..k], response) + if Violates(lower, rules[k], response) then [rules[k]] else []
  }

  lemma ViolatedNext(lower: Lowering, rules: seq<string>, response: string, i: nat)
    requires i < |rules|
    ensures Violated(lower, rules[..i + 1], response)
      == Violated(lower, rules[..i], response) + if Violates(lower, rules[i], response) then [rules[i]] else []
  {
    hide Violates;
    assert rules[..i + 1][..i] == rules[..i];
  }

  /** The violated rules, in the order of the contract; the response passes when there is none. */
  method ValidateResponse(lower: Lowering, mustNot: seq<string>, response: string)
    returns (passed: bool, violations: seq<string>)
    ensures passed <==> forall rule | rule in mustNot :: !Violates(lower, rule, response)
    ensures violations == Violated(lower, mustNot, response)
  {
    assert Violated(lower, mustNot[..0], response) == [];
    hide Violated, LowerAll, RegexLite, Translated, Contains, Find;
    var lowered := LowerAll(lower, response);
    violations := [];
    for i := 0 to |mustNot|
      invariant violations == Violated(lower, mustNot[..i], response)
    {
      var rule := mustNot[i];
      ViolatedNext(lower, mustNot, response, i);
      var ruleLower := LowerAll(lower, rule);
      FindDecides(lowered, ruleLower);
      if Find(lowered, ruleLower, 0) != -1 {
        violations := violations + [rule];
        continue;
      }
      if LooksLikeGlob(rule) {
        var pattern := GlobToRegexPattern(ruleLower);
        var re := RegexLiteMatch(lower, pattern, lowered);
        if re {
          violations := violations + [rule];
        }
      }
    }
    assert mustNot[..|mustNot|] == mustNot;
    passed := violations == [];
    assert passed ==> forall rule | rule in mustNot :: rule !in violations;
    assert !passed ==> violations[0] in violations;
  }

  // ---------- when the code and the glob reading agree ----------

  lemma LowerTwice(lower: Lowering, s: string)
    requires GoodLowering(lower)
    ensures LowerAll(lower, LowerAll(lower, s)) == LowerAll(lower, s)
  {
  }

  lemma LowerUnit(lower: Lowering, c: char)
    requires GoodLowering(lower)
    ensures LowerAll(lower, Unit(lower(c))) == Unit(lower(c))
  {
    var metas := ESCAPED + "*?";
    assert '.' in metas && '*' in metas && '\\' in metas;
  }

  lemma LowerConcat(lower: Lowering, a: string, b: string)
    ensures LowerAll(lower, a + b) == LowerAll(lower, a) + LowerAll(lower, b)
  {
  }

  /** Lowercasing the pattern again changes nothing. */
  lemma {:induction false} LowerPattern(lower: Lowering, s: string)
    requires GoodLowering(lower)
    ensures LowerAll(lower, Translated(LowerAll(lower, s))) == Translated(LowerAll(lower, s))
  {
    hide Unit, GoodLowering;
    if s != "" {
      LowerPattern(lower, s[1..]);
      LowerUnit(lower, s[0]);
      assert LowerAll(lower, s)[1..] == LowerAll(lower, s[1..]);
      LowerConcat(lower, Unit(lower(s[0])), Translated(LowerAll(lower, s[1..])));
    }
  }

  lemma LowerPlain(lower: Lowering, rule: string)
    requires GoodLowering(lower)
    ensures PlainRule(LowerAll(lower, rule)) <==> PlainRule(rule)
    ensures '*' in LowerAll(lower, rule) <==> '*' in rule
    ensures '?' in LowerAll(lower, rule) <==> '?' in rule
  {
    var r := LowerAll(lower, rule);
    forall i | 0 <= i < |rule|
      ensures r[i] in ESCAPED <==> rule[i] in ESCAPED
      ensures (r[i] == '?' <==> rule[i] == '?') && (r[i] == '*' <==> rule[i] == '*')
    {
      LowerMeta(lower, rule[i]);
    }
    if '*' in rule {
      var i :| 0 <= i < |rule| && rule[i] == '*';
      assert r[i] in r;
    }
    if '?' in rule {
      var i :| 0 <= i < |rule| && rule[i] == '?';
      assert r[i] in r;
    }
  }

  lemma LowerMeta(lower: Lowering, c: char)
    requires GoodLowering(lower)
    ensures lower(c) in ESCAPED <==> c in ESCAPED
    ensures (lower(c) == '?' <==> c == '?') && (lower(c) == '*' <==> c == '*')
  {
    var metas := ESCAPED + "*?";
    assert c in metas <==> c in ESCAPED || c == '*' || c == '?';
    assert lower(c) in metas <==> lower(c) in ESCAPED || lower(c) == '*' || lower(c) == '?';
  }

  /** A rule that occurs literally also matches as a glob. */
  lemma {:induction false} LiteralMatches(g: string, t: string)
    requires g <= t
    ensures GlobPrefix(g, t)
    decreases |g|
  {
    if g != "" {
      LiteralMatches(g[1..], t[1..]);
    }
  }

  lemma ContainedIsFound(g: string, t: string)
    requires Contains(t, g)
    ensures GlobFound(g, t)
  {
    var i :| OccursAt(t, g, i);
    OccursPrefix(t, g, i);
    LiteralMatches(g, t[i..]);
  }

  /** For plain rules the code decides the glob reading: the rule is violated iff it matches an excerpt. */
  lemma PlainRuleMeaning(lower: Lowering, rule: string, response: string)
    requires GoodLowering(lower) && PlainRule(rule)
    ensures Violates(lower, rule, response) <==> GlobFound(LowerAll(lower, rule), LowerAll(lower, response))
  {
    var g, t := LowerAll(lower, rule), LowerAll(lower, response);
    LowerPlain(lower, rule);
    LowerPattern(lower, rule);
    LowerTwice(lower, response);
    assert '?' !in g && !EndsWithDollar(g) && '?' !in rule && '[' !in rule by {
      assert '$' in ESCAPED && '[' in ESCAPED;
    }
    PatternSearch(g, t);
    PlainPieces(g);
    GreedyMeansGlob(g, t, 0);
    hide LowerAll, GoodLowering, PlainRule, RegexLite, Translated, Greedy, GlobFrom, Contains;
    if Contains(t, g) {
      ContainedIsFound(g, t);
    }
    if '*' !in rule && GlobFound(g, t) {
      LoneRule(g, t);
    }
  }

  lemma LoneRule(g: string, t: string)
    requires '*' !in g && '?' !in g && GlobFound(g, t)
    ensures Contains(t, g)
  {
    var i :| 0 <= i <= |t| && GlobPrefix(g, t[i..]);
    PieceAlone(g, t, i);
  }

  // A rule that is not plain: a response it should match and the code lets pass.

  /** The shortest response a rule matches: nothing for a star, an `x` for a question mark. */
  function Collapsed(g: string): string
  {
    if g == "" then "" else CollapsedOne(g[0]) + Collapsed(g[1..])
  }

  function CollapsedOne(c: char): string
  {
    if c == '*' then "" else if c == '?' then "x" else [c]
  }

  function Stars(g: string): nat
  {
    if g == "" then 0 else (if g[0] == '*' then 1 else 0) + Stars(g[1..])
  }

  function Escapes(g: string): nat
  {
    if g == "" then 0 else (if g[0] in ESCAPED then 1 else 0) + Escapes(g[1..])
  }

  function TotalLength(parts: seq<string>): nat
  {
    if parts == [] then 0 else |parts[0]| + TotalLength(parts[1..])
  }

  lemma {:induction false} Lengths(g: string)
    ensures |Collapsed(g)| == |g| - Stars(g) && |Translated(g)| == |g| + Stars(g) + Escapes(g)
    ensures Stars(g) <= |g| && (Stars(g) == 0 <==> '*' !in g)
    ensures Escapes(g) == 0 <==> forall c | c in g :: c !in ESCAPED
  {
    hide ESCAPED;
    if g != "" {
      Lengths(g[1..]);
      assert g == [g[0]] + g[1..];
      UnitLength(g[0]);
    }
  }

  lemma UnitLength(c: char)
    ensures |Unit(c)| == 1 + (if c == '*' then 1 else 0) + (if c in ESCAPED then 1 else 0)
  {
  }

  lemma {:induction false} CollapsedMatches(g: string)
    ensures GlobPrefix(g, Collapsed(g))
    decreases |g|
  {
    if g != "" {
      var t, rest := Collapsed(g), Collapsed(g[1..]);
      CollapsedMatches(g[1..]);
      if g[0] == '*' {
        assert t == rest && t[0..] == t;
      } else {
        assert t[1..] == rest;
      }
    }
  }

  lemma {:induction false} CollapsedFacts(g: string)
    ensures forall c | c in Collapsed(g) :: c == 'x' || (c in g && c != '*' && c != '?')
    decreases |g|
  {
    if g != "" {
      CollapsedFacts(g[1..]);
      assert g == [g[0]] + g[1..];
    }
  }

  /** Every part needs its own room in the text, and its own characters. */
  lemma {:induction false} GreedyNeeds(parts: seq<string>, text: string, pos: nat)
    requires pos <= |text| && Greedy(parts, text, pos, false).Some?
    ensures TotalLength(parts) <= |text| - pos
    ensures forall p, c | p in parts && c in p :: c in text
    decreases |parts|
  {
    hide Greedy, Find;
    if parts != [] {
      assert parts == [parts[0]] + parts[1..];
      GreedyFront(parts[0], parts[1..], text, pos);
      var o := FirstOccurrence(parts[0], text, pos);
      GreedyNeeds(parts[1..], text, o + |parts[0]|);
      forall c | c in parts[0]
        ensures c in text
      {
        assert text[o..o + |parts[0]|] == parts[0];
      }
    }
  }

  lemma {:induction false} PiecesLength(g: string, tail: string)
    ensures TotalLength(PatternPieces(StarPieces(g), tail)) + 2 * Stars(g) == |Translated(g)| + |tail|
    decreases |g|
  {
    hide StarPieces, Translated;
    var a, rest := StarPiecesStep(g);
    Lengths(a);
    if '*' in g {
      PiecesLength(rest, tail);
      TranslatedAtStar(a, rest, "");
      assert Translated(g) + "" == Translated(g) && Translated(rest) + "" == Translated(rest);
      assert ([a] + StarPieces(rest))[1..] == StarPieces(rest);
      var pieces := PatternPieces(StarPieces(rest), tail);
      assert ([Translated(a)] + pieces)[1..] == pieces;
      StarsConcat(a, rest);
    } else {
      Lengths(g);
      assert [Translated(a) + tail][1..] == [];
    }
  }

  lemma {:induction false} StarsConcat(a: string, rest: string)
    ensures Stars(a + ("*" + rest)) == Stars(a) + 1 + Stars(rest)
  {
    if a == "" {
      assert a + ("*" + rest) == "*" + rest && ("*" + rest)[1..] == rest;
    } else {
      StarsConcat(a[1..], rest);
      assert (a + ("*" + rest))[1..] == a[1..] + ("*" + rest);
    }
  }

  /** The tail shows up in the last piece of the pattern. */
  lemma {:induction false} TailShows(g: string, tail: string) returns (p: string)
    ensures p in PatternPieces(StarPieces(g), tail) && forall c | c in tail :: c in p
    decreases |g|
  {
    hide StarPieces, Translated;
    var a, rest := StarPiecesStep(g);
    if '*' in g {
      p := TailShows(rest, tail);
      assert ([a] + StarPieces(rest))[1..] == StarPieces(rest);
    } else {
      p := Translated(a) + tail;
    }
  }

  lemma {:induction false} QuestionTranslated(a: string)
    requires '?' in a
    ensures '.' in Translated(a)
  {
    if a[0] == '?' {
      assert Translated(a)[0] == '.';
    } else {
      QuestionTranslated(a[1..]);
    }
  }

  /** A question mark leaves a dot in some piece of the pattern. */
  lemma {:induction false} QuestionShows(g: string) returns (p: string)
    requires '?' in g
    ensures p in PatternPieces(StarPieces(g), "") && '.' in p
    decreases |g|
  {
    hide StarPieces, Translated;
    var a, rest := StarPiecesStep(g);
    if '?' in a {
      QuestionTranslated(a);
      assert Translated(a) + "" == Translated(a);
      p := Translated(a);
    } else {
      assert '*' in g && '?' in rest;
      p := QuestionShows(rest);
    }
    if '*' in g {
      assert ([a] + StarPieces(rest))[1..] == StarPieces(rest);
    }
  }

  lemma GreedyFails(parts: seq<string>, text: string, p: string, c: char)
    requires TotalLength(parts) > |text| || (p in parts && c in p && c !in text)
    ensures Greedy(parts, text, 0, false).None?
  {
    if Greedy(parts, text, 0, false).Some? {
      GreedyNeeds(parts, text, 0);
    }
  }

  /** Without the escaped characters of `g`, its shortest match has no backslash and no dot. */
  lemma CollapsedLacks(g: string)
    requires Escapes(g) == 0
    ensures '\\' !in Collapsed(g) && '.' !in Collapsed(g)
  {
    CollapsedFacts(g);
    Lengths(g);
    DollarEscaped();
  }

  lemma {:induction false} CollapsedConcat(h: string, c: char)
    requires c != '*' && c != '?'
    ensures Collapsed(h + [c]) == Collapsed(h) + [c]
  {
    if h == "" {
      assert h + [c] == [c] && [c][1..] == "";
    } else {
      CollapsedConcat(h[1..], c);
      hide CollapsedOne;
      assert (h + [c])[1..] == h[1..] + [c];
      assert CollapsedOne(h[0]) + (Collapsed(h[1..]) + [c]) == (CollapsedOne(h[0]) + Collapsed(h[1..])) + [c];
    }
  }

  lemma DollarRuleMisses(h: string)
    ensures Greedy(PatternPieces(StarPieces(h), "\\"), Collapsed(h + ['$']), 0, false).None?
  {
    hide Greedy, PatternPieces, StarPieces, TotalLength;
    CollapsedConcat(h, '$');
    PiecesLength(h, "\\");
    Lengths(h);
    var p := TailShows(h, "\\");
    if Escapes(h) == 0 {
      CollapsedLacks(h);
      assert "\\"[0] in p;
    }
    GreedyFails(PatternPieces(StarPieces(h), "\\"), Collapsed(h + ['$']), p, '\\');
  }

  lemma OtherRuleMisses(g: string)
    requires Escapes(g) > 0 || '?' in g
    ensures Greedy(PatternPieces(StarPieces(g), ""), Collapsed(g), 0, false).None?
  {
    hide Greedy, PatternPieces, StarPieces, TotalLength;
    PiecesLength(g, "");
    Lengths(g);
    var p := "";
    if Escapes(g) == 0 {
      p := QuestionShows(g);
      CollapsedLacks(g);
    }
    GreedyFails(PatternPieces(StarPieces(g), ""), Collapsed(g), p, '.');
  }

  /** The pattern of a rule that is not plain does not match the shortest text the rule should match. */
  lemma NonPlainPatternMisses(g: string)
    requires !PlainRule(g)
    ensures !RegexLite(Translated(g), Collapsed(g))
  {
    hide RegexLite, Translated, PatternPieces, StarPieces, Greedy, Collapsed;
    NotPlain(g);
    if EndsWithDollar(g) {
      var h := g[..|g| - 1];
      assert g == h + ['$'];
      DollarRuleMisses(h);
      if RegexLite(Translated(g), Collapsed(g)) {
        DollarPatternSearch(h, Collapsed(g));
      }
    } else {
      OtherRuleMisses(g);
      PatternSearch(g, Collapsed(g));
    }
  }

  lemma NotPlain(g: string)
    requires !PlainRule(g)
    ensures Escapes(g) > 0 || '?' in g
  {
    Lengths(g);
    var i :| 0 <= i < |g| && (g[i] == '?' || g[i] in ESCAPED);
    assert g[i] in g;
  }

  lemma DollarEscaped()
    ensures '$' in ESCAPED && '\\' in ESCAPED && '.' in ESCAPED && 'x' !in ESCAPED
  {
  }

  lemma CollapsedIsNoCopy(g: string)
    requires '*' in g || '?' in g
    ensures !Contains(Collapsed(g), g)
  {
    CollapsedFacts(g);
    Lengths(g);
    var t := Collapsed(g);
    forall i
      ensures !OccursAt(t, g, i)
    {
      if '?' in g && 0 <= i <= |t| - |g| {
        var k :| 0 <= k < |g| && g[k] == '?';
        assert t[i..i + |g|][k] == t[i + k] && t[i + k] in t;
      }
    }
  }

  lemma {:induction false} LowerCollapsed(lower: Lowering, rule: string)
    requires GoodLowering(lower) && lower('x') == 'x'
    ensures LowerAll(lower, Collapsed(LowerAll(lower, rule))) == Collapsed(LowerAll(lower, rule))
  {
    if rule != "" {
      LowerCollapsed(lower, rule[1..]);
      assert LowerAll(lower, rule)[1..] == LowerAll(lower, rule[1..]);
    }
  }

  /** The code agrees with the glob reading of a rule on every response. */
  ghost predicate Agrees(lower: Lowering, rule: string)
  {
    forall response ::
      Violates(lower, rule, response) <==> GlobFound(LowerAll(lower, rule), LowerAll(lower, response))
  }

  /**
   A rule with a wildcard is matched as the glob it is written as exactly when it is plain: an escaped character or a
   question mark in it makes the code let pass a response that it should catch.
   */
  lemma WildcardRulesAgreeWhenPlain(lower: Lowering, rule: string)
    requires GoodLowering(lower) && lower('x') == 'x' && ('*' in rule || '?' in rule)
    ensures Agrees(lower, rule) <==> PlainRule(rule)
  {
    if PlainRule(rule) {
      forall response {
        PlainRuleMeaning(lower, rule, response);
      }
    } else {
      var g := LowerAll(lower, rule);
      var response := Collapsed(g);
      LowerPlain(lower, rule);
      LowerPattern(lower, rule);
      LowerCollapsed(lower, rule);
      NonPlainPatternMisses(g);
      CollapsedIsNoCopy(g);
      CollapsedMatches(g);
      assert GlobPrefix(g, response[0..]) by { assert response[0..] == response; }
      assert GlobFound(g, response);
      assert !Violates(lower, rule, response);
    }
  }

  /** A rule that is never tried as a pattern is matched as what it says, escaped characters included. */
  lemma OtherRulesAgree(lower: Lowering, rule: string)
    requires GoodLowering(lower) && !LooksLikeGlob(rule)
    ensures Agrees(lower, rule)
  {
    LowerPlain(lower, rule);
    var g := LowerAll(lower, rule);
    forall response
      ensures Violates(lower, rule, response) <==> GlobFound(g, LowerAll(lower, response))
    {
      var t := LowerAll(lower, response);
      if Contains(t, g) {
        ContainedIsFound(g, t);
      }
      if GlobFound(g, t) {
        LoneRule(g, t);
      }
    }
  }

  // ---------- the characters and anchors of patterns ----------

  /** Full stop, plus, parentheses, braces, brackets, bar, caret, dollar sign and backslash. */
  lemma EscapedMeaning(c: char)
    ensures c in ESCAPED <==> c as int in {0x2E, 0x2B, 0x28, 0x29, 0x7B, 0x7D, 0x5B, 0x5D, 0x7C, 0x5E, 0x24, 0x5C}
  {
  }

  /** A character for the rule is plain exactly when it is none of these and no question mark. */
  lemma PlainMeaning(rule: string)
    ensures PlainRule(rule) <==>
      forall c | c in rule ::
        c != '?' && c as int !in {0x2E, 0x2B, 0x28, 0x29, 0x7B, 0x7D, 0x5B, 0x5D, 0x7C, 0x5E, 0x24, 0x5C}
  {
    hide PlainRule;
    forall c
      ensures c in ESCAPED <==> c as int in {0x2E, 0x2B, 0x28, 0x29, 0x7B, 0x7D, 0x5B, 0x5D, 0x7C, 0x5E, 0x24, 0x5C}
    {
      EscapedMeaning(c);
    }
    PlainByCharacters(rule);
  }

  lemma PlainByCharacters(rule: string)
    ensures PlainRule(rule) <==> forall c | c in rule :: c != '?' && c !in ESCAPED
  {
    assert PlainRule(rule) ==> forall c | c in rule :: c != '?' && c !in ESCAPED;
    if forall c | c in rule :: c != '?' && c !in ESCAPED {
      assert forall i :: 0 <= i < |rule| ==> rule[i] in rule;
    }
  }

  /** A literal pattern: no star, and no anchor at either end. */
  predicate Literal(p: string)
  {
    p != "" && '*' !in p && p[0] != '^' && p[|p| - 1] != '$'
  }

  /** With a caret in front, a literal pattern matches exactly the texts that begin with it. */
  lemma StartAnchorMeaning(p: string, text: string)
    requires Literal(p)
    ensures RegexLite("^" + p, text) <==> p <= text
  {
    StartTrims(p);
    Unseparated(p);
    FirstAt(p, text, 0);
    hide SplitOn, TrimStart, TrimEnd, Find, OccursAt;
    assert Greedy([p], text, 0, true).Some? <==> Find(text, p, 0) == 0;
  }

  lemma StartTrims(p: string)
    requires Literal(p)
    ensures TrimEnd(TrimStart("^" + p, '^'), '$') == p
    ensures ("^" + p)[0] == '^' && ("^" + p)[|"^" + p| - 1] == p[|p| - 1]
  {
    var s := "^" + p;
    assert s[1..] == p;
    CaretFree(p);
    assert TrimStart(s, '^') == p;
    hide TrimStart;
    TrimsNothing(p);
  }

  /**
   With a dollar sign behind it, a literal pattern matches exactly the texts that end with it and hold it nowhere
   before: an earlier occurrence makes the search miss the one at the end.
   */
  lemma EndAnchorMeaning(p: string, text: string)
    requires Literal(p)
    ensures RegexLite(p + "$", text) <==>
      OccursAt(text, p, |text| - |p|) && forall i :: 0 <= i < |text| - |p| ==> !OccursAt(text, p, i)
  {
    EndTrims(p);
    Unseparated(p);
    FirstAt(p, text, |text| - |p|);
    hide SplitOn, TrimStart, TrimEnd, Find, OccursAt;
    var o := Find(text, p, 0);
    assert Greedy([p], text, 0, false) == if o == -1 then None else Some(o + |p|);
  }

  lemma EndTrims(p: string)
    requires Literal(p)
    ensures TrimEnd(TrimStart(p + "$", '^'), '$') == p
    ensures (p + "$")[0] == p[0] && (p + "$")[|p|] == '$'
  {
    var s := p + "$";
    assert s[..|s| - 1] == p;
    CaretFree(s);
    TrimsNothing(p);
    hide TrimStart;
  }

  lemma CaretFree(s: string)
    requires s != "" && s[0] != '^'
    ensures TrimStart(s, '^') == s
  {
  }

  lemma FirstAt(p: string, text: string, at: int)
    ensures Find(text, p, 0) == at && at >= 0 <==>
      OccursAt(text, p, at) && forall i :: 0 <= i < at ==> !OccursAt(text, p, i)
    ensures OccursAt(text, p, 0) <==> p <= text
    ensures Find(text, p, 0) != -1 ==> 0 <= Find(text, p, 0) <= |text| - |p|
  {
  }
}
