/**
 JSON texts (RFC 8259, sections 2 to 7) as syntax trees that keep every byte, and a parser that rebuilds the tree.
 Form feed counts as whitespace, because the recogniser's `is_ascii_whitespace` admits it. A byte is modelled as the
 character with its code.
 */
module JsonGrammar {
  import opened Wrappers
  import opened Sequences

  // ---------- trees ----------

  datatype Value =
    | Str(raw: string)
    | Num(number: Number)
    | Word(word: string)
    | EmptyObj(gap: string)
    | Obj(members: Members)
    | EmptyArr(gap: string)
    | Arr(elements: Elements)

  datatype Number = Number(sign: string, whole: string, frac: string, exp: string)

  datatype Member = Member(w0: string, key: string, w1: string, w2: string, value: Value, w3: string)

  datatype Members = One(member: Member) | More(member: Member, rest: Members)

  datatype Element = Element(w0: string, value: Value, w1: string)

  datatype Elements = Last(element: Element) | Then(element: Element, rest: Elements)

  // ---------- well-formedness ----------

  const MAX_LEVEL := 64

  predicate BlankChar(c: char)
  {
    c == ' ' || c == '\t' || c == '\n' || c == '\r' || c as int == 0x0C
  }

  predicate Blank(w: string)
  {
    forall i :: 0 <= i < |w| ==> BlankChar(w[i])
  }

  predicate Digit(c: char) { '0' <= c <= '9' }

  predicate HexDigit(c: char) { Digit(c) || 'a' <= c <= 'f' || 'A' <= c <= 'F' }

  predicate SimpleEscape(c: char) { c in "\"\\/bfnrt" }

  predicate Digits(s: string)
  {
    forall i :: 0 <= i < |s| ==> Digit(s[i])
  }

  /** The length of the string character or escape that starts `s`; 0 when there is none. */
  function UnitLength(s: string): (n: nat)
    ensures n <= |s|
  {
    if s == "" || s[0] == '"' || s[0] < ' ' then 0
    else if s[0] != '\\' then 1
    else if |s| >= 2 && SimpleEscape(s[1]) then 2
    else if |s| >= 6 && s[1] == 'u' && HexDigit(s[2]) && HexDigit(s[3]) && HexDigit(s[4]) && HexDigit(s[5]) then 6
    else 0
  }

  /** Characters of a string between its quotes: no bare quote, no control character, only the RFC's escapes. */
  predicate StringBody(raw: string)
  {
    raw == "" || (UnitLength(raw) > 0 && StringBody(raw[UnitLength(raw)..]))
  }

  predicate ValidNumber(n: Number)
  {
    && n.sign in {"", "-"}
    && n.whole != "" && Digits(n.whole) && (n.whole[0] == '0' ==> n.whole == "0")
    && (n.frac == "" || (|n.frac| > 1 && n.frac[0] == '.' && Digits(n.frac[1..])))
    && (n.exp == "" || (|n.exp| > 1 && n.exp[0] in "eE" && ExpDigits(n.exp[1..])))
  }

  /** An optional sign and at least one digit. */
  predicate ExpDigits(s: string)
    requires s != ""
  {
    if s[0] in "+-" then |s| > 1 && Digits(s[1..]) else Digits(s)
  }

  predicate WellFormed(v: Value, level: nat)
  {
    level <= MAX_LEVEL &&
    match v
    case Str(raw) => StringBody(raw)
    case Num(n) => ValidNumber(n)
    case Word(w) => w in {"true", "false", "null"}
    case EmptyObj(gap) => Blank(gap)
    case Obj(ms) => WellFormedMembers(ms, level + 1)
    case EmptyArr(gap) => Blank(gap)
    case Arr(es) => WellFormedElements(es, level + 1)
  }

  predicate WellFormedMember(m: Member, level: nat)
  {
    Blank(m.w0) && StringBody(m.key) && Blank(m.w1) && Blank(m.w2) && WellFormed(m.value, level) && Blank(m.w3)
  }

  predicate WellFormedMembers(ms: Members, level: nat)
  {
    WellFormedMember(ms.member, level) && (ms.More? ==> WellFormedMembers(ms.rest, level))
  }

  predicate WellFormedElement(e: Element, level: nat)
  {
    Blank(e.w0) && WellFormed(e.value, level) && Blank(e.w1)
  }

  predicate WellFormedElements(es: Elements, level: nat)
  {
    WellFormedElement(es.element, level) && (es.Then? ==> WellFormedElements(es.rest, level))
  }

  // ---------- printing: the text of a tree, followed by `tail` ----------

  function PrintStr(raw: string, tail: string): string
  {
    "\"" + (raw + ("\"" + tail))
  }

  function PrintNumber(n: Number, tail: string): string
  {
    n.sign + (n.whole + (n.frac + (n.exp + tail)))
  }

  function PrintValue(v: Value, tail: string): string
  {
    match v
    case Str(raw) => PrintStr(raw, tail)
    case Num(n) => PrintNumber(n, tail)
    case Word(w) => w + tail
    case EmptyObj(gap) => "{" + (gap + ("}" + tail))
    case Obj(ms) => "{" + PrintMembers(ms, tail)
    case EmptyArr(gap) => "[" + (gap + ("]" + tail))
    case Arr(es) => "[" + PrintElements(es, tail)
  }

  function PrintMember(m: Member, tail: string): string
  {
    m.w0 + PrintStr(m.key, m.w1 + (":" + (m.w2 + PrintValue(m.value, m.w3 + tail))))
  }

  function PrintMembers(ms: Members, tail: string): string
  {
    match ms
    case One(m) => PrintMember(m, "}" + tail)
    case More(m, rest) => PrintMember(m, "," + PrintMembers(rest, tail))
  }

  function PrintElement(e: Element, tail: string): string
  {
    e.w0 + PrintValue(e.value, e.w1 + tail)
  }

  function PrintElements(es: Elements, tail: string): string
  {
    match es
    case Last(e) => PrintElement(e, "]" + tail)
    case Then(e, rest) => PrintElement(e, "," + PrintElements(rest, tail))
  }

  // ---------- parsing: a tree for a prefix of `s`, and the rest ----------

  function SkipWs(s: string): (t: string)
    ensures |t| <= |s|
    ensures t == "" || !BlankChar(t[0])
  {
    if s != "" && BlankChar(s[0]) then SkipWs(s[1..]) else s
  }

  function TakeWs(s: string): string
  {
    s[..|s| - |SkipWs(s)|]
  }

  function SkipDigits(s: string): (t: string)
    ensures |t| <= |s|
    ensures t == "" || !Digit(t[0])
  {
    if s != "" && Digit(s[0]) then SkipDigits(s[1..]) else s
  }

  function TakeDigits(s: string): string
  {
    s[..|s| - |SkipDigits(s)|]
  }

  /** The characters up to the closing quote, and what follows it. */
  function ParseBody(s: string): (r: Option<(string, string)>)
    ensures r.Some? ==> |r.value.1| < |s|
  {
    if s != "" && s[0] == '"' then Some(("", s[1..]))
    else
      var n := UnitLength(s);
      if n == 0 then None else Prepend(s[..n], ParseBody(s[n..]))
  }

  function Prepend(p: string, r: Option<(string, string)>): Option<(string, string)>
  {
    if r.None? then None else Some((p + r.value.0, r.value.1))
  }

  function ParseStr(s: string): (r: Option<(string, string)>)
    ensures r.Some? ==> |r.value.1| < |s|
  {
    if s != "" && s[0] == '"' then ParseBody(s[1..]) else None
  }

  /** The fraction that starts `s`, if any; None when a point has no digit after it. */
  function ParseFrac(s: string): (r: Option<(string, string)>)
    ensures r.Some? ==> |r.value.1| <= |s|
  {
    if s == "" || s[0] != '.' then Some(("", s))
    else
      var ds := TakeDigits(s[1..]);
      if ds == "" then None else Some(("." + ds, SkipDigits(s[1..])))
  }

  function ParseExp(s: string): (r: Option<(string, string)>)
    ensures r.Some? ==> |r.value.1| <= |s|
  {
    if s == "" || s[0] !in "eE" then Some(("", s))
    else
      var k := if |s| > 1 && s[1] in "+-" then 2 else 1;
      var ds := TakeDigits(s[k..]);
      if ds == "" then None else Some((s[..k] + ds, SkipDigits(s[k..])))
  }

  /** `0`, or digits that do not start with zero. */
  function ParseWhole(s: string): (r: Option<(string, string)>)
    ensures r.Some? ==> |r.value.1| < |s|
  {
    if s == "" || !Digit(s[0]) then None
    else if s[0] == '0' then Some(("0", s[1..]))
    else Some((TakeDigits(s), SkipDigits(s)))
  }

  function ParseNumber(s: string): (r: Option<(Number, string)>)
    ensures r.Some? ==> |r.value.1| < |s|
  {
    var sign := if s != "" && s[0] == '-' then "-" else "";
    var whole := ParseWhole(s[|sign|..]);
    if whole.None? then None
    else
      var frac := ParseFrac(whole.value.1);
      if frac.None? then None
      else
        var exp := ParseExp(frac.value.1);
        if exp.None? then None
        else Some((Number(sign, whole.value.0, frac.value.0, exp.value.0), exp.value.1))
  }

  function ParseWord(s: string, w: string): (r: Option<(Value, string)>)
  {
    if w <= s then Some((Word(w), s[|w|..])) else None
  }

  /** A value that starts `s`, at nesting level `level`. */
  ghost function ParseValue(s: string, level: nat): (r: Option<(Value, string)>)
    ensures r.Some? ==> |r.value.1| < |s|
    decreases |s|, 1
  {
    if level > MAX_LEVEL || s == "" then None
    else if s[0] == '"' then
      var r := ParseStr(s);
      if r.None? then None else Some((Str(r.value.0), r.value.1))
    else if s[0] == '{' then ParseObject(s[1..], level + 1)
    else if s[0] == '[' then ParseArray(s[1..], level + 1)
    else if s[0] == 't' then ParseWord(s, "true")
    else if s[0] == 'f' then ParseWord(s, "false")
    else if s[0] == 'n' then ParseWord(s, "null")
    else if s[0] == '-' || Digit(s[0]) then
      var r := ParseNumber(s);
      if r.None? then None else Some((Num(r.value.0), r.value.1))
    else None
  }

  /** What follows the opening brace of an object whose members are at `level`. */
  ghost function ParseObject(s: string, level: nat): (r: Option<(Value, string)>)
    ensures r.Some? ==> |r.value.1| < |s|
    decreases |s|, 3
  {
    var t := SkipWs(s);
    if t != "" && t[0] == '}' then Some((EmptyObj(TakeWs(s)), t[1..]))
    else
      var r := ParseMembers(s, level);
      if r.None? then None else Some((Obj(r.value.0), r.value.1))
  }

  ghost function ParseArray(s: string, level: nat): (r: Option<(Value, string)>)
    ensures r.Some? ==> |r.value.1| < |s|
    decreases |s|, 4
  {
    var t := SkipWs(s);
    if t != "" && t[0] == ']' then Some((EmptyArr(TakeWs(s)), t[1..]))
    else
      var r := ParseElements(s, level);
      if r.None? then None else Some((Arr(r.value.0), r.value.1))
  }

  /** The key of a member and its colon: the three pieces before the value, and what follows. */
  function ParseKey(s: string): (r: Option<(string, string, string, string)>)
    ensures r.Some? ==> |r.value.3| < |s|
  {
    var k := ParseStr(SkipWs(s));
    if k.None? then None
    else
      var t := SkipWs(k.value.1);
      if t == "" || t[0] != ':' then None else Some((TakeWs(s), k.value.0, TakeWs(k.value.1), t[1..]))
  }

  /** One member at `level`, whitespace included. */
  ghost function ParseMember(s: string, level: nat): (r: Option<(Member, string)>)
    ensures r.Some? ==> |r.value.1| < |s|
    decreases |s|, 0
  {
    var k := ParseKey(s);
    if k.None? then None
    else
      var v := ParseValue(SkipWs(k.value.3), level);
      if v.None? then None
      else
        var m := Member(k.value.0, k.value.1, k.value.2, TakeWs(k.value.3), v.value.0, TakeWs(v.value.1));
        Some((m, SkipWs(v.value.1)))
  }

  ghost function ParseMembers(s: string, level: nat): (r: Option<(Members, string)>)
    ensures r.Some? ==> |r.value.1| < |s|
    decreases |s|, 2
  {
    var m := ParseMember(s, level);
    if m.None? || m.value.1 == "" then None
    else if m.value.1[0] == '}' then Some((One(m.value.0), m.value.1[1..]))
    else if m.value.1[0] == ',' then
      var rest := ParseMembers(m.value.1[1..], level);
      if rest.None? then None else Some((More(m.value.0, rest.value.0), rest.value.1))
    else None
  }

  ghost function ParseElement(s: string, level: nat): (r: Option<(Element, string)>)
    ensures r.Some? ==> |r.value.1| < |s|
    decreases |s|, 2
  {
    var v := ParseValue(SkipWs(s), level);
    if v.None? then None else Some((Element(TakeWs(s), v.value.0, TakeWs(v.value.1)), SkipWs(v.value.1)))
  }

  ghost function ParseElements(s: string, level: nat): (r: Option<(Elements, string)>)
    ensures r.Some? ==> |r.value.1| < |s|
    decreases |s|, 3
  {
    var e := ParseElement(s, level);
    if e.None? || e.value.1 == "" then None
    else if e.value.1[0] == ']' then Some((Last(e.value.0), e.value.1[1..]))
    else if e.value.1[0] == ',' then
      var rest := ParseElements(e.value.1[1..], level);
      if rest.None? then None else Some((Then(e.value.0, rest.value.0), rest.value.1))
    else None
  }

  // ---------- the parser inverts the printer ----------

  lemma EmptyIsBlank()
    ensures Blank("")
  {
  }

  lemma BlankMore(c: char, w: string)
    requires BlankChar(c) && Blank(w)
    ensures Blank([c] + w)
  {
  }

  lemma {:induction false} WsSplits(s: string)
    ensures s == TakeWs(s) + SkipWs(s) && Blank(TakeWs(s))
  {
    hide BlankChar, Blank;
    if s != "" && BlankChar(s[0]) {
      var t := s[1..];
      WsSplits(t);
      FrontStep(s, |s| - |SkipWs(t)|);
      BlankMore(s[0], TakeWs(t));
      Assoc([s[0]], TakeWs(t), SkipWs(t));
    } else {
      EmptyIsBlank();
    }
  }

  lemma {:induction false} WsPrints(w: string, t: string)
    requires Blank(w) && (t != "" ==> !BlankChar(t[0]))
    ensures SkipWs(w + t) == t && TakeWs(w + t) == w
  {
    if w == "" {
      assert w + t == t;
    } else {
      WsPrints(w[1..], t);
      assert (w + t)[1..] == w[1..] + t;
    }
  }

  lemma {:induction false} DigitsSplit(s: string)
    ensures s == TakeDigits(s) + SkipDigits(s) && Digits(TakeDigits(s))
  {
    if s != "" && Digit(s[0]) {
      var t := s[1..];
      DigitsSplit(t);
      FrontStep(s, |s| - |SkipDigits(t)|);
      Assoc([s[0]], TakeDigits(t), SkipDigits(t));
    }
  }

  lemma {:induction false} DigitsPrint(ds: string, t: string)
    requires Digits(ds) && (t != "" ==> !Digit(t[0]))
    ensures SkipDigits(ds + t) == t && TakeDigits(ds + t) == ds
  {
    if ds == "" {
      assert ds + t == t;
    } else {
      DigitsPrint(ds[1..], t);
      assert (ds + t)[1..] == ds[1..] + t;
    }
  }

  /** The leading unit does not depend on what follows it. */
  lemma UnitLocal(s: string, t: string)
    requires 0 < UnitLength(s) <= |t| && s[..UnitLength(s)] <= t
    ensures UnitLength(t) == UnitLength(s)
  {
    var n := UnitLength(s);
    assert forall i :: 0 <= i < n ==> t[i] == s[..n][i] == s[i];
  }

  /** Putting a unit in front of a string body, read from either side. */
  lemma BodyStep(unit: string, raw: string, end: string)
    requires 0 < UnitLength(unit + raw) == |unit|
    ensures StringBody(unit + raw) <==> StringBody(raw)
    ensures unit + (raw + end) == (unit + raw) + end
    ensures UnitLength(unit + (raw + end)) == |unit|
    ensures (unit + (raw + end))[|unit|..] == raw + end
  {
    assert (unit + raw)[|unit|..] == raw;
    UnitLocal(unit + raw, unit + (raw + end));
  }

  lemma {:induction false} BodySound(s: string)
    requires ParseBody(s).Some?
    ensures var (raw, rest) := ParseBody(s).value; s == raw + ("\"" + rest) && StringBody(raw)
    decreases |s|
  {
    hide UnitLength, StringBody;
    if s[0] == '"' {
      EmptyBody();
      assert s == "" + ("\"" + s[1..]);
    } else {
      var n := UnitLength(s);
      BodySound(s[n..]);
      var (raw, rest) := ParseBody(s[n..]).value;
      UnitLocal(s, s[..n] + raw);
      BodyStep(s[..n], raw, "\"" + rest);
      assert s == s[..n] + s[n..];
    }
  }

  lemma EmptyBody()
    ensures StringBody("")
  {
  }

  lemma {:induction false} BodyComplete(raw: string, rest: string)
    requires StringBody(raw)
    ensures ParseBody(raw + ("\"" + rest)) == Some((raw, rest))
    decreases |raw|
  {
    var end := "\"" + rest;
    if raw == "" {
      assert raw + end == end && end[1..] == rest;
    } else {
      var n := UnitLength(raw);
      assert raw[..n] + raw[n..] == raw;
      assert raw[0] != '"';
      hide UnitLength;
      BodyComplete(raw[n..], rest);
      BodyStep(raw[..n], raw[n..], end);
      assert (raw + end)[..n] == raw[..n];
    }
  }

  lemma StrSound(s: string)
    requires ParseStr(s).Some?
    ensures var (raw, rest) := ParseStr(s).value; s == PrintStr(raw, rest) && StringBody(raw)
  {
    BodySound(s[1..]);
  }

  lemma StrComplete(raw: string, tail: string)
    requires StringBody(raw)
    ensures ParseStr(PrintStr(raw, tail)) == Some((raw, tail))
  {
    BodyComplete(raw, tail);
    assert PrintStr(raw, tail)[1..] == raw + ("\"" + tail);
  }

  /** A number may only be followed by something that cannot extend it. */
  predicate NumberStop(t: string)
  {
    t == "" || (!Digit(t[0]) && t[0] !in ".eE")
  }

  lemma FracSound(s: string)
    requires ParseFrac(s).Some?
    ensures var (f, rest) := ParseFrac(s).value;
      s == f + rest && (f == "" || (|f| > 1 && f[0] == '.' && Digits(f[1..])))
  {
    if s != "" && s[0] == '.' {
      DigitsSplit(s[1..]);
    }
  }

  lemma ExpSound(s: string)
    requires ParseExp(s).Some?
    ensures var (e, rest) := ParseExp(s).value;
      s == e + rest && (e == "" || (|e| > 1 && e[0] in "eE" && ExpDigits(e[1..])))
  {
    if s != "" && s[0] in "eE" {
      var k := if |s| > 1 && s[1] in "+-" then 2 else 1;
      DigitsSplit(s[k..]);
      var e := s[..k] + TakeDigits(s[k..]);
      assert e[k..] == TakeDigits(s[k..]);
      assert k == 2 ==> e[1..][1..] == e[2..];
    }
  }

  lemma FracComplete(f: string, t: string)
    requires f == "" || (|f| > 1 && f[0] == '.' && Digits(f[1..]))
    requires t == "" || (!Digit(t[0]) && t[0] != '.')
    ensures ParseFrac(f + t) == Some((f, t))
  {
    if f == "" {
      assert f + t == t;
    } else {
      DigitsPrint(f[1..], t);
      assert (f + t)[1..] == f[1..] + t;
      assert "." + f[1..] == f;
    }
  }

  lemma ExpComplete(e: string, t: string)
    requires e == "" || (|e| > 1 && e[0] in "eE" && ExpDigits(e[1..]))
    requires NumberStop(t)
    ensures ParseExp(e + t) == Some((e, t))
  {
    if e == "" {
      assert e + t == t;
    } else {
      var k := if e[1] in "+-" then 2 else 1;
      assert e[1..][0] == e[1];
      assert k == 2 ==> e[1..][1..] == e[2..];
      assert Digits(e[k..]) && e[k..] != "";
      DigitsPrint(e[k..], t);
      var s := e + t;
      assert s[0] == e[0] && s[1] == e[1];
      assert s[k..] == e[k..] + t;
      assert s[..k] + e[k..] == e;
    }
  }

  lemma WholeSound(s: string)
    requires ParseWhole(s).Some?
    ensures var (w, rest) := ParseWhole(s).value;
      s == w + rest && w != "" && Digits(w) && (w[0] == '0' ==> w == "0")
  {
    DigitsSplit(s);
  }

  lemma WholeComplete(w: string, t: string)
    requires w != "" && Digits(w) && (w[0] == '0' ==> w == "0")
    requires t == "" || !Digit(t[0])
    ensures ParseWhole(w + t) == Some((w, t))
  {
    DigitsPrint(w, t);
    assert (w + t)[|w|..] == t;
  }

  lemma NumberSound(s: string)
    requires ParseNumber(s).Some?
    ensures var (n, rest) := ParseNumber(s).value; s == PrintNumber(n, rest) && ValidNumber(n)
  {
    hide ParseWhole, ParseFrac, ParseExp, Digits, ExpDigits;
    var n := ParseNumber(s).value.0;
    var t := s[|n.sign|..];
    assert s == n.sign + t;
    WholeSound(t);
    FracSound(ParseWhole(t).value.1);
    ExpSound(ParseFrac(ParseWhole(t).value.1).value.1);
  }

  lemma NumberComplete(n: Number, tail: string)
    requires ValidNumber(n) && NumberStop(tail)
    ensures ParseNumber(PrintNumber(n, tail)) == Some((n, tail))
  {
    var v := n.exp + tail;
    var u := n.frac + v;
    var t := n.whole + u;
    assert PrintNumber(n, tail)[|n.sign|..] == t;
    assert n.exp == "" ==> v == tail;
    assert n.frac == "" ==> u == v;
    WholeComplete(n.whole, u);
    FracComplete(n.frac, v);
    ExpComplete(n.exp, tail);
    hide ParseWhole, ParseFrac, ParseExp, Digits, ExpDigits;
  }

  lemma KeySound(s: string)
    requires ParseKey(s).Some?
    ensures var (w0, key, w1, rest) := ParseKey(s).value;
      s == w0 + PrintStr(key, w1 + (":" + rest)) && Blank(w0) && StringBody(key) && Blank(w1)
  {
    hide ParseStr, StringBody, Blank;
    WsSplits(s);
    StrSound(SkipWs(s));
    var after := ParseStr(SkipWs(s)).value.1;
    WsSplits(after);
    assert SkipWs(after) == ":" + SkipWs(after)[1..];
  }

  lemma KeyComplete(w0: string, key: string, w1: string, rest: string)
    requires Blank(w0) && StringBody(key) && Blank(w1)
    ensures ParseKey(w0 + PrintStr(key, w1 + (":" + rest))) == Some((w0, key, w1, rest))
  {
    var after := w1 + (":" + rest);
    StrComplete(key, after);
    WsPrints(w0, PrintStr(key, after));
    WsPrints(w1, ":" + rest);
    hide ParseStr, StringBody, Blank;
    assert (":" + rest)[1..] == rest;
  }

  /** Whatever the parser accepts is the text of the tree it returns, well-formed at the level it was given. */
  lemma {:induction false} ValueSound(s: string, level: nat)
    requires ParseValue(s, level).Some?
    ensures var (v, rest) := ParseValue(s, level).value; s == PrintValue(v, rest) && WellFormed(v, level)
    decreases |s|, 1
  {
    hide ParseStr, ParseNumber, ParseObject, ParseArray, StringBody, ValidNumber;
    if s[0] == '"' {
      StrSound(s);
    } else if s[0] == '{' {
      ObjectSound(s[1..], level + 1);
      assert s == "{" + s[1..];
    } else if s[0] == '[' {
      ArraySound(s[1..], level + 1);
      assert s == "[" + s[1..];
    } else if s[0] == '-' || Digit(s[0]) {
      NumberSound(s);
    } else {
      var w := ParseValue(s, level).value.0.word;
      assert s == w + s[|w|..];
    }
  }

  lemma {:induction false} ObjectSound(s: string, level: nat)
    requires ParseObject(s, level).Some?
    ensures var (v, rest) := ParseObject(s, level).value;
      "{" + s == PrintValue(v, rest) && (level > 0 && level - 1 <= MAX_LEVEL ==> WellFormed(v, level - 1))
    decreases |s|, 3
  {
    hide ParseMembers, PrintMembers, WellFormedMembers, Blank, SkipWs, TakeWs;
    WsSplits(s);
    var t := SkipWs(s);
    if t != "" && t[0] == '}' {
      assert t == "}" + t[1..];
    } else {
      MembersSound(s, level);
    }
  }

  lemma {:induction false} ArraySound(s: string, level: nat)
    requires ParseArray(s, level).Some?
    ensures var (v, rest) := ParseArray(s, level).value;
      "[" + s == PrintValue(v, rest) && (level > 0 && level - 1 <= MAX_LEVEL ==> WellFormed(v, level - 1))
    decreases |s|, 4
  {
    hide ParseElements, PrintElements, WellFormedElements, Blank, SkipWs, TakeWs;
    WsSplits(s);
    var t := SkipWs(s);
    if t != "" && t[0] == ']' {
      assert t == "]" + t[1..];
    } else {
      ElementsSound(s, level);
    }
  }

  lemma {:induction false} MemberSound(s: string, level: nat)
    requires ParseMember(s, level).Some?
    ensures var (m, rest) := ParseMember(s, level).value; s == PrintMember(m, rest) && WellFormedMember(m, level)
    decreases |s|, 0
  {
    hide ParseKey, ParseValue, StringBody, Blank;
    KeySound(s);
    var after := ParseKey(s).value.3;
    WsSplits(after);
    ValueSound(SkipWs(after), level);
    WsSplits(ParseValue(SkipWs(after), level).value.1);
  }

  lemma {:induction false} MembersSound(s: string, level: nat)
    requires ParseMembers(s, level).Some?
    ensures var (ms, rest) := ParseMembers(s, level).value; s == PrintMembers(ms, rest) && WellFormedMembers(ms, level)
    decreases |s|, 2
  {
    hide ParseMember, WellFormedMember;
    MemberSound(s, level);
    var t := ParseMember(s, level).value.1;
    assert t == [t[0]] + t[1..];
    if t[0] == ',' {
      MembersSound(t[1..], level);
    }
  }

  lemma {:induction false} ElementsSound(s: string, level: nat)
    requires ParseElements(s, level).Some?
    ensures var (es, rest) := ParseElements(s, level).value;
      s == PrintElements(es, rest) && WellFormedElements(es, level)
    decreases |s|, 3
  {
    hide ParseValue, Blank;
    WsSplits(s);
    ValueSound(SkipWs(s), level);
    WsSplits(ParseValue(SkipWs(s), level).value.1);
    var t := ParseElement(s, level).value.1;
    assert t == [t[0]] + t[1..];
    if t[0] == ',' {
      ElementsSound(t[1..], level);
    }
  }

  /** What the text of a well-formed value starts with. */
  lemma FirstChar(v: Value, level: nat, tail: string)
    requires WellFormed(v, level)
    ensures var s := PrintValue(v, tail); s != "" && !BlankChar(s[0]) && s[0] !in "]},:"
  {
    match v
    case Num(n) =>
      assert n.sign == "" ==> PrintValue(v, tail)[0] == n.whole[0];
    case _ =>
  }

  lemma WordComplete(w: string, tail: string, level: nat)
    requires w in {"true", "false", "null"} && level <= MAX_LEVEL
    ensures ParseValue(w + tail, level) == Some((Word(w), tail))
  {
    assert (w + tail)[..|w|] == w && (w + tail)[|w|..] == tail;
  }

  lemma EmptyComplete(gap: string, tail: string, level: nat)
    requires Blank(gap)
    ensures ParseObject(gap + ("}" + tail), level) == Some((EmptyObj(gap), tail))
    ensures ParseArray(gap + ("]" + tail), level) == Some((EmptyArr(gap), tail))
  {
    hide ParseMembers, ParseElements;
    WsPrints(gap, "}" + tail);
    WsPrints(gap, "]" + tail);
    assert ("}" + tail)[1..] == tail && ("]" + tail)[1..] == tail;
  }

  /** Every well-formed tree is recovered from its text: the parser rejects nothing the grammar allows. */
  lemma {:induction false} ValueComplete(v: Value, level: nat, tail: string)
    requires WellFormed(v, level) && NumberStop(tail)
    ensures ParseValue(PrintValue(v, tail), level) == Some((v, tail))
    decreases v, 0
  {
    hide ParseStr, ParseNumber, ParseObject, ParseArray, StringBody, ValidNumber, PrintMembers, PrintElements;
    var s := PrintValue(v, tail);
    match v
    case Str(raw) => StrComplete(raw, tail);
    case Num(n) =>
      NumberComplete(n, tail);
      NumberStarts(n, tail);
    case Word(w) => WordComplete(w, tail, level);
    case EmptyObj(gap) =>
      EmptyComplete(gap, tail, level + 1);
      assert s[1..] == gap + ("}" + tail);
    case Obj(ms) =>
      MembersComplete(ms, level + 1, tail);
      assert s[1..] == PrintMembers(ms, tail);
    case EmptyArr(gap) =>
      EmptyComplete(gap, tail, level + 1);
      assert s[1..] == gap + ("]" + tail);
    case Arr(es) =>
      ElementsComplete(es, level + 1, tail);
      assert s[1..] == PrintElements(es, tail);
  }

  lemma NumberStarts(n: Number, tail: string)
    requires ValidNumber(n)
    ensures var s := PrintNumber(n, tail); s != "" && (s[0] == '-' || Digit(s[0]))
  {
    assert n.sign == "" ==> PrintNumber(n, tail)[0] == n.whole[0];
  }

  lemma {:induction false} MemberComplete(m: Member, level: nat, tail: string)
    requires WellFormedMember(m, level) && tail != "" && tail[0] in ",}"
    ensures ParseMember(PrintMember(m, tail), level) == Some((m, tail))
    decreases m, 1
  {
    hide ParseKey, ParseValue, PrintValue, StringBody, WellFormed;
    var after := m.w3 + tail;
    assert NumberStop(after) by {
      assert m.w3 != "" ==> after[0] == m.w3[0];
    }
    ValueComplete(m.value, level, after);
    FirstChar(m.value, level, after);
    WsPrints(m.w3, tail);
    WsPrints(m.w2, PrintValue(m.value, after));
    KeyComplete(m.w0, m.key, m.w1, m.w2 + PrintValue(m.value, after));
  }

  lemma {:induction false} MembersComplete(ms: Members, level: nat, tail: string)
    requires WellFormedMembers(ms, level)
    ensures ParseMembers(PrintMembers(ms, tail), level) == Some((ms, tail))
    ensures ParseObject(PrintMembers(ms, tail), level) == Some((Obj(ms), tail))
    decreases ms, 1
  {
    hide ParseMember, PrintMember, WellFormedMember;
    var end := if ms.One? then "}" + tail else "," + PrintMembers(ms.rest, tail);
    MemberComplete(ms.member, level, end);
    if ms.More? {
      MembersComplete(ms.rest, level, tail);
      assert end[1..] == PrintMembers(ms.rest, tail);
    } else {
      assert end[1..] == tail;
    }
    assert PrintMembers(ms, tail) == PrintMember(ms.member, end);
    MemberStarts(ms.member, level, end);
  }

  lemma MemberStarts(m: Member, level: nat, tail: string)
    requires WellFormedMember(m, level)
    ensures var t := SkipWs(PrintMember(m, tail)); t != "" && t[0] == '"'
  {
    WsPrints(m.w0, PrintStr(m.key, m.w1 + (":" + (m.w2 + PrintValue(m.value, m.w3 + tail)))));
  }

  lemma {:induction false} ElementsComplete(es: Elements, level: nat, tail: string)
    requires WellFormedElements(es, level)
    ensures ParseElements(PrintElements(es, tail), level) == Some((es, tail))
    ensures ParseArray(PrintElements(es, tail), level) == Some((Arr(es), tail))
    decreases es, 1
  {
    var end := if es.Last? then "]" + tail else "," + PrintElements(es.rest, tail);
    ElementComplete(es.element, level, end);
    if es.Then? {
      ElementsComplete(es.rest, level, tail);
      assert end[1..] == PrintElements(es.rest, tail);
    } else {
      assert end[1..] == tail;
    }
    hide ParseElement, PrintElement, WellFormedElement;
    assert PrintElements(es, tail) == PrintElement(es.element, end);
  }

  lemma {:induction false} ElementComplete(e: Element, level: nat, tail: string)
    requires WellFormedElement(e, level) && tail != "" && tail[0] in ",]"
    ensures ParseElement(PrintElement(e, tail), level) == Some((e, tail))
    ensures var t := SkipWs(PrintElement(e, tail)); t != "" && t[0] != ']'
    decreases e, 1
  {
    hide ParseValue, PrintValue, StringBody, WellFormed;
    var after := e.w1 + tail;
    assert NumberStop(after) by {
      assert e.w1 != "" ==> after[0] == e.w1[0];
    }
    ValueComplete(e.value, level, after);
    FirstChar(e.value, level, after);
    WsPrints(e.w1, tail);
    WsPrints(e.w0, PrintValue(e.value, after));
  }
}
