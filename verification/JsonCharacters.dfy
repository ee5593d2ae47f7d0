/**
 The characters of JSON texts by their code points, as RFC 8259 lists them, and string bodies as concatenations of units
 written out; and a writer of JSON objects, whose texts are read back.
 */
module JsonCharacters {
  import opened Wrappers
  import opened Sequences
  import opened JsonGrammar
  import opened ServiceDocument

  // ---------- the characters (sections 2, 6 and 7, and form feed) ----------

  predicate HexCode(c: char)
  {
    0x30 <= c as int <= 0x39 || 0x41 <= c as int <= 0x46 || 0x61 <= c as int <= 0x66
  }

  /** What may follow a backslash: quote, backslash, slash, b, f, n, r and t. */
  predicate EscapeCode(c: char)
  {
    c as int in {0x22, 0x5C, 0x2F, 0x62, 0x66, 0x6E, 0x72, 0x74}
  }

  lemma CharactersMeaning(c: char)
    ensures BlankChar(c) <==> c as int in {0x20, 0x09, 0x0A, 0x0C, 0x0D}
    ensures Digit(c) <==> 0x30 <= c as int <= 0x39
    ensures HexDigit(c) <==> HexCode(c)
    ensures SimpleEscape(c) <==> EscapeCode(c)
  {
  }

  // ---------- string bodies ----------

  /** A character for itself, a backslash with one character, or `\u` with four hexadecimal digits. */
  datatype Unit = Plain(c: char) | Short(c: char) | Code(a: char, b: char, c: char, d: char)

  function UnitText(u: Unit): string
  {
    match u
    case Plain(c) => [c]
    case Short(c) => ['\\', c]
    case Code(a, b, c, d) => ['\\', 'u', a, b, c, d]
  }

  predicate ValidUnit(u: Unit)
  {
    match u
    case Plain(c) => c as int >= 0x20 && c as int != 0x22 && c as int != 0x5C
    case Short(c) => EscapeCode(c)
    case Code(a, b, c, d) => HexCode(a) && HexCode(b) && HexCode(c) && HexCode(d)
  }

  function Spelled(units: seq<Unit>): string
  {
    if units == [] then "" else UnitText(units[0]) + Spelled(units[1..])
  }

  ghost predicate IsSpelled(raw: string, units: seq<Unit>)
  {
    raw == Spelled(units) && forall i :: 0 <= i < |units| ==> ValidUnit(units[i])
  }

  /** The first unit of a text, if it has one. */
  function FirstUnit(s: string): Option<Unit>
  {
    var n := UnitLength(s);
    if n == 1 then Some(Plain(s[0]))
    else if n == 2 then Some(Short(s[1]))
    else if n == 6 then Some(Code(s[2], s[3], s[4], s[5]))
    else None
  }

  lemma FirstUnitMeaning(s: string)
    ensures UnitLength(s) in {0, 1, 2, 6}
    ensures UnitLength(s) > 0 ==>
      var u := FirstUnit(s).value; ValidUnit(u) && UnitText(u) == s[..UnitLength(s)]
  {
    if UnitLength(s) == 6 {
      CharactersMeaning(s[2]);
      CharactersMeaning(s[3]);
      CharactersMeaning(s[4]);
      CharactersMeaning(s[5]);
    }
    if UnitLength(s) == 2 {
      CharactersMeaning(s[1]);
    }
  }

  lemma UnitIsRead(u: Unit, rest: string)
    requires ValidUnit(u)
    ensures UnitLength(UnitText(u) + rest) == |UnitText(u)|
  {
    match u
    case Plain(c) =>
    case Short(c) => CharactersMeaning(c);
    case Code(a, b, c, d) =>
      CharactersMeaning(a);
      CharactersMeaning(b);
      CharactersMeaning(c);
      CharactersMeaning(d);
  }

  lemma {:induction false} BodyIsSpelled(raw: string) returns (units: seq<Unit>)
    requires StringBody(raw)
    ensures IsSpelled(raw, units)
  {
    hide UnitLength, ValidUnit, UnitText;
    if raw == "" {
      units := [];
    } else {
      FirstUnitMeaning(raw);
      var n, u := UnitLength(raw), FirstUnit(raw).value;
      var rest := BodyIsSpelled(raw[n..]);
      units := [u] + rest;
      assert units[1..] == rest && raw == raw[..n] + raw[n..];
    }
  }

  lemma {:induction false} SpelledIsBody(raw: string, units: seq<Unit>)
    requires IsSpelled(raw, units)
    ensures StringBody(raw)
    decreases |units|
  {
    hide UnitLength, ValidUnit, UnitText;
    if units != [] {
      var u, rest := units[0], Spelled(units[1..]);
      UnitIsRead(u, rest);
      UnitNotEmpty(u);
      SpelledIsBody(rest, units[1..]);
      assert raw[|UnitText(u)|..] == rest;
    }
  }

  lemma UnitNotEmpty(u: Unit)
    ensures UnitText(u) != ""
  {
  }

  /** The bodies of strings are exactly the concatenations of units. */
  lemma StringBodyMeaning(raw: string)
    ensures StringBody(raw) <==> exists units :: IsSpelled(raw, units)
  {
    hide StringBody, IsSpelled;
    if StringBody(raw) {
      var units := BodyIsSpelled(raw);
    }
    forall units | IsSpelled(raw, units)
      ensures StringBody(raw)
    {
      SpelledIsBody(raw, units);
    }
  }

  // ---------- a writer ----------

  function HexOf(n: nat): char
    requires n < 16
  {
    (if n < 10 then 0x30 + n else 0x61 + n - 10) as char
  }

  /** One character of a text as a JSON writer puts it between quotes. */
  function Written(c: char): Unit
  {
    if c == '"' then Short('"')
    else if c == '\\' then Short('\\')
    else if c == '\n' then Short('n')
    else if c == '\r' then Short('r')
    else if c == '\t' then Short('t')
    else if c as int == 0x08 then Short('b')
    else if c as int == 0x0C then Short('f')
    else if c as int < 0x20 then Code('0', '0', HexOf(c as int / 16), HexOf(c as int % 16))
    else Plain(c)
  }

  function Escape(t: string): string
  {
    Spelled(seq(|t|, i requires 0 <= i < |t| => Written(t[i])))
  }

  lemma WrittenIsValid(c: char)
    ensures ValidUnit(Written(c))
  {
  }

  /** Every text, escaped, is the body of a string, and is read back whole. */
  lemma EscapedIsRead(t: string, rest: string)
    ensures StringBody(Escape(t)) && ParseBody(Escape(t) + ("\"" + rest)) == Some((Escape(t), rest))
  {
    hide StringBody, ParseBody, Written, ValidUnit, Spelled;
    var units := seq(|t|, i requires 0 <= i < |t| => Written(t[i]));
    forall i | 0 <= i < |units|
      ensures ValidUnit(units[i])
    {
      WrittenIsValid(t[i]);
    }
    SpelledIsBody(Escape(t), units);
    BodyComplete(Escape(t), rest);
  }

  /** A member whose key and value are strings. */
  function StringMember(key: string, value: string, tail: string): string
  {
    "\"" + (Escape(key) + ("\":\"" + (Escape(value) + ("\"" + tail))))
  }

  /** The health body of a service with these notes in front of its name, as a JSON writer prints it. */
  function HealthBody(notes: seq<(string, string)>, service: string): string
  {
    "{" + HealthMembers(notes, service)
  }

  function HealthMembers(notes: seq<(string, string)>, service: string): string
  {
    if notes == [] then StringMember("service", service, "}")
    else StringMember(notes[0].0, notes[0].1, "," + HealthMembers(notes[1..], service))
  }

  function NotesMembers(notes: seq<(string, string)>, service: string): Members
  {
    if notes == [] then One(Member("", SERVICE, "", "", Str(Escape(service)), ""))
    else
      More(Member("", Escape(notes[0].0), "", "", Str(Escape(notes[0].1)), ""), NotesMembers(notes[1..], service))
  }

  lemma EscapeStep(t: string)
    requires t != ""
    ensures Escape(t) == UnitText(Written(t[0])) + Escape(t[1..])
  {
    hide Written;
    var units := seq(|t|, i requires 0 <= i < |t| => Written(t[i]));
    assert units[1..] == seq(|t[1..]|, i requires 0 <= i < |t[1..]| => Written(t[1..][i]));
  }

  /** Only a text that needs no escape is written without one. */
  lemma {:induction false} EscapePlain(t: string)
    ensures '\\' !in Escape(t) ==> Escape(t) == t
    ensures (forall c | c in t :: c as int >= 0x20 && c != '"' && c != '\\') ==> Escape(t) == t
  {
    hide Escape, Written, UnitText;
    if t == "" {
      EscapeNothing();
    } else {
      EscapeStep(t);
      EscapePlain(t[1..]);
      WrittenPlain(t[0]);
      var u := UnitText(Written(t[0]));
      assert t == [t[0]] + t[1..] && t[0] in t && forall c | c in t[1..] :: c in t;
      assert forall c :: c in Escape(t) <==> c in u || c in Escape(t[1..]);
    }
  }

  /** A character is written without a backslash exactly when it is written as itself. */
  lemma WrittenPlain(c: char)
    ensures '\\' !in UnitText(Written(c)) ==> UnitText(Written(c)) == [c]
    ensures c as int >= 0x20 && c != '"' && c != '\\' ==> UnitText(Written(c)) == [c]
  {
    assert UnitText(Written(c))[0] in UnitText(Written(c));
  }

  lemma EscapeNothing()
    ensures Escape("") == ""
  {
  }

  /** A text is escaped to a given plain name only if it is that name. */
  lemma EscapedName(t: string, name: string)
    requires forall c | c in name :: c as int >= 0x20 && c != '"' && c != '\\'
    ensures Escape(t) == name <==> t == name
  {
    hide Escape;
    EscapePlain(t);
    EscapePlain(name);
    assert '\\' !in name;
  }

  lemma PlainService()
    ensures Escape("service") == "service" && Escape("duduclaw-gateway") == "duduclaw-gateway"
  {
    EscapePlain("service");
    EscapePlain("duduclaw-gateway");
  }

  lemma MemberText(key: string, value: string, tail: string)
    ensures PrintMember(Member("", Escape(key), "", "", Str(Escape(value)), ""), tail) == StringMember(key, value, tail)
  {
    hide Escape;
    var rest := "\"" + tail;
    assert "" + tail == tail && "" + ("\"" + (Escape(value) + rest)) == "\"" + (Escape(value) + rest);
    assert "\"" + (":" + ("\"" + (Escape(value) + rest))) == "\":\"" + (Escape(value) + rest);
    assert "" + (":" + ("" + ("\"" + (Escape(value) + rest)))) == ":" + ("\"" + (Escape(value) + rest));
  }

  lemma MemberIsWellFormed(key: string, value: string)
    ensures WellFormedMember(Member("", Escape(key), "", "", Str(Escape(value)), ""), 1)
  {
    hide Escape, StringBody;
    EscapedIsRead(key, "");
    EscapedIsRead(value, "");
  }

  lemma {:induction false} NotesAreMembers(notes: seq<(string, string)>, service: string)
    ensures PrintMembers(NotesMembers(notes, service), "") == HealthMembers(notes, service)
    ensures WellFormedMembers(NotesMembers(notes, service), 1)
  {
    hide Escape, WellFormedMember, PrintMember, StringMember;
    PlainService();
    if notes == [] {
      MemberIsWellFormed("service", service);
      MemberText("service", service, "}");
      assert "}" + "" == "}" && Escape("service") == SERVICE;
      assert NotesMembers(notes, service).member
        == Member("", Escape("service"), "", "", Str(Escape(service)), "");
    } else {
      NotesAreMembers(notes[1..], service);
      MemberIsWellFormed(notes[0].0, notes[0].1);
      MemberText(notes[0].0, notes[0].1, "," + HealthMembers(notes[1..], service));
    }
  }

  lemma {:induction false} NotesServices(notes: seq<(string, string)>, service: string)
    requires forall i :: 0 <= i < |notes| ==> notes[i].0 != "service"
    ensures Services(NotesMembers(notes, service)) == [Str(Escape(service))]
  {
    hide Escape;
    if notes != [] {
      NotesServices(notes[1..], service);
      EscapedName(notes[0].0, "service");
    }
  }

  /** Whatever texts a health body carries besides, the answer on it is whether the service is the gateway. */
  lemma HealthBodyAnswer(notes: seq<(string, string)>, service: string)
    requires forall i :: 0 <= i < |notes| ==> notes[i].0 != "service"
    ensures TopLevelService(HealthBody(notes, service)) == Some(service == "duduclaw-gateway")
  {
    hide Escape, TopLevelService, NotesMembers, WellFormedMembers;
    var d := Doc("", NotesMembers(notes, service), "");
    NotesAreMembers(notes, service);
    NotesServices(notes, service);
    EscapedName(service, "duduclaw-gateway");
    TopLevelComplete(d);
    assert PrintDocument(d) == HealthBody(notes, service);
  }

  // ---------- the nesting limit ----------

  /** `n` brackets around nothing. */
  function Nested(n: nat): Value
  {
    if n <= 1 then EmptyArr("") else Arr(Last(Element("", Nested(n - 1), "")))
  }

  /** Values may begin down to level 64, and no further. */
  lemma {:induction false} NestingLimit(n: nat, level: nat, tail: string)
    requires n >= 1
    ensures ParseValue(PrintValue(Nested(n), tail), level).Some? <==> level + n <= 65
    decreases n
  {
    if level + n <= 65 {
      NestedIsWellFormed(n, level);
      NestedIsRead(n, level, tail);
    } else if n > 1 {
      NestingLimit(n - 1, level + 1, "]" + tail);
      NestedFails(n, level, tail);
    }
  }

  lemma {:induction false} NestedIsWellFormed(n: nat, level: nat)
    requires n >= 1 && level + n <= 65
    ensures WellFormed(Nested(n), level)
  {
    if n > 1 {
      NestedIsWellFormed(n - 1, level + 1);
    }
  }

  lemma {:induction false} NestedIsRead(n: nat, level: nat, tail: string)
    requires n >= 1 && WellFormed(Nested(n), level)
    ensures ParseValue(PrintValue(Nested(n), tail), level).Some?
  {
    if n == 1 {
      assert "" + ("]" + tail) == "]" + tail;
    } else {
      ElementsComplete(Last(Element("", Nested(n - 1), "")), level + 1, tail);
    }
  }

  lemma NestedFails(n: nat, level: nat, tail: string)
    requires n > 1 && ParseValue(PrintValue(Nested(n - 1), "]" + tail), level + 1).None?
    ensures ParseValue(PrintValue(Nested(n), tail), level).None?
  {
    var inner := PrintValue(Nested(n - 1), "]" + tail);
    assert "" + ("]" + tail) == "]" + tail && "" + inner == inner;
    assert inner[0] == '[' && SkipWs(inner) == inner;
    var e := Element("", Nested(n - 1), "");
    assert PrintElement(e, "]" + tail) == inner && PrintElements(Last(e), tail) == inner;
    assert PrintValue(Nested(n), tail) == "[" + inner;
    assert ParseElement(inner, level + 1).None?;
    assert ParseElements(inner, level + 1).None?;
    assert ParseArray(inner, level + 1).None?;
  }
}
