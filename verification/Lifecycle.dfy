/** The hand-written cursor over a health response: it computes exactly the decision of `ServiceDocument`. */
module Lifecycle {
  import opened Wrappers
  import opened JsonGrammar
  import opened ServiceDocument

  /** The width of the cursor's depth counter. */
  newtype u8 = x: int | 0 <= x < 256

  /** Where a parse ends, without the tree. */
  function After<T>(r: Option<(T, string)>): Option<string>
  {
    if r.None? then None else Some(r.value.1)
  }

  ghost function ObjectEnd(s: string, level: nat): Option<string>
  {
    var t := TakeByte(s, '{');
    if t.None? then None else After(ParseObject(t.value, level))
  }

  ghost function ArrayEnd(s: string, level: nat): Option<string>
  {
    var t := TakeByte(s, '[');
    if t.None? then None else After(ParseArray(t.value, level))
  }

  /** The raw key that starts `s`, and what follows its colon. */
  function KeyEnd(s: string): Option<(string, string)>
  {
    var key := ParseStr(SkipWs(s));
    if key.None? then None
    else
      var colon := TakeByte(key.value.1, ':');
      if colon.None? then None else Some((key.value.0, colon.value))
  }

  /** Where the members from `s` on end, one member unrolled and without its tree. */
  ghost function MembersEnd(s: string, level: nat): Option<string>
  {
    var key := KeyEnd(s);
    if key.None? then None
    else
      var v := ParseValue(SkipWs(key.value.1), level);
      if v.None? then None
      else
        var close, comma := TakeByte(v.value.1, '}'), TakeByte(v.value.1, ',');
        if close.Some? then close
        else if comma.None? then None
        else After(ParseMembers(comma.value, level))
  }

  ghost function ElementsEnd(s: string, level: nat): Option<string>
  {
    var v := ParseValue(SkipWs(s), level);
    if v.None? then None
    else
      var close, comma := TakeByte(v.value.1, ']'), TakeByte(v.value.1, ',');
      if close.Some? then close
      else if comma.None? then None
      else After(ParseElements(comma.value, level))
  }

  lemma SkipWsTwice(s: string)
    ensures SkipWs(SkipWs(s)) == SkipWs(s)
  {
  }

  lemma MembersStep(s: string, level: nat)
    ensures After(ParseMembers(s, level)) == MembersEnd(s, level) == MembersEnd(SkipWs(s), level)
  {
    hide ParseStr, ParseValue;
  }

  lemma ElementsStep(s: string, level: nat)
    ensures After(ParseElements(s, level)) == ElementsEnd(s, level) == ElementsEnd(SkipWs(s), level)
  {
    hide ParseValue;
  }

  predicate Escaped(raw: string)
  {
    '\\' in raw
  }

  /** The string body from `start` on is read up to `at`, and the rest decides. */
  ghost predicate Remaining(bytes: string, start: nat, at: nat)
    requires start <= at <= |bytes|
  {
    ParseBody(bytes[start..]) == Prepend(bytes[start..at], ParseBody(bytes[at..]))
  }

  lemma BodyStart(bytes: string, start: nat)
    requires start <= |bytes|
    ensures Remaining(bytes, start, start) && !Escaped(bytes[start..start])
  {
    var r := ParseBody(bytes[start..]);
    assert bytes[start..start] == "" && (r.Some? ==> "" + r.value.0 == r.value.0);
  }

  lemma BodyCloses(bytes: string, start: nat, at: nat)
    requires start <= at < |bytes| && Remaining(bytes, start, at) && bytes[at] == '"'
    ensures ParseBody(bytes[start..]) == Some((bytes[start..at], bytes[at + 1..]))
  {
    hide UnitLength;
    assert bytes[at..][1..] == bytes[at + 1..];
    assert bytes[start..at] + "" == bytes[start..at];
  }

  lemma BodyStops(bytes: string, start: nat, at: nat)
    requires start <= at <= |bytes| && Remaining(bytes, start, at)
    requires at < |bytes| ==> bytes[at] != '"' && UnitLength(bytes[at..]) == 0
    ensures ParseBody(bytes[start..]) == None
  {
    assert at < |bytes| ==> bytes[at..][0] == bytes[at];
  }

  lemma BodyContinues(bytes: string, start: nat, at: nat, k: nat)
    requires start <= at < |bytes| && Remaining(bytes, start, at) && k == UnitLength(bytes[at..]) > 0
    ensures Remaining(bytes, start, at + k)
    ensures Escaped(bytes[start..at + k]) <==> Escaped(bytes[start..at]) || bytes[at] == '\\'
  {
    UnitStart(bytes[at..]);
    EscapeAdvance(bytes, start, at, k);
    hide ParseBody, UnitLength, Prepend;
    ParseBodyStep(bytes[at..]);
    PrependTwice(bytes, start, at, k, ParseBody(bytes[at + k..]));
  }

  lemma ParseBodyStep(s: string)
    requires s != ""
    ensures s[0] == '"' ==> ParseBody(s) == Some(("", s[1..])) && UnitLength(s) == 0
    ensures s[0] != '"' && UnitLength(s) == 0 ==> ParseBody(s) == None
    ensures UnitLength(s) > 0 ==> ParseBody(s) == Prepend(s[..UnitLength(s)], ParseBody(s[UnitLength(s)..]))
  {
  }

  lemma PrependTwice(bytes: string, start: nat, at: nat, k: nat, tail: Option<(string, string)>)
    requires start <= at && at + k <= |bytes|
    ensures bytes[at..][k..] == bytes[at + k..]
    ensures Prepend(bytes[start..at], Prepend(bytes[at..][..k], tail)) == Prepend(bytes[start..at + k], tail)
  {
    var u, v := bytes[start..at], bytes[at..][..k];
    assert bytes[start..at + k] == u + v;
    assert tail.Some? ==> u + (v + tail.value.0) == (u + v) + tail.value.0;
  }

  lemma UnitStart(s: string)
    ensures UnitLength(s) > 0 ==> s[0] != '"' && s[0] >= ' '
    ensures s != "" && s[0] >= ' ' && s[0] != '"' && s[0] != '\\' ==> UnitLength(s) == 1
    ensures s != "" && s[0] == '\\' ==> UnitLength(s) != 1
  {
  }

  lemma EscapeAdvance(bytes: string, start: nat, at: nat, k: nat)
    requires start <= at && at + k <= |bytes| && k > 0 && (k > 1 ==> bytes[at] == '\\')
    ensures Escaped(bytes[start..at + k]) <==> Escaped(bytes[start..at]) || bytes[at] == '\\'
  {
    assert bytes[start..at + k] == bytes[start..at] + ([bytes[at]] + bytes[at + 1..at + k]);
  }

  /** The verdict after the value of a top-level key, and what follows that value. */
  ghost function TopValueEnd(key: string, s: string, service: Option<bool>): Option<(Option<bool>, string)>
  {
    if key != SERVICE then
      var other := ParseValue(SkipWs(s), 1);
      if other.None? then None else Some((service, other.value.1))
    else if service.Some? then None
    else
      var name := ParseStr(SkipWs(s));
      if name.None? then None else Some((Some(name.value.0 == GATEWAY), name.value.1))
  }

  /** The decision from what follows a value on. */
  ghost function TopRest(s: string, service: Option<bool>): Option<(Option<bool>, string)>
  {
    var close, comma := TakeByte(s, '}'), TakeByte(s, ',');
    if close.Some? then Some((service, close.value))
    else if comma.None? then None
    else TopMembers(comma.value, service)
  }

  /** The decision from `s` on, one member of the outer object unrolled and without its tree. */
  ghost function TopEnd(s: string, service: Option<bool>): Option<(Option<bool>, string)>
  {
    var key := KeyEnd(s);
    if key.None? then None
    else
      var v := TopValueEnd(key.value.0, key.value.1, service);
      if v.None? then None else TopRest(v.value.1, v.value.0)
  }

  /** A top-level member, without its tree. */
  lemma TopMemberEnd(s: string, service: Option<bool>)
    ensures var key, m := KeyEnd(s), TopMember(s);
      if key.None? then m.None?
      else
        var v := TopValueEnd(key.value.0, key.value.1, service);
        if m.None? then v.None?
        else
          && m.value.0.key == key.value.0
          && if m.value.0.key == SERVICE && service.Some? then v.None?
             else v.Some? && v.value.0 == Outcome(service, m.value.0) && m.value.1 == SkipWs(v.value.1)
  {
    hide ParseStr, ParseValue, SkipWs, TakeWs, SERVICE, GATEWAY;
  }

  lemma TopStep(s: string, service: Option<bool>)
    ensures TopMembers(s, service) == TopEnd(s, service) == TopEnd(SkipWs(s), service)
  {
    hide TopMember, TopValueEnd, ParseStr, SkipWs, Outcome, SERVICE;
    SkipWsTwice(s);
    TopMemberEnd(s, service);
  }

  lemma PlainNames()
    ensures !Escaped(SERVICE) && !Escaped(GATEWAY)
  {
  }

  class JsonCursor {
    const bytes: string
    var pos: nat

    ghost predicate Valid()
      reads this
    {
      pos <= |bytes|
    }

    /** What is still to be read. */
    ghost function Rest(): string
      requires Valid()
      reads this
    {
      bytes[pos..]
    }

    constructor (input: string)
      ensures Valid() && bytes == input && Rest() == input
    {
      bytes := input;
      pos := 0;
    }

    method Ws()
      requires Valid()
      modifies this`pos
      ensures Valid() && Rest() == SkipWs(old(Rest()))
    {
      while pos < |bytes| && BlankChar(bytes[pos])
        invariant Valid() && SkipWs(Rest()) == SkipWs(old(Rest()))
      {
        assert Rest()[1..] == bytes[pos + 1..];
        pos := pos + 1;
      }
    }

    method Take(byte: char) returns (taken: bool)
      requires Valid()
      modifies this`pos
      ensures Valid()
      ensures var t := SkipWs(old(Rest()));
        if t != "" && t[0] == byte then taken && Rest() == t[1..] else !taken && Rest() == t
    {
      Ws();
      if pos < |bytes| && bytes[pos] == byte {
        pos := pos + 1;
        taken := true;
      } else {
        taken := false;
      }
    }

    /** One escape, from its backslash on. */
    method Escape() returns (ok: bool)
      requires Valid()
      requires pos < |bytes| && bytes[pos] == '\\'
      modifies this`pos
      ensures Valid()
      ensures ok <==> UnitLength(old(Rest())) > 0
      ensures ok ==> pos == old(pos) + UnitLength(old(Rest()))
    {
      ghost var rest := Rest();
      pos := pos + 1;
      if pos >= |bytes| {
        return false;
      }
      var escape := bytes[pos];
      assert rest[1] == escape;
      if escape == 'u' {
        for offset := 1 to 5
          invariant pos == old(pos) + 1 && offset < |rest|
          invariant forall k :: 2 <= k <= offset ==> HexDigit(rest[k])
        {
          if pos + offset >= |bytes| || !HexDigit(bytes[pos + offset]) {
            return false;
          }
          assert bytes[pos + offset] == rest[offset + 1];
        }
        pos := pos + 5;
      } else if SimpleEscape(escape) {
        pos := pos + 1;
      } else {
        return false;
      }
      return true;
    }

    /** The string loop, after the opening quote: the raw contents and whether they carried escapes. */
    method StringContents() returns (r: Option<(string, bool)>)
      requires Valid()
      modifies this`pos
      ensures Valid()
      ensures var p := ParseBody(old(Rest()));
        if p.None? then r == None else r == Some((p.value.0, Escaped(p.value.0))) && Rest() == p.value.1
    {
      hide UnitLength, ParseBody, Remaining, Escaped;
      var start := pos;
      var escaped := false;
      BodyStart(bytes, start);
      while pos < |bytes|
        invariant start <= pos <= |bytes|
        invariant Remaining(bytes, start, pos)
        invariant escaped <==> Escaped(bytes[start..pos])
      {
        var byte := bytes[pos];
        ghost var at := pos;
        UnitStart(bytes[at..]);
        if byte == '"' {
          var end := pos;
          pos := pos + 1;
          BodyCloses(bytes, start, at);
          return Some((bytes[start..end], escaped));
        } else if byte == '\\' {
          escaped := true;
          var ok := Escape();
          if !ok {
            BodyStops(bytes, start, at);
            return None;
          }
        } else if byte < ' ' {
          BodyStops(bytes, start, at);
          return None;
        } else {
          pos := pos + 1;
        }
        BodyContinues(bytes, start, at, pos - at);
      }
      BodyStops(bytes, start, pos);
      return None;
    }

    method String() returns (r: Option<(string, bool)>)
      requires Valid()
      modifies this`pos
      ensures Valid()
      ensures var p := ParseStr(SkipWs(old(Rest())));
        if p.None? then r == None else r == Some((p.value.0, Escaped(p.value.0))) && Rest() == p.value.1
    {
      hide ParseBody;
      Ws();
      if pos >= |bytes| || bytes[pos] != '"' {
        return None;
      }
      pos := pos + 1;
      r := StringContents();
    }

    /** A run of digits. */
    method DigitRun()
      requires Valid()
      modifies this`pos
      ensures Valid() && old(pos) <= pos
      ensures Rest() == SkipDigits(old(Rest())) && bytes[old(pos)..pos] == TakeDigits(old(Rest()))
    {
      while pos < |bytes| && Digit(bytes[pos])
        invariant Valid() && old(pos) <= pos && SkipDigits(Rest()) == SkipDigits(old(Rest()))
      {
        assert Rest()[1..] == bytes[pos + 1..];
        pos := pos + 1;
      }
    }

    method Whole() returns (ok: bool)
      requires Valid()
      modifies this`pos
      ensures Valid()
      ensures ok <==> ParseWhole(old(Rest())).Some?
      ensures ok ==> Rest() == ParseWhole(old(Rest())).value.1
    {
      if pos < |bytes| && bytes[pos] == '0' {
        pos := pos + 1;
      } else if pos < |bytes| && '1' <= bytes[pos] <= '9' {
        pos := pos + 1;
        DigitRun();
      } else {
        return false;
      }
      return true;
    }

    method Fraction() returns (ok: bool)
      requires Valid()
      modifies this`pos
      ensures Valid()
      ensures ok <==> ParseFrac(old(Rest())).Some?
      ensures ok ==> Rest() == ParseFrac(old(Rest())).value.1
    {
      if pos < |bytes| && bytes[pos] == '.' {
        pos := pos + 1;
        var digits := pos;
        DigitRun();
        if pos == digits {
          return false;
        }
      }
      return true;
    }

    method Exponent() returns (ok: bool)
      requires Valid()
      modifies this`pos
      ensures Valid()
      ensures ok <==> ParseExp(old(Rest())).Some?
      ensures ok ==> Rest() == ParseExp(old(Rest())).value.1
    {
      if pos < |bytes| && bytes[pos] in "eE" {
        pos := pos + 1;
        if pos < |bytes| && bytes[pos] in "+-" {
          pos := pos + 1;
        }
        var digits := pos;
        DigitRun();
        if pos == digits {
          return false;
        }
      }
      return true;
    }

    method Number() returns (ok: bool)
      requires Valid()
      modifies this`pos
      ensures Valid()
      ensures ok <==> ParseNumber(SkipWs(old(Rest()))).Some?
      ensures ok ==> Rest() == ParseNumber(SkipWs(old(Rest()))).value.1
    {
      hide ParseWhole, ParseFrac, ParseExp;
      Ws();
      ghost var s := Rest();
      var start := pos;
      if pos < |bytes| && bytes[pos] == '-' {
        pos := pos + 1;
      }
      ok := Whole();
      if !ok {
        return;
      }
      ok := Fraction();
      if !ok {
        return;
      }
      ok := Exponent();
      if !ok {
        return;
      }
      return pos > start;
    }

    method Literal(word: string) returns (ok: bool)
      requires Valid()
      modifies this`pos
      ensures Valid()
      ensures ok <==> word <= old(Rest())
      ensures ok ==> Rest() == old(Rest())[|word|..]
    {
      ok := pos + |word| <= |bytes| && bytes[pos..pos + |word|] == word;
      assert pos + |word| <= |bytes| ==> Rest()[..|word|] == bytes[pos..pos + |word|];
      if ok {
        pos := pos + |word|;
      }
    }

    /** A key and its colon. */
    method Key() returns (r: Option<(string, bool)>)
      requires Valid()
      modifies this`pos
      ensures Valid() && (r.Some? ==> old(pos) < pos)
      ensures var key := KeyEnd(old(Rest()));
        if key.None? then r.None? else r == Some((key.value.0, Escaped(key.value.0))) && Rest() == key.value.1
    {
      hide ParseStr, SkipWs, Escaped;
      r := String();
      if r.None? {
        return None;
      }
      var colon := Take(':');
      if !colon {
        return None;
      }
    }

    /** A value at nesting level `depth`, after whitespace. The counter is bounded, so `depth + 1` stays a u8. */
    method Value(depth: u8) returns (ok: bool)
      requires Valid()
      modifies this`pos
      ensures Valid()
      ensures ok <==> ParseValue(SkipWs(old(Rest())), depth as nat).Some?
      ensures ok ==> Rest() == ParseValue(SkipWs(old(Rest())), depth as nat).value.1
      decreases |bytes| - pos, 1
    {
      if depth > 64 {
        return false;
      }
      Ws();
      ghost var s := Rest();
      if pos >= |bytes| {
        return false;
      }
      var first := bytes[pos];
      if first == '"' {
        var r := String();
        ok := r.Some?;
      } else if first == '{' {
        ok := Object(depth + 1);
      } else if first == '[' {
        ok := Array(depth + 1);
      } else if first == 't' {
        ok := Literal("true");
      } else if first == 'f' {
        ok := Literal("false");
      } else if first == 'n' {
        ok := Literal("null");
      } else if first == '-' || Digit(first) {
        ok := Number();
      } else {
        ok := false;
      }
    }

    method Object(depth: u8) returns (ok: bool)
      requires Valid()
      modifies this`pos
      ensures Valid()
      ensures ok <==> ObjectEnd(old(Rest()), depth as nat).Some?
      ensures ok ==> Rest() == ObjectEnd(old(Rest()), depth as nat).value
      decreases |bytes| - pos, 0
    {
      hide ParseStr, ParseValue, ParseMembers, ParseElements, SkipWs;
      var open := Take('{');
      if !open {
        return false;
      }
      ghost var s := Rest();
      MembersStep(s, depth as nat);
      SkipWsTwice(s);
      Ws();
      var closed := Take('}');
      if closed {
        return true;
      }
      while true
        invariant Valid() && pos > old(pos)
        invariant MembersEnd(Rest(), depth as nat) == After(ParseMembers(s, depth as nat))
        decreases |bytes| - pos
      {
        var key := Key();
        if key.None? {
          return false;
        }
        var value := Value(depth);
        if !value {
          return false;
        }
        SkipWsTwice(Rest());
        closed := Take('}');
        if closed {
          return true;
        }
        var comma := Take(',');
        if !comma {
          return false;
        }
        MembersStep(Rest(), depth as nat);
      }
    }

    method Array(depth: u8) returns (ok: bool)
      requires Valid()
      modifies this`pos
      ensures Valid()
      ensures ok <==> ArrayEnd(old(Rest()), depth as nat).Some?
      ensures ok ==> Rest() == ArrayEnd(old(Rest()), depth as nat).value
      decreases |bytes| - pos, 0
    {
      hide ParseStr, ParseValue, ParseMembers, ParseElements, SkipWs;
      var open := Take('[');
      if !open {
        return false;
      }
      ghost var s := Rest();
      ElementsStep(s, depth as nat);
      SkipWsTwice(s);
      Ws();
      var closed := Take(']');
      if closed {
        return true;
      }
      while true
        invariant Valid() && pos > old(pos)
        invariant ElementsEnd(Rest(), depth as nat) == After(ParseElements(s, depth as nat))
        decreases |bytes| - pos
      {
        var value := Value(depth);
        if !value {
          return false;
        }
        SkipWsTwice(Rest());
        closed := Take(']');
        if closed {
          return true;
        }
        var comma := Take(',');
        if !comma {
          return false;
        }
        ElementsStep(Rest(), depth as nat);
      }
    }

    /** The value of a top-level key: the name of the service at its first occurrence, any value for another key. */
    method TopValue(key: string, escaped: bool, service: Option<bool>) returns (r: Option<Option<bool>>)
      requires Valid() && (escaped <==> Escaped(key))
      modifies this`pos
      ensures Valid() && (r.Some? ==> old(pos) <= pos)
      ensures var v := TopValueEnd(key, old(Rest()), service);
        if v.None? then r.None? else r == Some(v.value.0) && Rest() == v.value.1
    {
      hide ParseStr, ParseValue, SkipWs, Escaped, SERVICE, GATEWAY;
      PlainNames();
      if !escaped && key == SERVICE {
        if service.Some? {
          return None;
        }
        var name := String();
        if name.None? {
          return None;
        }
        return Some(Some(!name.value.1 && name.value.0 == GATEWAY));
      }
      var value := Value(1);
      return if value then Some(service) else None;
    }

    method ParseTopLevelService() returns (r: Option<bool>)
      requires Valid()
      modifies this`pos
      ensures Valid() && r == TopLevelService(old(Rest()))
    {
      hide KeyEnd, TopValueEnd, ParseStr, ParseValue, TopMembers, SkipWs, Escaped, SERVICE, GATEWAY;
      var open := Take('{');
      if !open {
        return None;
      }
      ghost var s := Rest();
      var service: Option<bool> := None;
      TopStep(s, None);
      SkipWsTwice(s);
      Ws();
      var closed := Take('}');
      if !closed {
        while true
          invariant Valid() && TopEnd(Rest(), service) == TopMembers(s, None)
          decreases |bytes| - pos
        {
          var key := Key();
          if key.None? {
            return None;
          }
          var verdict := TopValue(key.value.0, key.value.1, service);
          if verdict.None? {
            return None;
          }
          service := verdict.value;
          SkipWsTwice(Rest());
          closed := Take('}');
          if closed {
            break;
          }
          var comma := Take(',');
          if !comma {
            return None;
          }
          TopStep(Rest(), service);
        }
        assert TopMembers(s, None) == Some((service, Rest()));
      }
      Ws();
      return if pos == |bytes| then Some(service == Some(true)) else None;
    }
  }

  /** The probe of a health response body: yes exactly for the documents that name the gateway. */
  method TopLevelServiceIsDuduclaw(body: string) returns (yes: bool)
    ensures yes <==> exists d :: IsText(body, d) && ServicesOf(d) == [Str(GATEWAY)]
    ensures yes <==> TopLevelService(body) == Some(true)
  {
    var json := new JsonCursor(body);
    var r := json.ParseTopLevelService();
    TopLevelMeaning(body);
    yes := r == Some(true);
  }
}
