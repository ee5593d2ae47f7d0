/**
 What the health probe decides about a response body, as a function of the text, and what the decision means: a
 top-level object with exactly one unescaped `service` key, whose value is the gateway's name.
 */
module ServiceDocument {
  import opened Wrappers
  import opened JsonGrammar

  const SERVICE := "service"
  const GATEWAY := "duduclaw-gateway"

  // ---------- what the answer means ----------

  /** A whole text: one object and the whitespace around it. */
  datatype Document =
    | EmptyDoc(w0: string, gap: string, w1: string)
    | Doc(w0: string, members: Members, w1: string)

  function PrintDocument(d: Document): string
  {
    match d
    case EmptyDoc(w0, gap, w1) => w0 + ("{" + (gap + ("}" + w1)))
    case Doc(w0, ms, w1) => w0 + ("{" + PrintMembers(ms, w1))
  }

  predicate WellFormedDocument(d: Document)
  {
    Blank(d.w0) && Blank(d.w1) && match d
      case EmptyDoc(_, gap, _) => Blank(gap)
      case Doc(_, ms, _) => WellFormedMembers(ms, 1)
  }

  /** The values of the members whose key is `service` byte for byte (an escaped spelling is another key). */
  function Services(ms: Members): seq<Value>
  {
    (if ms.member.key == SERVICE then [ms.member.value] else []) + (if ms.More? then Services(ms.rest) else [])
  }

  function ServicesOf(d: Document): seq<Value>
  {
    if d.EmptyDoc? then [] else Services(d.members)
  }

  /** At most one `service` member, and its value is a string. */
  predicate Unambiguous(services: seq<Value>)
  {
    |services| <= 1 && forall i :: 0 <= i < |services| ==> services[i].Str?
  }

  ghost predicate IsText(s: string, d: Document)
  {
    s == PrintDocument(d) && WellFormedDocument(d)
  }

  // ---------- the decision, as a function of the text ----------

  function TakeByte(s: string, b: char): (r: Option<string>)
    ensures r.Some? ==> |r.value| < |s|
  {
    var t := SkipWs(s);
    if t != "" && t[0] == b then Some(t[1..]) else None
  }

  /** One member of the outer object: the value of `service` must be a string, every other value is at level 1. */
  ghost function TopMember(s: string): (r: Option<(Member, string)>)
    ensures r.Some? ==> |r.value.1| < |s|
  {
    var k := ParseKey(s);
    if k.None? then None
    else
      var u := SkipWs(k.value.3);
      if k.value.1 == SERVICE then
        var v := ParseStr(u);
        if v.None? then None
        else
          var m := Member(k.value.0, SERVICE, k.value.2, TakeWs(k.value.3), Str(v.value.0), TakeWs(v.value.1));
          Some((m, SkipWs(v.value.1)))
      else
        ParseMember(s, 1)
  }

  function Outcome(service: Option<bool>, m: Member): Option<bool>
    requires m.key == SERVICE ==> m.value.Str?
  {
    if m.key == SERVICE then Some(m.value.raw == GATEWAY) else service
  }

  /** The members of the outer object, given the verdict on `service` so far. */
  ghost function TopMembers(s: string, service: Option<bool>): (r: Option<(Option<bool>, string)>)
    decreases |s|
  {
    var m := TopMember(s);
    if m.None? || (m.value.0.key == SERVICE && service.Some?) || m.value.1 == "" then None
    else
      var now := Outcome(service, m.value.0);
      if m.value.1[0] == '}' then Some((now, m.value.1[1..]))
      else if m.value.1[0] == ',' then TopMembers(m.value.1[1..], now)
      else None
  }

  ghost function TopLevelService(s: string): Option<bool>
  {
    var t := TakeByte(s, '{');
    if t.None? then None
    else
      var u := TakeByte(t.value, '}');
      var r := if u.Some? then Some((None, u.value)) else TopMembers(t.value, None);
      if r.Some? && SkipWs(r.value.1) == "" then Some(r.value.0 == Some(true)) else None
  }

  // ---------- the decision means what it should ----------

  lemma TopMemberSound(s: string)
    requires TopMember(s).Some?
    ensures var (m, rest) := TopMember(s).value;
      s == PrintMember(m, rest) && WellFormedMember(m, 1) && (m.key == SERVICE ==> m.value.Str?)
  {
    hide ParseKey, ParseStr, StringBody, Blank;
    if ParseKey(s).Some? && ParseKey(s).value.1 == SERVICE {
      KeySound(s);
      var after := ParseKey(s).value.3;
      WsSplits(after);
      StrSound(SkipWs(after));
      WsSplits(ParseStr(SkipWs(after)).value.1);
    } else {
      MemberSound(s, 1);
    }
  }

  lemma TopMemberComplete(m: Member, tail: string)
    requires WellFormedMember(m, 1) && tail != "" && tail[0] in ",}"
    requires m.key == SERVICE ==> m.value.Str?
    ensures TopMember(PrintMember(m, tail)) == Some((m, tail))
  {
    hide ParseKey, ParseStr, StringBody, Blank;
    var after := m.w3 + tail;
    KeyComplete(m.w0, m.key, m.w1, m.w2 + PrintValue(m.value, after));
    if m.key == SERVICE {
      StrComplete(m.value.raw, after);
      WsPrints(m.w3, tail);
      FirstChar(m.value, 1, after);
      WsPrints(m.w2, PrintValue(m.value, after));
    } else {
      MemberComplete(m, 1, tail);
    }
  }

  /** The verdict that members with these `service` values lead to. */
  function Final(service: Option<bool>, services: seq<Value>): Option<bool>
    requires Unambiguous(services)
  {
    if services == [] then service else Some(services[0].raw == GATEWAY)
  }

  lemma {:induction false} TopMembersSound(s: string, service: Option<bool>) returns (ms: Members)
    requires TopMembers(s, service).Some?
    ensures s == PrintMembers(ms, TopMembers(s, service).value.1) && WellFormedMembers(ms, 1)
    ensures Unambiguous(Services(ms)) && (service.Some? ==> Services(ms) == [])
    ensures TopMembers(s, service).value.0 == Final(service, Services(ms))
    decreases |s|
  {
    hide TopMember, PrintMember, WellFormedMember;
    TopMemberSound(s);
    var (m, t) := TopMember(s).value;
    assert t == [t[0]] + t[1..];
    if t[0] == '}' {
      ms := One(m);
    } else {
      var rest := TopMembersSound(t[1..], Outcome(service, m));
      ms := More(m, rest);
    }
  }

  lemma {:induction false} TopMembersComplete(ms: Members, service: Option<bool>, tail: string)
    requires WellFormedMembers(ms, 1)
    requires Unambiguous(Services(ms)) && (service.Some? ==> Services(ms) == [])
    ensures TopMembers(PrintMembers(ms, tail), service) == Some((Final(service, Services(ms)), tail))
    decreases ms
  {
    hide TopMember, PrintMember, WellFormedMember, Services, Unambiguous, Final, Outcome, SERVICE;
    var m := ms.member;
    var end := if ms.One? then "}" + tail else "," + PrintMembers(ms.rest, tail);
    ServicesStep(ms, service);
    TopMemberComplete(m, end);
    if ms.More? {
      TopMembersComplete(ms.rest, Outcome(service, m), tail);
      assert end[1..] == PrintMembers(ms.rest, tail);
    } else {
      assert end[1..] == tail;
    }
  }

  /** The verdict on the members is the verdict on the first one, carried on to the others. */
  lemma ServicesStep(ms: Members, service: Option<bool>)
    requires Unambiguous(Services(ms)) && (service.Some? ==> Services(ms) == [])
    ensures ms.member.key == SERVICE ==> ms.member.value.Str? && service.None?
    ensures ms.One? ==> Outcome(service, ms.member) == Final(service, Services(ms))
    ensures ms.More? ==>
      && Unambiguous(Services(ms.rest))
      && (Outcome(service, ms.member).Some? ==> Services(ms.rest) == [])
      && Final(Outcome(service, ms.member), Services(ms.rest)) == Final(service, Services(ms))
  {
    hide SERVICE, GATEWAY;
    assert ms.member.key == SERVICE ==> Services(ms)[0] == ms.member.value;
    if ms.More? {
      var first := if ms.member.key == SERVICE then 1 else 0;
      assert forall i :: 0 <= i < |Services(ms.rest)| ==> Services(ms.rest)[i] == Services(ms)[first + i];
    }
  }

  lemma {:induction false} AllBlank(w: string)
    ensures SkipWs(w) == "" <==> Blank(w)
  {
    WsSplits(w);
    if Blank(w) {
      WsPrints(w, "");
      assert w + "" == w;
    }
  }

  lemma TopLevelSound(s: string) returns (d: Document)
    requires TopLevelService(s).Some?
    ensures IsText(s, d) && Unambiguous(ServicesOf(d))
    ensures TopLevelService(s) == Some(ServicesOf(d) == [Str(GATEWAY)])
  {
    hide TopMembers, PrintMembers, WellFormedMembers, Blank, SkipWs, TakeWs, Services;
    WsSplits(s);
    var t := TakeByte(s, '{').value;
    assert SkipWs(s) == "{" + t;
    var u := TakeByte(t, '}');
    if u.Some? {
      WsSplits(t);
      assert SkipWs(t) == "}" + u.value;
      AllBlank(u.value);
      d := EmptyDoc(TakeWs(s), TakeWs(t), u.value);
    } else {
      var ms := TopMembersSound(t, None);
      var w1 := TopMembers(t, None).value.1;
      AllBlank(w1);
      d := Doc(TakeWs(s), ms, w1);
    }
  }

  lemma MembersStart(ms: Members, tail: string)
    requires WellFormedMembers(ms, 1)
    ensures TakeByte(PrintMembers(ms, tail), '}') == None
  {
    MemberStarts(ms.member, 1, if ms.One? then "}" + tail else "," + PrintMembers(ms.rest, tail));
  }

  lemma TopLevelComplete(d: Document)
    requires WellFormedDocument(d) && Unambiguous(ServicesOf(d))
    ensures TopLevelService(PrintDocument(d)) == Some(ServicesOf(d) == [Str(GATEWAY)])
  {
    hide TopMembers, PrintMembers, WellFormedMembers, Blank;
    DocumentParts(d);
    AllBlank(d.w1);
    if d.Doc? {
      TopMembersComplete(d.members, None, d.w1);
    }
  }

  /** The three answers, for every text: yes, no, and "not such an object". */
  lemma TopLevelMeaning(s: string)
    ensures TopLevelService(s) == Some(true) <==> exists d :: IsText(s, d) && ServicesOf(d) == [Str(GATEWAY)]
    ensures TopLevelService(s).Some? <==> exists d :: IsText(s, d) && Unambiguous(ServicesOf(d))
  {
    hide TopLevelService;
    if TopLevelService(s).Some? {
      var d := TopLevelSound(s);
    }
    forall d | IsText(s, d) && Unambiguous(ServicesOf(d))
      ensures TopLevelService(s) == Some(ServicesOf(d) == [Str(GATEWAY)])
    {
      TopLevelComplete(d);
    }
  }

  /** The grammar is unambiguous at the top: two readings of one text have the same `service` values. */
  lemma OneReading(s: string, d: Document, e: Document)
    requires IsText(s, d) && IsText(s, e)
    ensures d == e
  {
    hide PrintMembers, WellFormedMembers, Blank;
    DocumentParts(d);
    DocumentParts(e);
    if d.Doc? && e.Doc? {
      MembersComplete(d.members, 1, d.w1);
      MembersComplete(e.members, 1, e.w1);
    }
  }

  /** The outer braces and the whitespace around them can be read off the text. */
  lemma DocumentParts(d: Document)
    requires WellFormedDocument(d)
    ensures var s := PrintDocument(d);
      && d.w0 == TakeWs(s)
      && TakeByte(s, '{').Some?
      && var t := TakeByte(s, '{').value;
      && (d.EmptyDoc? <==> TakeByte(t, '}').Some?)
      && (d.EmptyDoc? ==> d.gap == TakeWs(t) && TakeByte(t, '}') == Some(d.w1))
      && (d.Doc? ==> t == PrintMembers(d.members, d.w1))
  {
    hide PrintMembers, WellFormedMembers, Blank;
    var t := if d.EmptyDoc? then d.gap + ("}" + d.w1) else PrintMembers(d.members, d.w1);
    WsPrints(d.w0, "{" + t);
    assert ("{" + t)[1..] == t;
    if d.EmptyDoc? {
      WsPrints(d.gap, "}" + d.w1);
      assert ("}" + d.w1)[1..] == d.w1;
    } else {
      MembersStart(d.members, d.w1);
    }
  }
}
