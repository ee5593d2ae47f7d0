/** Every verdict of the release-marker check, described by what the binary holds. */
module ReleaseVerdicts {
  import opened Search
  import opened Wrappers
  import opened ReleaseMarker

  /** A record of any plain version, byte for byte, is a binary that carries this identity. */
  lemma RecordCarriesIdentity(version: string)
    requires PlainVersion(version)
    ensures CarriesIdentity("\0DUDUCLAW_RELEASE_ID:V1:" + version + "\0DUDUCLAW_RELEASE_END\0", version)
  {
    hide PlainVersion;
    var data := HEADER + version + SUFFIX;
    assert HEADER == "\0DUDUCLAW_RELEASE_ID:V1:" && SUFFIX == "\0DUDUCLAW_RELEASE_END\0";
    NoLetters(version);
    OnlyI(version);
    assert RecordAt(data, version, 1);
    assert OccursAt(data, MAGIC, 1) by { assert data[1..20] == MAGIC; }
    forall q
      ensures OccursAt(data, MAGIC, q) <==> q == 1
    {
      if OccursAt(data, MAGIC, q) {
        assert data[q..q + |MAGIC|][17] == data[q + 17];
      }
    }
  }

  /** The magic's letter I occurs nowhere else in a record. */
  lemma OnlyI(version: string)
    requires 'I' !in version
    ensures var r := HEADER + version + SUFFIX;
      forall i | 0 <= i < |r| && i != 18 :: r[i] != 'I'
  {
    var r := HEADER + version + SUFFIX;
    forall i | 0 <= i < |r| && i != 18
      ensures r[i] != 'I'
    {
      if i >= |HEADER| + |version| {
        assert r[i] == SUFFIX[i - |HEADER| - |version|];
      } else if i >= |HEADER| {
        assert r[i] == version[i - |HEADER|];
      }
    }
  }

  lemma NoLetters(version: string)
    requires PlainVersion(version)
    ensures 'I' !in version
  {
    ThreeParts(version);
    var p := SplitDots(version);
    NumeralLength(p[0]);
    NumeralLength(p[1]);
    NumeralLength(p[2]);
  }

  // ---------- which fault is reported ----------

  /** The record around the magic at `p` carries some version, plain or not. */
  ghost predicate Carries(data: string, p: int, version: string)
  {
    '\0' !in version && |version| <= 62 && OccursAt(data, HEADER + version + SUFFIX, p - 1)
  }

  predicate SevenBit(v: string)
  {
    forall i :: 0 <= i < |v| ==> v[i] as int < 128
  }

  ghost predicate FirstMagic(data: string, p: int)
  {
    OccursAt(data, MAGIC, p) && forall q :: OccursAt(data, MAGIC, q) ==> p <= q
  }

  /** What the check says about a binary whose magic first occurs at `p`. */
  ghost predicate Says(data: string, p: int, expected: string, verdict: Verdict)
  {
    match verdict
    case Rejected(BadHeader) => !OccursAt(data, HEADER, p - 1)
    case Rejected(BadSuffix) => OccursAt(data, HEADER, p - 1) && !exists v :: Carries(data, p, v)
    case Rejected(NotAscii) => exists v :: Carries(data, p, v) && !SevenBit(v)
    case Rejected(Mismatch) => exists v :: Carries(data, p, v) && SevenBit(v) && v != expected
    case Rejected(Duplicate) => Carries(data, p, expected) && exists q :: q != p && OccursAt(data, MAGIC, q)
    case Accepted => Carries(data, p, expected) && !exists q :: q != p && OccursAt(data, MAGIC, q)
    case _ => false
  }

  /** The version in front of the suffix ends at the first NUL, so there is only one. */
  lemma TailVersion(tail: string, v: string)
    requires '\0' !in v
    ensures OccursAt(tail, v + SUFFIX, 0) <==>
      Find(tail, "\0", 0) == |v| && tail[..|v|] == v && Slice(tail, |v|, |v| + |SUFFIX|) == SUFFIX
  {
    hide SUFFIX;
    SuffixStarts();
    OccursConcat(tail, v, SUFFIX, 0);
    var end := Find(tail, "\0", 0);
    if |v| <= |tail| {
      SliceOccurs(tail, SUFFIX, |v|);
    }
    if OccursAt(tail, v + SUFFIX, 0) {
      forall i | 0 <= i < |v|
        ensures !OccursAt(tail, "\0", i)
      {
        assert tail[i..i + 1][0] == tail[..|v|][i] == v[i];
      }
      assert tail[|v|..|v| + |SUFFIX|][0] == '\0';
      assert OccursAt(tail, "\0", |v|);
    }
  }

  lemma CarriesTail(data: string, p: nat, v: string)
    requires 0 < p <= |data| && OccursAt(data, HEADER, p - 1)
    ensures Carries(data, p, v) <==>
      '\0' !in v && |v| <= 62 && OccursAt(data[p - 1 + |HEADER|..], v + SUFFIX, 0)
  {
    hide HEADER, SUFFIX;
    assert HEADER + v + SUFFIX == HEADER + (v + SUFFIX);
    OccursConcat(data, HEADER, v + SUFFIX, p - 1);
    var at := p - 1 + |HEADER|;
    if |v + SUFFIX| <= |data| - at {
      WindowOccurs(data, at, data[at..], v + SUFFIX, 0);
    }
  }

  lemma CarriesHeader(data: string, p: int, v: string)
    requires Carries(data, p, v)
    ensures OccursAt(data, HEADER, p - 1)
  {
    hide HEADER, SUFFIX;
    assert HEADER + v + SUFFIX == HEADER + (v + SUFFIX);
    OccursConcat(data, HEADER, v + SUFFIX, p - 1);
  }

  lemma NoNulBefore(tail: string)
    ensures var end := Find(tail, "\0", 0); end <= |tail| && (0 <= end ==> '\0' !in tail[..end])
  {
    var end := Find(tail, "\0", 0);
    if 0 <= end {
      forall i | 0 <= i < end
        ensures tail[i] != '\0'
      {
        assert !OccursAt(tail, "\0", i);
        assert tail[i..i + 1] == [tail[i]];
      }
    }
  }

  /** The version a well-formed tail carries. */
  lemma TailCarries(tail: string)
    ensures var end := Find(tail, "\0", 0);
      var formed := 0 <= end <= 62 && Slice(tail, end, end + |SUFFIX|) == SUFFIX;
      && (formed ==> '\0' !in tail[..end] && OccursAt(tail, tail[..end] + SUFFIX, 0))
      && (!formed ==> forall v | '\0' !in v && |v| <= 62 :: !OccursAt(tail, v + SUFFIX, 0))
  {
    hide SUFFIX, Slice, Find, OccursAt;
    var end := Find(tail, "\0", 0);
    NoNulBefore(tail);
    if 0 <= end {
      TailVersion(tail, tail[..end]);
    }
    forall v | '\0' !in v && |v| <= 62 && OccursAt(tail, v + SUFFIX, 0)
      ensures 0 <= end <= 62 && Slice(tail, end, end + |SUFFIX|) == SUFFIX
    {
      TailVersion(tail, v);
    }
  }

  /** What is wrong with a record, by what lies around its magic. */
  lemma FaultMeaning(data: string, p: nat, expected: string)
    requires p <= |data| && PlainVersion(expected) && OccursAt(data, MAGIC, p)
    ensures var fault := RecordFault(data, p, expected);
      if fault.Some? then Says(data, p, expected, Rejected(fault.value)) else Carries(data, p, expected)
  {
    hide PlainVersion, HEADER, SUFFIX, MAGIC, Find, Slice, OccursAt, Carries, TailFault;
    var fault := RecordFault(data, p, expected);
    if p == 0 {
      NoHeaderBefore(data);
    } else {
      SliceOccurs(data, HEADER, p - 1);
      if OccursAt(data, HEADER, p - 1) {
        OccursFits(data, HEADER, p - 1);
        var tail := data[p - 1 + |HEADER|..];
        var end := Find(tail, "\0", 0);
        TailCarries(tail);
        FaultOfTail(tail, expected);
        forall v
          ensures Carries(data, p, v) <==> '\0' !in v && |v| <= 62 && OccursAt(tail, v + SUFFIX, 0)
        {
          CarriesTail(data, p, v);
        }
      }
    }
  }

  lemma OccursFits(s: string, needle: string, i: int)
    requires OccursAt(s, needle, i)
    ensures 0 <= i && i + |needle| <= |s|
  {
  }

  lemma NoHeaderBefore(data: string)
    ensures !OccursAt(data, HEADER, -1)
  {
  }

  lemma FaultOfTail(tail: string, expected: string)
    requires PlainVersion(expected)
    ensures var end := Find(tail, "\0", 0);
      && end <= |tail|
      && TailFault(tail, expected) ==
        if end < 0 || end > 62 || Slice(tail, end, end + |SUFFIX|) != SUFFIX then Some(BadSuffix)
        else if !SevenBit(tail[..end]) then Some(NotAscii)
        else if tail[..end] != expected then Some(Mismatch)
        else None
  {
    hide PlainVersion, SUFFIX, Slice, Ascii, SevenBit, Find, OccursAt;
    FindInside(tail);
    var end := Find(tail, "\0", 0);
    if 0 <= end {
      SameAscii(tail[..end]);
    }
  }

  lemma SameAscii(v: string)
    ensures Ascii(v) == SevenBit(v)
  {
  }

  lemma FindInside(tail: string)
    ensures Find(tail, "\0", 0) <= |tail|
  {
  }

  /** Every verdict of the ordered scan: missing without the magic, and what its first occurrence shows otherwise. */
  lemma VerdictMeaning(data: string, expected: string)
    requires PlainVersion(expected)
    ensures var verdict := Scan(data, 0, false, expected);
      if Contains(data, MAGIC) then exists p :: FirstMagic(data, p) && Says(data, p, expected, verdict)
      else verdict == Rejected(Missing)
  {
    hide PlainVersion, RecordFault, MAGIC, HEADER, SUFFIX, Carries, OccursAt;
    FindDecides(data, MAGIC);
    var p := Find(data, MAGIC, 0);
    if p != -1 {
      MagicInside(data, p);
      assert FirstMagic(data, p) by { MagicNotNegative(data); }
      FaultMeaning(data, p, expected);
      var next := Find(data, MAGIC, p + 1);
      assert Scan(data, p + 1, true, expected) == if next == -1 then Accepted else Rejected(Duplicate);
      FaultIsOfRecord(data, p, expected);
      assert Says(data, p, expected, Scan(data, 0, false, expected));
    }
  }

  lemma MagicInside(data: string, p: int)
    requires OccursAt(data, MAGIC, p)
    ensures 0 <= p <= |data|
  {
  }

  lemma MagicNotNegative(data: string)
    ensures forall q :: OccursAt(data, MAGIC, q) ==> 0 <= q
  {
  }

  lemma FaultIsOfRecord(data: string, p: nat, expected: string)
    requires p <= |data|
    ensures RecordFault(data, p, expected) !in {Some(InvalidExpected), Some(TooLarge), Some(Missing), Some(Duplicate)}
  {
  }
}
