/**
 The streaming check that a release binary carries exactly one identity record.
 A byte is modelled as the character with its code, so byte strings are strings.
 */
module ReleaseMarker {
  import opened Search
  import opened Wrappers
  import opened Sequences

  const MAGIC := "DUDUCLAW_RELEASE_ID"
  const HEADER := "\0" + MAGIC + ":V1:"
  const SUFFIX := "\0DUDUCLAW_RELEASE_END\0"
  const MAX_BINARY_BYTES := 768 * 1024 * 1024
  const READ_SIZE := 64 * 1024
  const MAX_VERSION := 62
  const MAX_RECORD := |HEADER| + MAX_VERSION + |SUFFIX|
  const U64_MAX := 0xFFFF_FFFF_FFFF_FFFF

  // ---------- plain versions ----------

  /** The pieces of `s` between its dots. */
  function SplitDots(s: string): (parts: seq<string>)
    ensures |parts| >= 1
  {
    if s == "" then [""]
    else
      var rest := SplitDots(s[1..]);
      if s[0] == '.' then [""] + rest else [[s[0]] + rest[0]] + rest[1..]
  }

  predicate Digits(s: string)
  {
    forall i :: 0 <= i < |s| ==> '0' <= s[i] <= '9'
  }

  /** `0|[1-9][0-9]*` */
  predicate Numeral(s: string)
  {
    s == "0" || (s != "" && s[0] != '0' && Digits(s))
  }

  function Value(s: string): nat
    requires Digits(s)
  {
    if s == "" then 0 else 10 * Value(s[..|s| - 1]) + (s[|s| - 1] as int - '0' as int)
  }

  predicate U64Numeral(s: string)
  {
    Numeral(s) && Value(s) <= U64_MAX
  }

  predicate PlainVersion(version: string)
  {
    var parts := SplitDots(version);
    |parts| == 3 && U64Numeral(parts[0]) && U64Numeral(parts[1]) && U64Numeral(parts[2])
  }

  function Pow10(n: nat): nat
  {
    if n == 0 then 1 else 10 * Pow10(n - 1)
  }

  lemma {:induction false} ValueAtLeast(s: string)
    requires Digits(s) && s != "" && s[0] != '0'
    ensures Value(s) >= Pow10(|s| - 1)
  {
    if |s| > 1 {
      ValueAtLeast(s[..|s| - 1]);
    }
  }

  lemma {:induction false} Pow10Monotone(m: nat, n: nat)
    requires m <= n
    ensures 1 <= Pow10(m) <= Pow10(n)
    decreases n
  {
    if m < n {
      Pow10Monotone(m, n - 1);
    } else if m > 0 {
      Pow10Monotone(m - 1, m - 1);
    }
  }

  lemma Pow10Of20()
    ensures Pow10(20) == 100_000_000_000_000_000_000
  {
    assert Pow10(5) == 100_000;
    assert Pow10(10) == 10_000_000_000;
    assert Pow10(15) == 1_000_000_000_000_000;
  }

  lemma NumeralLength(s: string)
    requires U64Numeral(s)
    ensures 1 <= |s| <= 20 && Digits(s)
  {
    if |s| > 20 {
      ValueAtLeast(s);
      Pow10Monotone(20, |s| - 1);
      Pow10Of20();
    }
  }

  function JoinDots(parts: seq<string>): string
    requires parts != []
  {
    if |parts| == 1 then parts[0] else parts[0] + "." + JoinDots(parts[1..])
  }

  lemma {:induction false} SplitJoin(s: string)
    ensures JoinDots(SplitDots(s)) == s
    ensures forall i :: 0 <= i < |SplitDots(s)| ==> '.' !in SplitDots(s)[i]
  {
    if s != "" {
      SplitJoin(s[1..]);
      var rest := SplitDots(s[1..]);
      if s[0] == '.' {
        assert ([""] + rest)[1..] == rest;
      } else {
        assert ([[s[0]] + rest[0]] + rest[1..])[1..] == rest[1..];
      }
    }
  }

  lemma {:induction false} SplitPrefix(a: string, s: string)
    requires '.' !in a
    ensures SplitDots(a) == [a]
    ensures SplitDots(a + "." + s) == [a] + SplitDots(s)
  {
    if a == "" {
      assert a + "." + s == "." + s;
    } else {
      SplitPrefix(a[1..], s);
      assert [a[0]] + a[1..] == a;
      assert (a + "." + s)[1..] == a[1..] + "." + s;
    }
  }

  lemma ThreeParts(version: string)
    requires |SplitDots(version)| == 3
    ensures var p := SplitDots(version); version == p[0] + "." + p[1] + "." + p[2]
  {
    SplitJoin(version);
    var p := SplitDots(version);
    assert p[1..][1..] == [p[2]];
    assert JoinDots(p[1..]) == p[1] + "." + p[2];
    assert p[0] + "." + (p[1] + "." + p[2]) == p[0] + "." + p[1] + "." + p[2];
  }

  lemma JoinedIsPlain(a: string, b: string, c: string)
    requires U64Numeral(a) && U64Numeral(b) && U64Numeral(c)
    ensures PlainVersion(a + "." + b + "." + c)
  {
    hide U64Numeral, SplitDots;
    NoDotInside(a);
    NoDotInside(b);
    NoDotInside(c);
    SplitThree(a, b, c);
  }

  lemma NoDotInside(s: string)
    requires U64Numeral(s)
    ensures '.' !in s
  {
    hide U64Numeral;
    NumeralLength(s);
  }

  lemma SplitThree(a: string, b: string, c: string)
    requires '.' !in a && '.' !in b && '.' !in c
    ensures SplitDots(a + "." + b + "." + c) == [a, b, c]
  {
    hide SplitDots;
    SplitPrefix(c, "");
    SplitPrefix(b, c);
    SplitPrefix(a, b + "." + c);
    assert a + "." + b + "." + c == a + "." + (b + "." + c);
  }

  /** A number as it is printed in decimal. */
  function Decimal(n: nat): string
  {
    (if n < 10 then "" else Decimal(n / 10)) + [(48 + n % 10) as char]
  }

  /** Printed numbers are numerals, and are read back as themselves. */
  lemma {:induction false} DecimalIsRead(n: nat)
    ensures Numeral(Decimal(n)) && Value(Decimal(n)) == n
    ensures Decimal(n) != "" && (n > 0 ==> Decimal(n)[0] != '0')
  {
    var s := Decimal(n);
    if n >= 10 {
      DecimalIsRead(n / 10);
      assert s[..|s| - 1] == Decimal(n / 10);
    } else {
      assert s[..|s| - 1] == "";
    }
  }

  /** A numeral is the print of its value. */
  lemma {:induction false} NumeralIsPrinted(s: string)
    requires Numeral(s)
    ensures Decimal(Value(s)) == s
    decreases |s|
  {
    var t, c := s[..|s| - 1], s[|s| - 1];
    assert s == t + [c];
    if t != "" {
      NumeralIsPrinted(t);
      ValueAtLeast(t);
      Pow10Monotone(0, |t| - 1);
      assert Value(s) / 10 == Value(t);
    }
  }

  /** The accepted numerals are exactly the printed numbers that fit in 64 bits. */
  lemma NumeralMeaning(s: string)
    ensures U64Numeral(s) <==> exists n: nat :: n <= 0xFFFF_FFFF_FFFF_FFFF && s == Decimal(n)
  {
    hide Numeral, Decimal;
    if U64Numeral(s) {
      NumeralIsPrinted(s);
    }
    if n: nat :| n <= 0xFFFF_FFFF_FFFF_FFFF && s == Decimal(n) {
      DecimalIsRead(n);
    }
  }

  lemma PrintedIsNumeral(n: nat)
    requires n <= 0xFFFF_FFFF_FFFF_FFFF
    ensures U64Numeral(Decimal(n))
  {
    hide Numeral, Decimal;
    DecimalIsRead(n);
  }

  /** Three 64-bit numbers as they are printed in decimal, joined by dots. */
  ghost predicate IsPrinted(version: string, a: nat, b: nat, c: nat)
  {
    && a <= 0xFFFF_FFFF_FFFF_FFFF && b <= 0xFFFF_FFFF_FFFF_FFFF && c <= 0xFFFF_FFFF_FFFF_FFFF
    && version == Decimal(a) + "." + Decimal(b) + "." + Decimal(c)
  }

  /** A plain version is three 64-bit numbers as they are printed, joined by dots: all of these and nothing else. */
  lemma PlainVersionMeaning(version: string)
    ensures PlainVersion(version) <==> exists a, b, c :: IsPrinted(version, a, b, c)
  {
    hide U64Numeral, Decimal;
    if PlainVersion(version) {
      ThreeParts(version);
      var p := SplitDots(version);
      NumeralMeaning(p[0]);
      NumeralMeaning(p[1]);
      NumeralMeaning(p[2]);
      var a: nat :| a <= 0xFFFF_FFFF_FFFF_FFFF && p[0] == Decimal(a);
      var b: nat :| b <= 0xFFFF_FFFF_FFFF_FFFF && p[1] == Decimal(b);
      var c: nat :| c <= 0xFFFF_FFFF_FFFF_FFFF && p[2] == Decimal(c);
      assert IsPrinted(version, a, b, c);
    }
    forall a, b, c | IsPrinted(version, a, b, c)
      ensures PlainVersion(version)
    {
      PrintedIsNumeral(a);
      PrintedIsNumeral(b);
      PrintedIsNumeral(c);
      JoinedIsPlain(Decimal(a), Decimal(b), Decimal(c));
    }
  }

  /** The bound behind the `end > 62` cut-off and the look-ahead of the scanner. */
  lemma PlainVersionFits(version: string)
    requires PlainVersion(version)
    ensures |version| <= MAX_VERSION
    ensures forall i :: 0 <= i < |version| ==> version[i] != '\0' && version[i] as int < 128
  {
    ThreeParts(version);
    var p := SplitDots(version);
    NumeralLength(p[0]);
    NumeralLength(p[1]);
    NumeralLength(p[2]);
  }

  function Zeros(n: nat): (s: string)
    ensures |s| == n && Digits(s)
  {
    seq(n, _ => '0')
  }

  lemma {:induction false} ValueOfPower(n: nat)
    ensures Value("1" + Zeros(n)) == Pow10(n)
  {
    var s := "1" + Zeros(n);
    if n == 0 {
      assert s == "1" && s[..0] == "";
    } else {
      ValueOfPower(n - 1);
      assert s[..|s| - 1] == "1" + Zeros(n - 1);
    }
  }

  /** The bound of 62 is attained. */
  lemma LongestPlainVersion() returns (version: string)
    ensures PlainVersion(version) && |version| == MAX_VERSION
  {
    var part := "1" + Zeros(19);
    ValueOfPower(19);
    Pow10Of20();
    assert Pow10(20) == 10 * Pow10(19);
    assert U64Numeral(part);
    version := part + "." + part + "." + part;
    JoinedIsPlain(part, part, part);
  }

  // ---------- the whole-buffer specification ----------

  datatype Reason =
    | InvalidExpected | TooLarge | Duplicate | BadHeader | BadSuffix | NotAscii | Mismatch | Missing

  datatype Verdict = Accepted | Rejected(reason: Reason)

  /** `s[lo:hi]` in Python: both ends are clamped to the length. */
  function Slice(s: string, lo: nat, hi: nat): string
    requires lo <= hi
  {
    if lo >= |s| then "" else if hi >= |s| then s[lo..] else s[lo..hi]
  }

  predicate Ascii(s: string)
  {
    forall i :: 0 <= i < |s| ==> s[i] as int < 128
  }

  /** What is wrong with the bytes after a record's header. */
  function TailFault(tail: string, expected: string): Option<Reason>
  {
    var end := Find(tail, "\0", 0);
    if end < 0 || end > MAX_VERSION || Slice(tail, end, end + |SUFFIX|) != SUFFIX then Some(BadSuffix)
    else if !Ascii(tail[..end]) then Some(NotAscii)
    else if !PlainVersion(tail[..end]) || tail[..end] != expected then Some(Mismatch)
    else None
  }

  /** What is wrong with the record around the magic found at `offset`. */
  function RecordFault(window: string, offset: nat, expected: string): Option<Reason>
    requires offset <= |window|
  {
    if offset == 0 || Slice(window, offset - 1, offset - 1 + |HEADER|) != HEADER then Some(BadHeader)
    else TailFault(window[offset - 1 + |HEADER|..], expected)
  }

  /** The check on the whole binary at once: every occurrence of the magic from `from` on, in order. */
  ghost function Scan(data: string, from: nat, found: bool, expected: string): Verdict
    decreases |data| - from
  {
    var offset := Find(data, MAGIC, from);
    if offset == -1 then (if found then Accepted else Rejected(Missing))
    else if found then Rejected(Duplicate)
    else
      match RecordFault(data, offset, expected)
      case Some(reason) => Rejected(reason)
      case None => Scan(data, offset + 1, true, expected)
  }

  /** The record of version `expected` lies in `data` with its magic at `p`. */
  ghost predicate RecordAt(data: string, expected: string, p: int)
  {
    OccursAt(data, HEADER + expected + SUFFIX, p - 1)
  }

  /** The magic occurs exactly once, inside the record of the expected version. */
  ghost predicate CarriesIdentity(data: string, expected: string)
  {
    exists p :: RecordAt(data, expected, p) && forall q :: OccursAt(data, MAGIC, q) <==> q == p
  }

  // ---------- facts about the specification ----------

  lemma {:induction false} ScanSkips(data: string, from: nat, to: nat, found: bool, expected: string)
    requires from <= to
    requires forall i :: from <= i < to ==> !OccursAt(data, MAGIC, i)
    ensures Scan(data, from, found, expected) == Scan(data, to, found, expected)
  {
    var a, b := Find(data, MAGIC, from), Find(data, MAGIC, to);
    assert a != -1 ==> to <= a;
    assert a == b;
  }

  /** A window lies in the data: it agrees with them wherever both are defined. */
  ghost predicate Window(data: string, base: nat, window: string)
  {
    base + |window| <= |data| && window == data[base..base + |window|]
  }

  lemma WindowSlice(data: string, base: nat, window: string, lo: nat, hi: nat)
    requires Window(data, base, window) && lo <= hi <= |window|
    ensures window[lo..hi] == data[base + lo..base + hi]
  {
    forall k | 0 <= k < hi - lo
      ensures window[lo..hi][k] == data[base + lo..base + hi][k]
    {
      assert window[lo + k] == data[base + (lo + k)];
    }
  }

  lemma WindowOccurs(data: string, base: nat, window: string, needle: string, i: nat)
    requires Window(data, base, window) && i + |needle| <= |window|
    ensures OccursAt(window, needle, i) <==> OccursAt(data, needle, base + i)
  {
    WindowSlice(data, base, window, i, i + |needle|);
  }

  lemma WindowClamp(data: string, base: nat, window: string, lo: nat, hi: nat)
    requires Window(data, base, window) && lo <= hi
    requires hi <= |window| || base + |window| == |data|
    ensures Slice(window, lo, hi) == Slice(data, base + lo, base + hi)
  {
    if lo < |window| {
      WindowSlice(data, base, window, lo, if hi < |window| then hi else |window|);
    }
  }

  lemma TailFaultLocal(tail: string, full: string, expected: string)
    requires tail <= full
    requires tail == full || |tail| >= MAX_VERSION + |SUFFIX|
    ensures TailFault(tail, expected) == TailFault(full, expected)
  {
    hide PlainVersion, Find, OccursAt, Slice, SUFFIX, Ascii;
    SameFirstNul(tail, full);
    SuffixStarts();
    var end := Find(tail, "\0", 0);
    if 0 <= end <= MAX_VERSION {
      WindowClamp(full, 0, tail, end, end + |SUFFIX|);
      assert tail[..end] == full[..end];
    }
  }

  /** The first NUL of a text is that of every longer one; without one, theirs lies behind it. */
  lemma SameFirstNul(tail: string, full: string)
    requires tail <= full
    ensures var end, fullEnd := Find(tail, "\0", 0), Find(full, "\0", 0);
      && end <= |tail| && (end >= 0 ==> end == fullEnd) && (end < 0 ==> fullEnd < 0 || fullEnd >= |tail|)
  {
    forall i: nat | i < |tail|
      ensures OccursAt(tail, "\0", i) <==> OccursAt(full, "\0", i)
    {
      WindowOccurs(full, 0, tail, "\0", i);
    }
  }

  lemma SliceInside(s: string, at: nat, needle: string)
    requires Slice(s, at, at + |needle|) == needle && at < |s|
    ensures at + |needle| <= |s|
  {
  }

  lemma WindowTail(data: string, base: nat, window: string, from: nat)
    requires Window(data, base, window) && from <= |window|
    ensures base + from <= |data| && window[from..] <= data[base + from..]
    ensures base + |window| == |data| ==> window[from..] == data[base + from..]
  {
    WindowSlice(data, base, window, from, |window|);
  }

  /** A record check sees everything it needs once `MAX_RECORD` bytes follow, or the data ends. */
  lemma RecordFaultLocal(data: string, base: nat, window: string, offset: nat, expected: string)
    requires Window(data, base, window)
    requires offset == 0 ==> base == 0
    requires offset < |window|
    requires offset - 1 + MAX_RECORD <= |window| || base + |window| == |data|
    ensures RecordFault(window, offset, expected) == RecordFault(data, base + offset, expected)
  {
    hide TailFault, HEADER, SUFFIX, Slice, Window;
    if offset > 0 {
      var at := offset - 1;
      WindowClamp(data, base, window, at, at + |HEADER|);
      if Slice(window, at, at + |HEADER|) == HEADER {
        SliceInside(window, at, HEADER);
        WindowTail(data, base, window, at + |HEADER|);
        TailFaultLocal(window[at + |HEADER|..], data[base + at + |HEADER|..], expected);
      }
    }
  }

  /** Window positions without the needle have no needle in the data either, once the needle fits in the window. */
  lemma WindowAbsent(data: string, base: nat, window: string, needle: string, from: nat, to: nat)
    requires Window(data, base, window) && needle != ""
    requires from == to || to - 1 + |needle| <= |window| || base + |window| == |data|
    requires forall i :: from <= i < to ==> !OccursAt(window, needle, i)
    ensures forall i :: base + from <= i < base + to ==> !OccursAt(data, needle, i)
  {
    forall i | base + from <= i < base + to
      ensures !OccursAt(data, needle, i)
    {
      assert !OccursAt(window, needle, i - base);
      if i + |needle| <= base + |window| {
        WindowOccurs(data, base, window, needle, i - base);
      }
    }
  }

  lemma WindowScan(data: string, base: nat, window: string, from: nat, to: nat, found: bool, expected: string)
    requires Window(data, base, window)
    requires from <= to
    requires from == to || to + MAX_RECORD <= |window| || base + |window| == |data| || OccursAt(window, MAGIC, to)
    requires forall i :: from <= i < to ==> !OccursAt(window, MAGIC, i)
    ensures Scan(data, base + from, found, expected) == Scan(data, base + to, found, expected)
  {
    hide Scan;
    WindowAbsent(data, base, window, MAGIC, from, to);
    ScanSkips(data, base + from, base + to, found, expected);
  }

  /** What the whole-buffer scan decides at an occurrence that the window shows. */
  lemma WindowHit(data: string, base: nat, window: string, offset: nat, found: bool, expected: string)
    requires Window(data, base, window) && OccursAt(window, MAGIC, offset)
    requires offset == 0 ==> base == 0
    requires offset + MAX_RECORD <= |window| || base + |window| == |data|
    ensures Scan(data, base + offset, found, expected) ==
      if found then Rejected(Duplicate)
      else match RecordFault(window, offset, expected)
        case Some(reason) => Rejected(reason)
        case None => Scan(data, base + offset + 1, true, expected)
    ensures RecordFault(window, offset, expected) !in {Some(Missing), Some(TooLarge)}
  {
    hide PlainVersion;
    WindowOccurs(data, base, window, MAGIC, offset);
    RecordFaultLocal(data, base, window, offset, expected);
  }

  lemma ScanEnds(data: string, found: bool, expected: string)
    ensures Scan(data, |data|, found, expected) == if found then Accepted else Rejected(Missing)
  {
  }

  lemma OccursConcat(s: string, a: string, b: string, i: int)
    ensures OccursAt(s, a + b, i) <==> OccursAt(s, a, i) && OccursAt(s, b, i + |a|)
  {
    if 0 <= i && i + |a| + |b| <= |s| {
      var whole := s[i..i + |a| + |b|];
      assert whole[..|a|] == s[i..i + |a|] && whole[|a|..] == s[i + |a|..i + |a| + |b|];
      assert whole == whole[..|a|] + whole[|a|..];
      assert (a + b)[..|a|] == a && (a + b)[|a|..] == b;
    }
  }

  lemma SliceOccurs(s: string, needle: string, i: nat)
    ensures i <= |s| ==> (Slice(s, i, i + |needle|) == needle <==> OccursAt(s, needle, i))
  {
  }

  lemma SuffixStarts()
    ensures SUFFIX != "" && SUFFIX[0] == '\0'
  {
  }

  lemma TailFaultMeaning(tail: string, expected: string)
    requires PlainVersion(expected)
    ensures TailFault(tail, expected) == None <==> OccursAt(tail, expected + SUFFIX, 0)
  {
    hide PlainVersion, SUFFIX;
    PlainVersionFits(expected);
    SuffixStarts();
    OccursConcat(tail, expected, SUFFIX, 0);
    var end := Find(tail, "\0", 0);
    if TailFault(tail, expected) == None {
      SliceOccurs(tail, SUFFIX, end);
    }
    if OccursAt(tail, expected + SUFFIX, 0) {
      forall i | 0 <= i < |expected|
        ensures !OccursAt(tail, "\0", i)
      {
        assert tail[i..i + 1][0] == tail[..|expected|][i] == expected[i];
      }
      assert tail[|expected|..|expected| + |SUFFIX|][0] == '\0';
      assert OccursAt(tail, "\0", |expected|);
      SliceOccurs(tail, SUFFIX, end);
    }
  }

  lemma RecordFaultMeaning(data: string, p: nat, expected: string)
    requires PlainVersion(expected) && p <= |data|
    ensures RecordFault(data, p, expected) == None <==> RecordAt(data, expected, p)
  {
    hide PlainVersion, TailFault, HEADER, SUFFIX;
    assert HEADER + expected + SUFFIX == HEADER + (expected + SUFFIX);
    OccursConcat(data, HEADER, expected + SUFFIX, p - 1);
    if p > 0 {
      SliceOccurs(data, HEADER, p - 1);
      if OccursAt(data, HEADER, p - 1) {
        var at := p - 1 + |HEADER|;
        TailFaultMeaning(data[at..], expected);
        if |expected + SUFFIX| <= |data| - at {
          WindowOccurs(data, at, data[at..], expected + SUFFIX, 0);
        }
      }
    }
  }

  /** The ordered scan accepts exactly the binaries that carry one identity record of the expected version. */
  lemma ScanMeaning(data: string, expected: string)
    requires PlainVersion(expected)
    ensures Scan(data, 0, false, expected) == Accepted <==> CarriesIdentity(data, expected)
  {
    hide PlainVersion, RecordFault, MAGIC, HEADER, SUFFIX;
    var o := Find(data, MAGIC, 0);
    if CarriesIdentity(data, expected) {
      var p :| RecordAt(data, expected, p) && forall q :: OccursAt(data, MAGIC, q) <==> q == p;
      assert OccursAt(data, MAGIC, p);
    }
    if o != -1 {
      RecordFaultMeaning(data, o, expected);
      assert forall q :: OccursAt(data, MAGIC, q) ==> o <= q;
      var next := Find(data, MAGIC, o + 1);
      assert Scan(data, o + 1, true, expected) == if next == -1 then Accepted else Rejected(Duplicate);
      if Scan(data, 0, false, expected) == Accepted {
        assert RecordAt(data, expected, o);
        assert forall q :: OccursAt(data, MAGIC, q) <==> q == o;
      }
      if CarriesIdentity(data, expected) {
        assert next == -1;
      }
    }
  }

  function Flatten(chunks: seq<string>): string
  {
    if chunks == [] then "" else chunks[0] + Flatten(chunks[1..])
  }

  lemma {:induction false} FlattenStep(chunks: seq<string>, k: nat)
    requires k < |chunks|
    ensures Flatten(chunks[..k + 1]) == Flatten(chunks[..k]) + chunks[k]
    ensures Flatten(chunks) == Flatten(chunks[..k]) + chunks[k] + Flatten(chunks[k + 1..])
  {
    if k > 0 {
      FlattenStep(chunks[1..], k - 1);
      var first, some, next, last :=
        chunks[0], Flatten(chunks[1..][..k - 1]), chunks[1..][k - 1], Flatten(chunks[1..][k..]);
      assert chunks[..k + 1][1..] == chunks[1..][..k] && chunks[..k][1..] == chunks[1..][..k - 1];
      assert chunks[1..][k..] == chunks[k + 1..];
      Assoc(first, some, next);
      Assoc(first, some + next, last);
    } else {
      assert chunks[..1][1..] == [];
    }
  }

  lemma FlattenEnds(chunks: seq<string>)
    ensures Flatten(chunks[..0]) == "" && Flatten(chunks[..|chunks|]) == Flatten(chunks)
    ensures Window(Flatten(chunks), 0, "")
  {
    assert chunks[..|chunks|] == chunks;
  }

  lemma WindowGrows(data: string, base: nat, window: string, pre: string, chunk: string, post: string)
    requires Window(data, base, window) && base + |window| == |pre| && data == pre + chunk + post
    ensures Window(data, base, window + chunk)
  {
    assert data[..|pre| + |chunk|] == pre + chunk;
    assert data[base..|pre| + |chunk|] == data[base..|pre|] + chunk;
  }

  lemma WindowShrinks(data: string, base: nat, window: string, discard: nat)
    requires Window(data, base, window) && discard <= |window|
    ensures Window(data, base + discard, window[discard..])
  {
    WindowSlice(data, base, window, discard, |window|);
  }

  /** The inner loop: every occurrence of the magic in `window[scanned..scanEnd]` is checked, in order. */
  method ScanWindow(window: string, scanned: nat, scanEnd: nat, wasFound: bool, expected: string,
                    ghost data: string, ghost base: nat)
    returns (fault: Option<Reason>, found: bool)
    requires Window(data, base, window) && scanned <= scanEnd
    requires scanned == 0 ==> base == 0
    requires scanEnd == 0 || scanEnd + MAX_RECORD <= |window| || base + |window| == |data|
    ensures match fault
      case Some(reason) =>
        Scan(data, base + scanned, wasFound, expected) == Rejected(reason) && reason !in {Missing, TooLarge}
      case None =>
        Scan(data, base + scanned, wasFound, expected) == Scan(data, base + scanEnd, found, expected)
  {
    hide Scan, RecordFault, Window, MAGIC, HEADER, SUFFIX;
    found := wasFound;
    var offset := Find(window, MAGIC, scanned);
    ghost var next: nat := scanned;
    while offset != -1 && offset < scanEnd
      invariant scanned <= next <= scanEnd && offset == Find(window, MAGIC, next)
      invariant Scan(data, base + scanned, wasFound, expected) == Scan(data, base + next, found, expected)
      decreases |window| - next
    {
      WindowScan(data, base, window, next, offset, found, expected);
      WindowHit(data, base, window, offset, found, expected);
      if found {
        return Some(Duplicate), found;
      }
      fault := RecordFault(window, offset, expected);
      if fault.Some? {
        return fault, found;
      }
      found := true;
      next := offset + 1;
      offset := Find(window, MAGIC, offset + 1);
    }
    WindowScan(data, base, window, next, scanEnd, found, expected);
    fault := None;
  }

  /** Where the check stands after the first `k` reads: what the window shows, and what is left of the whole scan. */
  ghost predicate Between(chunks: seq<string>, k: nat, base: nat, window: string, scanned: nat, found: bool,
                          expected: string)
  {
    && k <= |chunks| && base + |window| == |Flatten(chunks[..k])|
    && Window(Flatten(chunks), base, window)
    && scanned <= 1 && (base > 0 ==> scanned == 1)
    && (if scanned == 0 then |window| <= MAX_RECORD else |window| == MAX_RECORD + 1)
    && Scan(Flatten(chunks), 0, false, expected) == Scan(Flatten(chunks), base + scanned, found, expected)
  }

  lemma AtStart(chunks: seq<string>, expected: string)
    ensures Between(chunks, 0, 0, "", 0, false, expected)
  {
    hide Scan, Window;
    FlattenEnds(chunks);
  }

  /** How far the magic is looked for once a chunk, or the end of the data, has been read. */
  function ScanEnd(window: string, chunk: string): nat
  {
    if chunk == "" then |window| else if |window| > MAX_RECORD then |window| - MAX_RECORD else 0
  }

  lemma AfterRead(chunks: seq<string>, k: nat, base: nat, window: string, scanned: nat, found: bool, expected: string,
                  chunk: string)
    requires Between(chunks, k, base, window, scanned, found, expected)
    requires chunk == if k < |chunks| then chunks[k] else ""
    requires k < |chunks| ==> 0 < |chunk| <= READ_SIZE
    ensures var data, shown, end := Flatten(chunks), window + chunk, ScanEnd(window + chunk, chunk);
      && Window(data, base, shown) && scanned <= end && (scanned == 0 ==> base == 0)
      && (end == 0 || end + MAX_RECORD <= |shown| || base + |shown| == |data|)
      && (chunk == "" ==> base + end == base + |shown| == |data|)
      && |shown| <= MAX_RECORD + 1 + READ_SIZE
      && scanned <= 1 && (base > 0 ==> scanned == 1) && (scanned == 1 ==> |shown| > MAX_RECORD)
      && Scan(data, 0, false, expected) == Scan(data, base + scanned, found, expected)
    ensures k < |chunks| ==> base + |window + chunk| == |Flatten(chunks[..k + 1])| <= |Flatten(chunks)|
  {
    hide Scan, Window, Flatten, HEADER, SUFFIX;
    if k < |chunks| {
      FlattenStep(chunks, k);
      WindowGrows(Flatten(chunks), base, window, Flatten(chunks[..k]), chunk, Flatten(chunks[k + 1..]));
    } else {
      FlattenEnds(chunks);
      assert window + chunk == window;
    }
  }

  /** The rest of an iteration: one byte of left context and one record of look-ahead stay in the window. */
  lemma AfterScan(chunks: seq<string>, k: nat, base: nat, window: string, scanned: nat, found: bool, expected: string)
    requires k < |chunks| && chunks[k] != "" && base + |window| == |Flatten(chunks[..k + 1])|
    requires Window(Flatten(chunks), base, window)
    requires scanned <= 1 && (base > 0 ==> scanned == 1) && (scanned == 1 ==> |window| > MAX_RECORD)
    requires var data, end := Flatten(chunks), ScanEnd(window, chunks[k]);
      Scan(data, 0, false, expected) == Scan(data, base + end, found, expected)
    ensures var end := ScanEnd(window, chunks[k]);
      var discard := if end > 0 then end - 1 else 0;
      && discard <= end <= |window|
      && Between(chunks, k + 1, base + discard, window[discard..], end - discard, found, expected)
  {
    hide Scan, Window, Flatten, HEADER, SUFFIX;
    var end := ScanEnd(window, chunks[k]);
    var discard := if end > 0 then end - 1 else 0;
    WindowShrinks(Flatten(chunks), base, window, discard);
  }

  /**
   The streaming check. `chunks` are the non-empty results of the reads that precede end of file; the bounded window
   decides what the whole buffer decides, for every way of cutting the data into reads.
   */
  method VerifyMarker(chunks: seq<string>, expected: string) returns (verdict: Verdict, ghost peak: nat)
    requires forall c | c in chunks :: 0 < |c| <= READ_SIZE
    ensures !PlainVersion(expected) ==> verdict == Rejected(InvalidExpected)
    ensures verdict == Accepted <==>
      PlainVersion(expected) && |Flatten(chunks)| <= MAX_BINARY_BYTES && CarriesIdentity(Flatten(chunks), expected)
    ensures PlainVersion(expected) && verdict != Rejected(TooLarge) ==>
      verdict == Scan(Flatten(chunks), 0, false, expected)
    ensures PlainVersion(expected) && verdict == Rejected(TooLarge) ==> |Flatten(chunks)| > MAX_BINARY_BYTES
    ensures peak <= MAX_RECORD + 1 + READ_SIZE
  {
    hide Scan, PlainVersion, CarriesIdentity, Window, Flatten, Between, ScanEnd, HEADER, SUFFIX;
    peak := 0;
    if !PlainVersion(expected) {
      return Rejected(InvalidExpected), peak;
    }
    ghost var data := Flatten(chunks);
    ghost var base: nat := 0;
    var window, found, total := "", false, 0;
    var scanned: nat, k: nat := 0, 0;
    AtStart(chunks, expected);
    FlattenEnds(chunks);
    ScanMeaning(data, expected);
    while true
      invariant k <= |chunks| && total == base + |window| == |Flatten(chunks[..k])| <= MAX_BINARY_BYTES
      invariant Between(chunks, k, base, window, scanned, found, expected)
      invariant peak <= MAX_RECORD + 1 + READ_SIZE
      decreases |chunks| - k
    {
      var chunk := if k < |chunks| then chunks[k] else "";
      total := total + |chunk|;
      AfterRead(chunks, k, base, window, scanned, found, expected, chunk);
      if total > MAX_BINARY_BYTES {
        return Rejected(TooLarge), peak;
      }
      window := window + chunk;
      peak := if |window| > peak then |window| else peak;
      var scanEnd := ScanEnd(window, chunk);
      var fault;
      fault, found := ScanWindow(window, scanned, scanEnd, found, expected, data, base);
      if fault.Some? {
        return Rejected(fault.value), peak;
      }
      if chunk == "" {
        ScanEnds(data, found, expected);
        break;
      }
      var discard := if scanEnd > 0 then scanEnd - 1 else 0;
      AfterScan(chunks, k, base, window, scanned, found, expected);
      window := window[discard..];
      scanned := scanEnd - discard;
      base := base + discard;
      k := k + 1;
    }
    return if found then Accepted else Rejected(Missing), peak;
  }
}
