/** Substring search as Python's `find` and Rust's `str::find` define it. */
module Search {
  ghost predicate OccursAt(s: string, needle: string, i: int)
  {
    0 <= i <= |s| - |needle| && s[i..i + |needle|] == needle
  }

  /** The first occurrence of `needle` at or after `from`, or -1. */
  function Find(s: string, needle: string, from: nat): (r: int)
    ensures r == -1 ==> forall i :: from <= i ==> !OccursAt(s, needle, i)
    ensures r != -1 ==> from <= r && OccursAt(s, needle, r) && forall i :: from <= i < r ==> !OccursAt(s, needle, i)
    decreases |s| - from
  {
    if from + |needle| > |s| then -1
    else if s[from..from + |needle|] == needle then from
    else Find(s, needle, from + 1)
  }

  ghost predicate Contains(s: string, needle: string)
  {
    exists i :: OccursAt(s, needle, i)
  }

  lemma FindDecides(s: string, needle: string)
    ensures Find(s, needle, 0) != -1 <==> Contains(s, needle)
  {
    assert forall i :: OccursAt(s, needle, i) ==> 0 <= i;
  }

  lemma FoundInItself(q: string)
    ensures Find(q, q, 0) == 0
  {
    assert OccursAt(q, q, 0);
  }

  lemma ContainsTrans(text: string, q: string, g: string)
    requires Contains(text, q) && Contains(q, g)
    ensures Contains(text, g)
  {
    var i :| OccursAt(text, q, i);
    assert text[i..i + |q|] == q;
    ExcerptContains(text, g, i, i + |q|);
  }

  lemma ExcerptContains(whole: string, needle: string, i: nat, j: nat)
    requires i <= j <= |whole| && Contains(whole[i..j], needle)
    ensures Contains(whole, needle)
  {
    var at :| OccursAt(whole[i..j], needle, at);
    forall k | 0 <= k < |needle|
      ensures whole[i + at..i + at + |needle|][k] == needle[k]
    {
      assert whole[i..j][at..at + |needle|][k] == needle[k];
    }
    assert OccursAt(whole, needle, i + at);
  }
}
