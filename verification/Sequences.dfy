/** Facts about concatenation. */
module Sequences {
  lemma Assoc<T>(a: seq<T>, b: seq<T>, c: seq<T>)
    ensures a + (b + c) == (a + b) + c
    ensures a + [] == a && [] + b == b && [] + c == c
  {
  }

  /** Each part of a concatenation is where the lengths of the parts before it say. */
  lemma Parts<T>(p: seq<T>, a: seq<T>, b: seq<T>, c: seq<T>)
    ensures var u, i, j := p + (a + (b + c)), |p| + |a|, |p| + |a| + |b|;
      |u| == j + |c| && u[..|p|] == p && u[|p|..i] == a && u[i..j] == b && u[j..] == c
  {
    var u, i := p + (a + (b + c)), |p| + |a|;
    Cut(p, a + (b + c));
    Cut(a, b + c);
    Cut(b, c);
    Within(u, |p|, 0, |a|);
    Within(u, |p|, |a|, |u| - |p|);
    Within(u, i, 0, |b|);
    Within(u, i, |b|, |u| - i);
    assert u[|p|..][0..|a|] == a && u[|p|..][|a|..|u| - |p|] == b + c;
    assert u[i..] == b + c && u[i..][0..|b|] == b && u[i..][|b|..|u| - i] == c;
  }

  lemma Cut<T>(a: seq<T>, b: seq<T>)
    ensures (a + b)[..|a|] == a && (a + b)[|a|..] == b
  {
  }

  lemma Within<T>(u: seq<T>, i: nat, x: nat, y: nat)
    requires x <= y && i + y <= |u|
    ensures u[i..][x..y] == u[i + x..i + y]
  {
  }

  lemma FrontStep<T>(s: seq<T>, k: nat)
    requires 0 < k <= |s|
    ensures s == [s[0]] + s[1..] && s[..k] == [s[0]] + s[1..][..k - 1]
  {
  }
}
