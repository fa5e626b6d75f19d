/** Saying that a sequence stands at a given place of another. */
module Slices {
  predicate At<T(==)>(s: seq<T>, p: nat, t: seq<T>) {
    p + |t| <= |s| && s[p..p + |t|] == t
  }

  lemma AtSplit<T>(s: seq<T>, p: nat, a: seq<T>, b: seq<T>)
    requires At(s, p, a + b)
    ensures At(s, p, a) && At(s, p + |a|, b) && p + |a| + |b| <= |s|
  {
    assert s[p..p + |a + b|][..|a|] == a && s[p..p + |a + b|][|a|..] == b;
  }

  lemma AtHead<T>(s: seq<T>, p: nat, t: seq<T>)
    requires At(s, p, t) && t != []
    ensures p < |s| && s[p] == t[0]
  {
    assert s[p] == s[p..p + |t|][0];
  }

  lemma AtIndex<T>(s: seq<T>, p: nat, t: seq<T>, i: nat)
    requires At(s, p, t) && i < |t|
    ensures s[p + i] == t[i]
  {
    assert s[p + i] == s[p..p + |t|][i];
  }
}
