/** Small facts about concatenation that proofs elsewhere take one at a time. */
module Sequences {

  lemma Regroup<T>(a: seq<T>, b: seq<T>, c: seq<T>)
    ensures (a + b) + c == a + (b + c)
  {
  }

  lemma SuffixCancels<T>(a: seq<T>, b: seq<T>, e: seq<T>)
    requires |a| == |b| && a + e == b + e
    ensures a == b
  {
    assert (a + e)[..|a|] == a && (b + e)[..|b|] == b;
  }

  lemma SliceOfSlice<T>(a: seq<T>, tail: seq<T>, at: nat, e: seq<T>, h: nat)
    requires h <= |e| && at + |e| <= |a| && a[at..at + |e|] == e
    ensures (a + tail)[at..at + h] == e[..h]
  {
    assert (a + tail)[at..at + h] == a[at..at + |e|][..h];
  }
}
