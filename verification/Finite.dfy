/** Counting facts about finite sets and sequences. */
module Finite {

  /** The numbers `0..n`. */
  function Below(n: nat): (r: set<nat>)
    ensures |r| == n
    ensures forall v :: v in r <==> 0 <= v < n
  {
    if n == 0 then {} else Below(n - 1) + {n - 1}
  }

  lemma SubsetSize<T>(a: set<T>, b: set<T>)
    requires a <= b
    ensures |a| <= |b|
    ensures |a| == |b| ==> a == b
  {
    assert b == a + (b - a);
  }

  ghost predicate Distinct<T>(s: seq<T>) {
    forall i, j :: 0 <= i < j < |s| ==> s[i] != s[j]
  }

  function Elements<T(!new)>(s: seq<T>): (r: set<T>)
    ensures forall v :: v in r <==> v in s
  {
    set i | 0 <= i < |s| :: s[i]
  }

  lemma {:induction false} ElementsSize<T(!new)>(s: seq<T>)
    requires Distinct(s)
    ensures |Elements(s)| == |s|
    decreases |s|
  {
    if s != [] {
      var last, t := s[|s| - 1], s[..|s| - 1];
      ElementsSize(t);
      assert Elements(s) == Elements(t) + {last};
    }
  }

  /** Distinct numbers below `n` are at most `n` many. */
  lemma DistinctBelow(s: seq<nat>, n: nat)
    requires Distinct(s) && forall i :: 0 <= i < |s| ==> s[i] < n
    ensures |s| <= n
    ensures |s| == n ==> forall v :: 0 <= v < n ==> v in s
  {
    ElementsSize(s);
    SubsetSize(Elements(s), Below(n));
  }

  /** `s` holds each of `0..|s|` exactly once. */
  ghost predicate IsPermutation(s: seq<nat>) {
    Distinct(s) && forall i :: 0 <= i < |s| ==> s[i] < |s|
  }

  lemma PermutationOnto(s: seq<nat>, v: nat)
    requires IsPermutation(s) && v < |s|
    ensures v in s
  {
    DistinctBelow(s, |s|);
  }
}
