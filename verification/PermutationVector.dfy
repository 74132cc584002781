/** Counting sort that yields a permutation vector: offsets into the input which
would put it in ascending order, ties in input order. */
module PermutationVector {
  import opened Finite
  import opened Guard

  /** How many of the values are `v`. */
  function CountEq(s: seq<nat>, v: nat): nat {
    if s == [] then 0 else CountEq(s[..|s| - 1], v) + if s[|s| - 1] == v then 1 else 0
  }

  /** How many of the values are below `v`. */
  function CountLess(s: seq<nat>, v: nat): nat {
    if v == 0 then 0 else CountLess(s, v - 1) + CountEq(s, v - 1)
  }

  /** `out` lists the offsets of `s` by ascending value, equal values in input order. */
  ghost predicate IsSortingPermutation(s: seq<nat>, out: seq<nat>) {
    && |out| == |s|
    && IsPermutation(out)
    && (forall i, j :: 0 <= i < j < |out| ==> Before(s, out[i], out[j]))
  }

  predicate Before(s: seq<nat>, p: nat, q: nat)
    requires p < |s| && q < |s|
  {
    s[p] < s[q] || (s[p] == s[q] && p < q)
  }

  /** Where the sort places offset `p`. */
  function Rank(s: seq<nat>, p: nat): nat
    requires p < |s|
  {
    CountLess(s, s[p]) + CountEq(s[..p], s[p])
  }

  lemma CountEqAppend(s: seq<nat>, p: nat, v: nat)
    requires p < |s|
    ensures CountEq(s[..p + 1], v) == CountEq(s[..p], v) + if s[p] == v then 1 else 0
  {
    assert s[..p + 1][..p] == s[..p];
  }

  lemma {:induction false} CountEqPrefix(s: seq<nat>, p: nat, q: nat, v: nat)
    requires p <= q <= |s|
    ensures CountEq(s[..p], v) <= CountEq(s[..q], v)
    decreases q
  {
    if p < q {
      CountEqAppend(s, q - 1, v);
      CountEqPrefix(s, p, q - 1, v);
    }
  }

  /** Appending a value raises the counts above it by one. */
  lemma {:induction false} CountLessAppend(s: seq<nat>, v: nat)
    requires s != []
    ensures CountLess(s, v) == CountLess(s[..|s| - 1], v) + if s[|s| - 1] < v then 1 else 0
    decreases v
  {
    if v > 0 {
      CountLessAppend(s, v - 1);
    }
  }

  lemma {:induction false} CountLessEmpty(v: nat)
    ensures CountLess([], v) == 0
  {
    if v > 0 {
      CountLessEmpty(v - 1);
    }
  }

  lemma {:induction false} CountLessBound(s: seq<nat>, v: nat)
    ensures CountLess(s, v) <= |s|
    decreases |s|
  {
    if s == [] {
      CountLessEmpty(v);
    } else {
      CountLessAppend(s, v);
      CountLessBound(s[..|s| - 1], v);
    }
  }

  lemma {:induction false} CountLessMonotonic(s: seq<nat>, u: nat, v: nat)
    requires u <= v
    ensures CountLess(s, u) <= CountLess(s, v)
    decreases v
  {
    if u < v {
      CountLessMonotonic(s, u, v - 1);
    }
  }

  lemma RankWithinValue(s: seq<nat>, p: nat)
    requires p < |s|
    ensures CountLess(s, s[p]) <= Rank(s, p) < CountLess(s, s[p] + 1)
  {
    CountEqAppend(s, p, s[p]);
    CountEqPrefix(s, p + 1, |s|, s[p]);
    assert s[..|s|] == s;
  }

  /** The placement respects the order, so no two offsets collide. */
  lemma RankOrder(s: seq<nat>, p: nat, q: nat)
    requires p < |s| && q < |s| && Before(s, p, q)
    ensures Rank(s, p) < Rank(s, q)
  {
    RankWithinValue(s, p);
    RankWithinValue(s, q);
    if s[p] < s[q] {
      CountLessMonotonic(s, s[p] + 1, s[q]);
    } else {
      CountEqAppend(s, p, s[p]);
      CountEqPrefix(s, p + 1, q, s[p]);
    }
  }

  lemma RankBound(s: seq<nat>, p: nat)
    requires p < |s|
    ensures Rank(s, p) < |s|
  {
    RankWithinValue(s, p);
    CountLessBound(s, s[p] + 1);
  }

  /** A vector filled by rank is the sorting permutation. */
  lemma RankedIsSorting(s: seq<nat>, out: seq<nat>)
    requires |out| == |s|
    requires forall p :: 0 <= p < |s| ==> RankedAt(s, out, p)
    ensures IsSortingPermutation(s, out)
  {
    var ranks := seq(|s|, p requires 0 <= p < |s| => Rank(s, p));
    forall p | 0 <= p < |s|
      ensures ranks[p] < |s|
    {
      RankBound(s, p);
    }
    forall p, q | 0 <= p < q < |s|
      ensures ranks[p] != ranks[q]
    {
      if Before(s, p, q) {
        RankOrder(s, p, q);
      } else {
        RankOrder(s, q, p);
      }
    }
    forall i | 0 <= i < |s|
      ensures out[i] < |s| && Rank(s, out[i]) == i
    {
      PermutationOnto(ranks, i);
      var p :| 0 <= p < |s| && ranks[p] == i;
      assert RankedAt(s, out, p);
    }
    forall i, j | 0 <= i < j < |s|
      ensures out[i] != out[j] && Before(s, out[i], out[j])
    {
      assert Rank(s, out[i]) == i && Rank(s, out[j]) == j;
      if !Before(s, out[i], out[j]) && out[i] != out[j] {
        RankOrder(s, out[j], out[i]);
      }
    }
  }

  ghost predicate RankedAt(s: seq<nat>, out: seq<nat>, p: nat)
    requires p < |s|
  {
    Rank(s, p) < |out| && out[Rank(s, p)] == p
  }

  /** The sort itself, on the first `length` entries of `input`. */
  method Compute(length: nat, maxValue: nat, input: array<nat>) returns (out: array<nat>)
    requires length <= input.Length
    requires forall i :: 0 <= i < length ==> input[i] <= maxValue
    ensures out.Length == length && fresh(out)
    ensures IsSortingPermutation(input[..length], out[..])
  {
    ghost var s := input[..length];
    out := new nat[length];
    var counts := CountValues(length, maxValue, input);
    Cumulate(counts, s);
    PlacingBegins(s, counts[..], out[..]);
    PlaceOffsets(length, input, counts, out);
  }

  method PlaceOffsets(length: nat, input: array<nat>, counts: array<nat>, out: array<nat>)
    requires length <= input.Length && out.Length == length && counts != out && input != counts && input != out
    requires Placing(input[..length], counts[..], out[..], length)
    modifies counts, out
    ensures IsSortingPermutation(input[..length], out[..])
  {
    ghost var s := input[..length];
    var i := 0;
    while i < length
      invariant 0 <= i <= length && input[..length] == s
      invariant Placing(s, counts[..], out[..], length - i)
    {
      var pos: nat := length - i - 1;
      var value := input[pos];
      assert value == s[pos];
      ghost var c, o := counts[..], out[..];
      PlaceOne(s, c, o, length - i);
      counts[value] := counts[value] - 1;
      out[counts[value]] := pos;
      assert counts[..] == c[value := c[value] - 1] && out[..] == o[c[value] - 1 := pos];
      i := i + 1;
    }
    PlacingEnds(s, counts[..], out[..]);
  }

  /** The backward sweep with the first `k` offsets still to place. */
  ghost predicate Placing(s: seq<nat>, counts: seq<nat>, out: seq<nat>, k: nat) {
    && k <= |s| == |out|
    && (forall p :: 0 <= p < |s| ==> s[p] < |counts|)
    && forall b {:trigger Look(b)} :: Look(b) ==>
         && (forall v :: 0 <= v < |counts| ==> counts[v] == CountLess(s, v) + CountEq(s[..k], v))
         && (forall p :: k <= p < |s| ==> RankedAt(s, out, p))
  }

  lemma PlacingBegins(s: seq<nat>, counts: seq<nat>, out: seq<nat>)
    requires |out| == |s| && Cumulated(s, counts, |counts|)
    requires forall p :: 0 <= p < |s| ==> s[p] < |counts|
    ensures Placing(s, counts, out, |s|)
  {
    assert s[..|s|] == s;
  }

  lemma PlacingEnds(s: seq<nat>, counts: seq<nat>, out: seq<nat>)
    requires Placing(s, counts, out, 0)
    ensures IsSortingPermutation(s, out)
  {
    assert Look(true);
    RankedIsSorting(s, out);
  }

  lemma PlaceOne(s: seq<nat>, counts: seq<nat>, out: seq<nat>, k: nat)
    requires Placing(s, counts, out, k) && 0 < k
    ensures 0 < counts[s[k - 1]] <= |out|
    ensures var c := counts[s[k - 1]] - 1;
            Placing(s, counts[s[k - 1] := c], out[c := k - 1], k - 1)
  {
    assert Look(true);
    var pos := k - 1;
    var c := counts[s[pos]] - 1;
    CountEqAppend(s, pos, s[pos]);
    RankBound(s, pos);
    RanksDiffer(s, pos, |s|);
    var counts' := counts[s[pos] := c];
    forall v | 0 <= v < |counts'|
      ensures counts'[v] == CountLess(s, v) + CountEq(s[..pos], v)
    {
      CountEqAppend(s, pos, v);
    }
    var out' := out[c := pos];
    forall p | pos <= p < |s|
      ensures RankedAt(s, out', p)
    {
      assert p > pos ==> RankedAt(s, out, p);
    }
  }

  lemma RanksDiffer(s: seq<nat>, pos: nat, length: nat)
    requires pos < length == |s|
    ensures forall p :: pos < p < length ==> Rank(s, p) != Rank(s, pos)
  {
    forall p | pos < p < length
      ensures Rank(s, p) != Rank(s, pos)
    {
      if Before(s, p, pos) {
        RankOrder(s, p, pos);
      } else {
        RankOrder(s, pos, p);
      }
    }
  }

  method CountValues(length: nat, maxValue: nat, input: array<nat>) returns (counts: array<nat>)
    requires length <= input.Length
    requires forall i :: 0 <= i < length ==> input[i] <= maxValue
    ensures fresh(counts) && counts.Length == maxValue + 1
    ensures Cumulated(input[..length], counts[..], 0)
  {
    counts := new nat[maxValue + 1](_ => 0);
    for i := 0 to length
      invariant forall v :: 0 <= v <= maxValue ==> counts[v] == CountEq(input[..i], v)
    {
      forall v
        ensures CountEq(input[..i + 1], v) == CountEq(input[..i], v) + if input[i] == v then 1 else 0
      {
        CountEqAppend(input[..], i, v);
        assert input[..][..i + 1] == input[..i + 1] && input[..][..i] == input[..i];
      }
      counts[input[i]] := counts[input[i]] + 1;
    }
  }

  /** The first `i` counts include everything below their value already. */
  ghost predicate Cumulated(s: seq<nat>, counts: seq<nat>, i: nat) {
    && i <= |counts|
    && (forall v :: 0 <= v < i ==> counts[v] == CountLess(s, v) + CountEq(s, v))
    && (forall v :: i <= v < |counts| ==> counts[v] == CountEq(s, v))
  }

  lemma CumulateOne(s: seq<nat>, counts: seq<nat>, i: nat)
    requires 0 < i < |counts| && Cumulated(s, counts, i)
    ensures Cumulated(s, counts[i := counts[i] + counts[i - 1]], i + 1)
  {
    assert CountLess(s, i) == CountLess(s, i - 1) + CountEq(s, i - 1);
  }

  /** Turn counts per value into counts up to and including each value. */
  method Cumulate(counts: array<nat>, ghost s: seq<nat>)
    requires 0 < counts.Length && Cumulated(s, counts[..], 0)
    modifies counts
    ensures Cumulated(s, counts[..], counts.Length)
  {
    var i := 1;
    while i < counts.Length
      invariant 1 <= i <= counts.Length && Cumulated(s, counts[..], i)
    {
      CumulateOne(s, counts[..], i);
      ghost var before := counts[..];
      counts[i] := counts[i] + counts[i - 1];
      assert counts[..] == before[i := before[i] + before[i - 1]];
      i := i + 1;
    }
  }

  /** Sorting a permutation yields its inverse: the ranking idiom. */
  lemma SortedPermutationIsInverse(s: seq<nat>, out: seq<nat>)
    requires IsPermutation(s) && IsSortingPermutation(s, out)
    ensures forall i :: 0 <= i < |s| ==> out[i] < |s| && s[out[i]] == i
    ensures forall p :: 0 <= p < |s| ==> s[p] < |s| && out[s[p]] == p
  {
    var f := seq(|s|, i requires 0 <= i < |s| => s[out[i]]);
    forall i, j | 0 <= i < j < |s|
      ensures f[i] < f[j]
    {
      assert Before(s, out[i], out[j]);
    }
    forall i | 0 <= i < |s|
      ensures f[i] == i
    {
      IncreasingLow(f, i);
      IncreasingHigh(f, i);
    }
    forall p | 0 <= p < |s|
      ensures out[s[p]] == p
    {
      assert f[s[p]] == s[p];
      assert s[out[s[p]]] == s[p];
    }
  }

  lemma {:induction false} IncreasingLow(f: seq<nat>, i: nat)
    requires forall j, k :: 0 <= j < k < |f| ==> f[j] < f[k]
    requires i < |f|
    ensures i <= f[i]
  {
    if i > 0 {
      IncreasingLow(f, i - 1);
    }
  }

  lemma {:induction false} IncreasingHigh(f: seq<nat>, i: nat)
    requires forall j, k :: 0 <= j < k < |f| ==> f[j] < f[k]
    requires i < |f| && forall j :: 0 <= j < |f| ==> f[j] < |f|
    ensures f[i] <= i
    decreases |f| - i
  {
    if i + 1 < |f| {
      IncreasingHigh(f, i + 1);
    }
  }
}
