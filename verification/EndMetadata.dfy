/** Splitting the starting classes by end metadata: end states that carry different
end IDs must not be merged. A hash table with linear probing finds the group a
state belongs to; each group is represented in the table by its first member. */
module EndMetadata {
  import opened Automata
  import opened Finite
  import opened Guard
  import opened Probing
  import opened Buckets
  import opened Classes
  import opened Refinement
  import opened InitialClasses

  /** The IDs compared for `s`; states that are not ends have none. */
  function Metadata(m: Fsm, s: nat): set<nat>
    requires s < |m.states|
  {
    if m.states[s].end then m.states[s].endIds else {}
  }

  // ----- the hash table -----

  /** The keys of the table, by state. */
  ghost function AllMetadata(m: Fsm): (md: seq<set<nat>>)
    ensures |md| == |m.states| && forall s :: 0 <= s < |md| ==> md[s] == Metadata(m, s)
  {
    seq(|m.states|, s requires 0 <= s < |m.states| => Metadata(m, s))
  }

  /** The table of one class: it holds exactly the leaders, and has room for all states. */
  ghost predicate LeaderTable(m: Fsm, hash: set<nat> -> nat, htab: seq<nat>, leaders: seq<nat>) {
    |m.states| <= |htab| && TableOf(hash, AllMetadata(m), htab, Elements(leaders))
  }

  lemma EmptyLeaders(m: Fsm, hash: set<nat> -> nat, htab: seq<nat>)
    requires |m.states| <= |htab| && 0 < |htab| && |m.states| < NO_ID
    requires forall b :: 0 <= b < |htab| ==> htab[b] == NO_ID
    ensures LeaderTable(m, hash, htab, [])
  {
    var none: seq<nat> := [];
    assert Elements(none) == {};
    EmptyTable(hash, AllMetadata(m), htab);
  }

  /** A new leader goes into the first gap of its probe sequence. */
  lemma InsertLeader(m: Fsm, hash: set<nat> -> nat, htab: seq<nat>, leaders: seq<nat>, x: nat, d: nat)
    requires LeaderTable(m, hash, htab, leaders) && x < |m.states| && x !in leaders
    requires htab[Slot(hash(Metadata(m, x)), d, |htab|)] == NO_ID
    requires forall e: nat :: e < d ==> htab[Slot(hash(Metadata(m, x)), e, |htab|)] != NO_ID
    ensures LeaderTable(m, hash, htab[Slot(hash(Metadata(m, x)), d, |htab|) := x], leaders + [x])
  {
    InsertInGap(hash, AllMetadata(m), htab, Elements(leaders), x, d);
    assert Elements(leaders + [x]) == Elements(leaders) + {x};
  }

  /** The table never fills up before the states run out. */
  lemma RoomForLeader(m: Fsm, hash: set<nat> -> nat, htab: seq<nat>, leaders: seq<nat>, x: nat) returns (d: nat)
    requires LeaderTable(m, hash, htab, leaders) && x < |m.states| && x !in leaders
    ensures d < |htab| && htab[Slot(hash(Metadata(m, x)), d, |htab|)] == NO_ID
  {
    var held := Elements(leaders);
    assert x !in held && held + {x} <= Below(|m.states|);
    SubsetSize(held + {x}, Below(|m.states|));
    d := SomeGap(hash, AllMetadata(m), htab, held, hash(Metadata(m, x)));
  }

  /** Look for the group of `x`: the bucket of its leader, or the gap where it belongs. */
  method Probe(m: Fsm, hash: set<nat> -> nat, md: array<set<nat>>, htab: array<nat>, x: nat, ghost leaders: seq<nat>)
    returns (b: nat, ghost d: nat)
    requires LeaderTable(m, hash, htab[..], leaders) && x < |m.states| && x !in leaders
    requires md.Length == |m.states| && forall s :: 0 <= s < md.Length ==> md[s] == Metadata(m, s)
    ensures b == Slot(hash(Metadata(m, x)), d, htab.Length)
    ensures htab[b] != NO_ID ==> htab[b] in leaders && htab[b] < |m.states| && Metadata(m, htab[b]) == Metadata(m, x)
    ensures htab[b] == NO_ID ==> forall y :: y in leaders ==> Metadata(m, x) != Metadata(m, y)
    ensures forall e: nat :: e < d ==> htab[Slot(hash(Metadata(m, x)), e, htab.Length)] != NO_ID
  {
    ghost var t, keys, held := htab[..], AllMetadata(m), Elements(leaders);
    ghost var gap := RoomForLeader(m, hash, t, leaders, x);
    var h := hash(md[x]);
    var i := 0;
    b := Slot(h, 0, htab.Length);
    HeldBelow(hash, keys, t, held, b);
    while htab[b] != NO_ID && md[htab[b]] != md[x]
      invariant 0 <= i <= gap && b == Slot(h, i, htab.Length)
      invariant htab[b] != NO_ID ==> htab[b] in held && htab[b] < |m.states|
      invariant forall e: nat :: e < i ==> Mismatch(hash, keys, t, keys[x], e)
      decreases gap - i
    {
      assert Mismatch(hash, keys, t, keys[x], i);
      i := i + 1;
      b := Slot(h, i, htab.Length);
      HeldBelow(hash, keys, t, held, b);
    }
    d := i;
    if htab[b] == NO_ID {
      GapMeansNew(hash, keys, t, held, keys[x], d);
      assert forall y :: y in leaders ==> y in held;
    }
    forall e: nat | e < d
      ensures htab[Slot(h, e, htab.Length)] != NO_ID
    {
      assert Mismatch(hash, keys, t, keys[x], e);
    }
  }

  // ----- regrouping one class -----

  /** Class `ec` of `lists0` is being regrouped and `k` of its members are placed: `keep`
      stays, every other group is a new class at the end, led by its first member. */
  ghost predicate Regrouping(m: Fsm, lists0: seq<seq<nat>>, lists: seq<seq<nat>>, ec: nat, k: nat, keep: seq<nat>,
                             leaders: seq<nat>)
  {
    && ec < |lists0| <= |lists| && k <= |lists0[ec]|
    && (forall i, s {:trigger s in lists[i]} :: 0 <= i < |lists| && s in lists[i] ==> s < |m.states|)
    && (forall i :: 0 <= i < |lists0| && i != ec ==> lists[i] == lists0[i])
    && lists[ec] == keep + lists0[ec][k..]
    && (keep == [] <==> k == 0)
    && (forall i :: |lists0| <= i < |lists| ==> lists[i] != [])
    && |leaders| == (if k == 0 then 0 else 1) + |lists| - |lists0|
    && (k == 0 ==> leaders == [])
    && (k > 0 ==> leaders[0] == keep[0] && forall i :: |lists0| <= i < |lists| ==>
                    leaders[1 + i - |lists0|] == lists[i][0])
    && (forall i :: 0 <= i < |leaders| ==> leaders[i] < |m.states| && leaders[i] in lists0[ec][..k])
    && (forall i, j :: 0 <= i < j < |leaders| ==> Metadata(m, leaders[i]) != Metadata(m, leaders[j]))
    && (forall s :: s in keep ==> s < |m.states| && s in lists0[ec][..k] && Metadata(m, s) == Metadata(m, leaders[0]))
    && (forall i, s {:trigger s in lists[i]} :: |lists0| <= i < |lists| && s in lists[i] ==>
          s in lists0[ec][..k] && Metadata(m, s) == Metadata(m, lists[i][0]))
  }

  lemma RegroupStart(m: Fsm, lists: seq<seq<nat>>, ec: nat)
    requires IsPartition(lists, |m.states|) && ec < |lists|
    ensures Regrouping(m, lists, lists, ec, 0, [], [])
  {
    assert lists[ec] == [] + lists[ec][0..];
  }

  lemma RegroupFirst(m: Fsm, lists0: seq<seq<nat>>, lists: seq<seq<nat>>, ec: nat, keep: seq<nat>, leaders: seq<nat>)
    requires Regrouping(m, lists0, lists, ec, 0, keep, leaders) && lists0[ec] != []
    ensures var s := lists0[ec][0]; Regrouping(m, lists0, lists, ec, 1, [s], [s])
  {
    var l := lists0[ec];
    assert l[0..] == l && l == [l[0]] + l[1..] && l[..1] == [l[0]];
    assert l[0] in lists[ec];
  }

  lemma RegroupKeep(m: Fsm, lists0: seq<seq<nat>>, lists: seq<seq<nat>>, ec: nat, k: nat, keep: seq<nat>,
                    leaders: seq<nat>)
    requires Regrouping(m, lists0, lists, ec, k, keep, leaders) && 0 < k < |lists0[ec]|
    requires var s := lists0[ec][k]; s < |m.states| && Metadata(m, s) == Metadata(m, leaders[0])
    ensures Regrouping(m, lists0, lists, ec, k + 1, keep + [lists0[ec][k]], leaders)
  {
    var l := lists0[ec];
    var s := l[k];
    assert l[..k + 1] == l[..k] + [s];
    assert keep + l[k..] == (keep + [s]) + l[k + 1..];
  }

  lemma RegroupNew(m: Fsm, lists0: seq<seq<nat>>, lists: seq<seq<nat>>, ec: nat, k: nat, keep: seq<nat>,
                   leaders: seq<nat>)
    requires Regrouping(m, lists0, lists, ec, k, keep, leaders) && 0 < k < |lists0[ec]|
    requires var s := lists0[ec][k];
             s < |m.states| && forall y :: y in leaders ==> y < |m.states| && Metadata(m, s) != Metadata(m, y)
    ensures |keep| < |lists[ec]| && lists[ec][|keep|] == lists0[ec][k]
    ensures Regrouping(m, lists0, MovedToNew(lists, ec, |keep|), ec, k + 1, keep, leaders + [lists0[ec][k]])
  {
    var l := lists0[ec];
    var s, lists' := l[k], MovedToNew(lists, ec, |keep|);
    assert l[k..] == [s] + l[k + 1..] && l[..k + 1] == l[..k] + [s];
    assert Without(keep + l[k..], |keep|) == keep + l[k + 1..];
    forall i, t | 0 <= i < |lists'| && t in lists'[i]
      ensures t < |m.states|
    {
      if i == ec {
        assert t in lists[ec];
      }
    }
  }

  lemma RegroupJoin(m: Fsm, lists0: seq<seq<nat>>, lists: seq<seq<nat>>, ec: nat, k: nat, keep: seq<nat>,
                    leaders: seq<nat>, j: nat)
    requires Regrouping(m, lists0, lists, ec, k, keep, leaders) && 0 < k < |lists0[ec]|
    requires |lists0| <= j < |lists|
    requires var s, y := lists0[ec][k], lists[j][0];
             s < |m.states| && y < |m.states| && Metadata(m, s) == Metadata(m, y)
    ensures |keep| < |lists[ec]| && lists[ec][|keep|] == lists0[ec][k] && lists[j] != []
    ensures Regrouping(m, lists0, MovedTo(lists, ec, |keep|, j), ec, k + 1, keep, leaders)
  {
    var l, g := lists0[ec], lists[j];
    var s, lists' := l[k], MovedTo(lists, ec, |keep|, j);
    assert l[k..] == [s] + l[k + 1..] && l[..k + 1] == l[..k] + [s];
    assert Without(keep + l[k..], |keep|) == keep + l[k + 1..];
    assert g == [g[0]] + g[1..];
    assert forall t :: t in lists'[j] <==> t in g || t == s;
    forall i, t | 0 <= i < |lists'| && t in lists'[i]
      ensures t < |m.states|
    {
      if i == ec {
        assert t in lists[ec];
      } else if i == j {
        assert t == s || t in lists[j];
      }
    }
  }

  // ----- what the split achieves -----

  ghost predicate SameKey(m: Fsm, sed: seq<nat>, s: nat, t: nat) {
    && s < |m.states| == |sed| && t < |sed|
    && sed[s] == sed[t] && Metadata(m, s) == Metadata(m, t)
  }

  /** Members of a class are equally far from an end, and no two classes agree on distance
      and metadata both. */
  ghost predicate ApartByKey(m: Fsm, sed: seq<nat>, lists: seq<seq<nat>>) {
    && |sed| == |m.states|
    && (forall i, s {:trigger s in lists[i]} :: 0 <= i < |lists| && s in lists[i] ==> s < |sed|)
    && (forall i, s, t {:trigger s in lists[i], t in lists[i]} ::
          0 <= i < |lists| && s in lists[i] && t in lists[i] ==> sed[s] == sed[t])
    && (forall i, j, s, t {:trigger s in lists[i], t in lists[j]} ::
          0 <= i < |lists| && 0 <= j < |lists| && i != j && s in lists[i] && t in lists[j] ==> !SameKey(m, sed, s, t))
  }

  /** All members of class `i` carry the same metadata. */
  ghost predicate Uniform(m: Fsm, lists: seq<seq<nat>>, i: nat) {
    i < |lists| && forall s, t :: s in lists[i] && t in lists[i] ==>
      s < |m.states| && t < |m.states| && Metadata(m, s) == Metadata(m, t)
  }

  /** Where a regrouped class came from. */
  function Origin(n: nat, ec: nat, i: nat): nat {
    if i < n then i else ec
  }

  lemma RegroupOrigin(m: Fsm, lists0: seq<seq<nat>>, lists: seq<seq<nat>>, ec: nat, keep: seq<nat>,
                      leaders: seq<nat>, i: nat, s: nat)
    requires ec < |lists0| && Regrouping(m, lists0, lists, ec, |lists0[ec]|, keep, leaders)
    requires i < |lists| && s in lists[i]
    ensures s in lists0[Origin(|lists0|, ec, i)]
    ensures i == ec ==> s in keep
  {
    var l := lists0[ec];
    assert l[..|l|] == l && keep + l[|l|..] == keep;
  }

  lemma RegroupDone(m: Fsm, sed: seq<nat>, lists0: seq<seq<nat>>, lists: seq<seq<nat>>, ec: nat, keep: seq<nat>,
                    leaders: seq<nat>)
    requires ec < |lists0| && lists0[ec] != []
    requires Regrouping(m, lists0, lists, ec, |lists0[ec]|, keep, leaders)
    requires ApartByKey(m, sed, lists0)
    ensures ApartByKey(m, sed, lists)
    ensures Uniform(m, lists, ec)
    ensures forall i :: |lists0| <= i < |lists| ==> Uniform(m, lists, i)
  {
    var n := |lists0|;
    forall i, s | 0 <= i < |lists| && s in lists[i]
      ensures s in lists0[Origin(n, ec, i)] && (i == ec ==> s in keep)
    {
      RegroupOrigin(m, lists0, lists, ec, keep, leaders, i, s);
    }
    forall i, s, t | 0 <= i < |lists| && s in lists[i] && t in lists[i]
      ensures sed[s] == sed[t]
    {
      assert s in lists0[Origin(n, ec, i)] && t in lists0[Origin(n, ec, i)];
    }
    forall i, j, s, t | 0 <= i < |lists| && 0 <= j < |lists| && i != j && s in lists[i] && t in lists[j]
      ensures !SameKey(m, sed, s, t)
    {
      var a, b := Origin(n, ec, i), Origin(n, ec, j);
      assert s in lists0[a] && t in lists0[b];
      if a == b {
        var x, y := if i < n then 0 else 1 + i - n, if j < n then 0 else 1 + j - n;
        assert Metadata(m, s) == Metadata(m, leaders[x]) && Metadata(m, t) == Metadata(m, leaders[y]);
        assert Metadata(m, leaders[x]) != Metadata(m, leaders[y]);
      }
    }
  }

  lemma SameKeyAlike(m: Fsm, sed: seq<nat>, s: nat, t: nat)
    requires ExactDistances(m, sed) && SameKey(m, sed, s, t)
    ensures Observe(m, s) == Observe(m, t)
  {
    assert ExactAt(m, sed, s) && ExactAt(m, sed, t);
    DistanceZero(m, s, sed[s]);
    DistanceZero(m, t, sed[t]);
  }

  lemma EquivalentSameKey(m: Fsm, sed: seq<nat>, s: nat, t: nat)
    requires ExactDistances(m, sed) && s < |sed| && t < |sed| && Equivalent(m, s, t)
    ensures SameKey(m, sed, s, t)
  {
    assert ExactAt(m, sed, s) && ExactAt(m, sed, t);
    EquivalentDistance(m, s, t, sed[s], sed[t]);
    EquivalentObserve(m, s, t);
  }

  /** Distance classes, once split by metadata, are refined: alike inside, told apart across. */
  lemma KeyedIsRefined(m: Fsm, nulls: set<nat>, junk: (nat, nat) -> set<Byte>, sed: seq<nat>, lists: seq<seq<nat>>)
    requires ExactDistances(m, sed) && ApartByKey(m, sed, lists)
    requires forall i: nat :: i < |lists| ==> Uniform(m, lists, i)
    ensures Refined(m, nulls, junk, lists)
  {
    forall i, s, t | 0 <= i < |lists| && s in lists[i] && t in lists[i]
      ensures Observe(m, s) == Observe(m, t)
    {
      assert Uniform(m, lists, i);
      SameKeyAlike(m, sed, s, t);
    }
    forall i, j, s, t | 0 <= i < |lists| && 0 <= j < |lists| && i != j && s in lists[i] && t in lists[j]
      ensures !StrictlyEquivalent(m, nulls, junk, s, t)
    {
      if StrictlyEquivalent(m, nulls, junk, s, t) {
        StrictIsEquivalent(m, nulls, junk, s, t);
        EquivalentSameKey(m, sed, s, t);
      }
    }
  }

  lemma DistanceClassesApart(m: Fsm, sed: seq<nat>, lists: seq<seq<nat>>)
    requires |sed| == |m.states| && IsPartition(lists, |sed|) && DistanceClasses(sed, lists)
    ensures ApartByKey(m, sed, lists)
  {
  }

  /** Trimming leaves no state as good as dead. */
  lemma ExactIsLive(m: Fsm, sed: seq<nat>)
    requires ExactDistances(m, sed)
    ensures AllLive(m)
  {
    forall s: nat | s < |m.states|
      ensures LiveAt(m, s)
    {
      assert ExactAt(m, sed, s);
      LiveNotDead(m, s, sed[s]);
    }
  }
}
