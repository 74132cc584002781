/** Subset construction: each DFA state stands for a set of NFA states. Sets are interned, a map
from their IDs finds the DFA state of a set, and a stack holds the states still to be analysed. */
module Determinise {
  import opened Arithmetic
  import opened Automata
  import opened Finite
  import opened Guard
  import opened SortDedup
  import opened EdgeSets
  import opened Analysis
  import opened Interned
  import opened Nfa

  datatype Result = Ok | StateLimitReached | Errno

  /** `ID_LIMIT + 2` lists use up the IDs of the pool. */
  const ID_LIMIT: nat := NO_ID - 3

  // ----- sets of states -----

  /** The states that the NFA can be in after `w`, from any state of `x`. */
  ghost function ReachSet(m: Fsm, x: set<nat>, w: seq<Byte>): set<nat>
    decreases |w|
  {
    if w == [] then x else ReachSet(m, TargetsOf(m, x, w[0]), w[1..])
  }

  lemma {:induction false} ReachConcat(m: Fsm, x: set<nat>, u: seq<Byte>, v: seq<Byte>)
    ensures ReachSet(m, x, u + v) == ReachSet(m, ReachSet(m, x, u), v)
    decreases |u|
  {
    if u == [] {
      assert u + v == v;
    } else {
      assert (u + v)[1..] == u[1..] + v;
      ReachConcat(m, TargetsOf(m, x, u[0]), u[1..], v);
    }
  }

  /** Without epsilons, these are the states that runs reach. */
  lemma {:induction false} ReachSetReaches(m: Fsm, x: set<nat>, w: seq<Byte>, t: nat)
    requires WellFormed(m) && EpsilonFree(m) && forall s :: s in x ==> s < |m.states|
    ensures t in ReachSet(m, x, w) <==> exists s :: s in x && Reaches(m, s, w, t)
    decreases |w|
  {
    if w == [] {
      forall s | s in x
        ensures EpsReaches(m, s, t) <==> s == t
      {
        EpsilonFreeReaches(m, s, t);
      }
      if t in x {
        assert Reaches(m, t, w, t);
      }
    } else {
      var y, c, v := TargetsOf(m, x, w[0]), w[0], w[1..];
      forall u | u in y
        ensures u < |m.states|
      {
        TargetWithin(m, x, c, u);
      }
      ReachSetReaches(m, y, v, t);
      if t in ReachSet(m, x, w) {
        var u :| u in y && Reaches(m, u, v, t);
        var s :| s in x && s < |m.states| && u in Targets(m.states[s].edges, c);
        EpsilonFreeStep(m, s, c, u);
        assert Reaches(m, s, w, t);
      }
      if s :| s in x && Reaches(m, s, w, t) {
        var u :| LabelStep(m, s, c, u) && Reaches(m, u, v, t);
        EpsilonFreeStep(m, s, c, u);
        assert u in y;
      }
    }
  }

  /** The sets of numbers below `n`. */
  ghost function Subsets(n: nat): (r: set<set<nat>>) {
    if n == 0 then {{}} else WithAndWithout(Subsets(n - 1), n - 1)
  }

  ghost function WithAndWithout(a: set<set<nat>>, v: nat): set<set<nat>> {
    a + WithElement(a, v)
  }

  ghost function WithElement(a: set<set<nat>>, v: nat): set<set<nat>> {
    set x | x in a :: x + {v}
  }

  lemma {:induction false} IsSubset(x: set<nat>, n: nat)
    requires forall v :: v in x ==> v < n
    ensures x in Subsets(n)
  {
    if n == 0 {
      assert x == {};
    } else {
      var y := x - {n - 1};
      IsSubset(y, n - 1);
      if n - 1 in x {
        assert x == y + {n - 1};
      } else {
        assert x == y;
      }
    }
  }

  lemma {:induction false} WithElementSize(a: set<set<nat>>, v: nat)
    ensures |WithElement(a, v)| <= |a|
    decreases |a|
  {
    if a != {} {
      var x :| x in a;
      var b := a - {x};
      WithElementSize(b, v);
      assert WithElement(a, v) == WithElement(b, v) + {x + {v}};
    }
  }

  lemma UnionSize(a: set<set<nat>>, b: set<set<nat>>)
    ensures |a + b| <= |a| + |b|
  {
    assert a + b == a + (b - a);
    SubsetSize(b - a, b);
  }

  lemma DoubleSize(a: set<set<nat>>, v: nat)
    ensures |WithAndWithout(a, v)| <= 2 * |a|
  {
    WithElementSize(a, v);
    UnionSize(a, WithElement(a, v));
  }

  lemma {:induction false} SubsetsSize(n: nat) returns (r: set<set<nat>>)
    ensures r == Subsets(n) && |r| <= Pow2(n)
  {
    if n == 0 {
      r := {{}};
    } else {
      var a := SubsetsSize(n - 1);
      DoubleSize(a, n - 1);
      r := WithAndWithout(a, n - 1);
    }
  }

  lemma SetsWithin(sets: seq<set<nat>>, n: nat)
    requires Distinct(sets) && forall k, v :: 0 <= k < |sets| && v in sets[k] ==> v < n
    ensures |sets| <= Pow2(n)
  {
    ElementsSize(sets);
    forall x | x in Elements(sets)
      ensures x in Subsets(n)
    {
      IsSubset(x, n);
    }
    var all := SubsetsSize(n);
    SubsetSize(Elements(sets), all);
  }

  // ----- the DFA -----

  /** The edges of a state that stands for `x`: on each label to the state that stands for the
      targets, and none where there are no targets. */
  ghost predicate EdgesFor(m: Fsm, sets: seq<set<nat>>, es: seq<Group>, x: set<nat>) {
    && (forall c: Byte, j: nat :: (c, j) in Edges(es) ==> LeadsTo(m, sets, x, c, j))
    && (forall c: Byte :: TargetsOf(m, x, c) != {} ==> exists j: nat :: (c, j) in Edges(es))
  }

  ghost predicate LeadsTo(m: Fsm, sets: seq<set<nat>>, x: set<nat>, c: Byte, j: nat) {
    j < |sets| && sets[j] == TargetsOf(m, x, c)
  }

  ghost predicate SomeEnd(m: Fsm, x: set<nat>) {
    exists s :: s in x && s < |m.states| && m.states[s].end
  }

  ghost predicate EndId(m: Fsm, x: set<nat>, id: nat) {
    exists s :: s in x && s < |m.states| && m.states[s].end && id in m.states[s].endIds
  }

  ghost predicate StateFor(m: Fsm, sets: seq<set<nat>>, st: State, x: set<nat>) {
    && Sorted(st.edges) && EdgesWithin(st.edges, |sets|) && Tidy(st.edges) && EdgesFor(m, sets, st.edges, x)
    && st.epsilons == {} && (st.end <==> SomeEnd(m, x))
    && (forall id :: id in st.endIds <==> EndId(m, x, id))
  }

  /** `d` is the subset automaton of `m`: state `k` stands for `sets[k]`. */
  ghost predicate IsSubsetDfa(m: Fsm, d: Fsm, sets: seq<set<nat>>) {
    && m.start.Some? && d.start == Some(0) && 0 < |sets| == |d.states| && sets[0] == {m.start.value}
    && Distinct(sets) && (forall k :: 0 <= k < |sets| ==> sets[k] != {} && StateFor(m, sets, d.states[k], sets[k]))
  }

  lemma SubsetDfaIsDfa(m: Fsm, d: Fsm, sets: seq<set<nat>>)
    requires IsSubsetDfa(m, d, sets)
    ensures IsDfa(d)
  {
    forall k | 0 <= k < |d.states|
      ensures Deterministic(d.states[k].edges)
    {
      assert StateFor(m, sets, d.states[k], sets[k]);
      var r := Edges(d.states[k].edges);
      forall c: Byte, t: nat, u: nat | (c, t) in r && (c, u) in r
        ensures t == u
      {
        assert LeadsTo(m, sets, sets[k], c, t) && LeadsTo(m, sets, sets[k], c, u);
      }
      FunctionalGroups(d.states[k].edges);
    }
  }

  lemma SubsetStep(m: Fsm, d: Fsm, sets: seq<set<nat>>, k: nat, c: Byte)
    requires IsSubsetDfa(m, d, sets) && k < |sets|
    ensures var t, y := Step(d, k, c), TargetsOf(m, sets[k], c);
            if y == {} then t == |sets| else t < |sets| && sets[t] == y
  {
    SubsetDfaIsDfa(m, d, sets);
    StepFollows(d, k, c);
    assert StateFor(m, sets, d.states[k], sets[k]);
    var t, y := Step(d, k, c), TargetsOf(m, sets[k], c);
    if y != {} {
      var j: nat :| (c, j) in Edges(d.states[k].edges);
    }
    if t < |sets| {
      assert LeadsTo(m, sets, sets[k], c, t);
    }
  }

  lemma {:induction false} ReachNothing(m: Fsm, w: seq<Byte>)
    ensures ReachSet(m, {}, w) == {}
    decreases |w|
  {
    if w != [] {
      assert TargetsOf(m, {}, w[0]) == {};
      ReachNothing(m, w[1..]);
    }
  }

  /** On any input, the DFA is in the state that stands for exactly the NFA states reachable on
      it, and has no transition when there are none. */
  lemma {:induction false} SubsetRun(m: Fsm, d: Fsm, sets: seq<set<nat>>, k: nat, w: seq<Byte>)
    requires IsSubsetDfa(m, d, sets) && k < |sets|
    ensures var t, y := Run(d, k, w), ReachSet(m, sets[k], w);
            if y == {} then t == |sets| else t < |sets| && sets[t] == y
    decreases |w|
  {
    if w != [] {
      SubsetStep(m, d, sets, k, w[0]);
      var t := Step(d, k, w[0]);
      if t < |sets| {
        SubsetRun(m, d, sets, t, w[1..]);
      } else {
        RunDead(d, w[1..]);
        ReachNothing(m, w[1..]);
      }
    }
  }

  /** The DFA accepts what the NFA accepts, and reports the end IDs of all the end states that
      the NFA can be in. */
  lemma SubsetAccepts(m: Fsm, d: Fsm, sets: seq<set<nat>>, w: seq<Byte>)
    requires WellFormed(m) && EpsilonFree(m) && IsSubsetDfa(m, d, sets)
    ensures Observe(d, Run(d, 0, w)).Some? <==> AcceptsFrom(m, m.start.value, w)
    ensures Observe(d, Run(d, 0, w)).Some? ==>
              forall id :: id in Observe(d, Run(d, 0, w)).value <==> IdFrom(m, m.start.value, w, id)
  {
    var s, x := m.start.value, {m.start.value};
    var y, t := ReachSet(m, x, w), Run(d, 0, w);
    SubsetRun(m, d, sets, 0, w);
    forall u: nat
      ensures u in y <==> Reaches(m, s, w, u)
    {
      ReachSetReaches(m, x, w, u);
    }
    if t < |sets| {
      assert StateFor(m, sets, d.states[t], y);
    }
    if AcceptsFrom(m, s, w) {
      var u: nat :| Reaches(m, s, w, u) && u < |m.states| && m.states[u].end;
      assert u in y;
    }
    if d.states != [] && t < |sets| && d.states[t].end {
      assert SomeEnd(m, y);
    }
    forall id
      ensures IdFrom(m, s, w, id) <==> EndId(m, y, id)
    {
      if IdFrom(m, s, w, id) {
        var u: nat :| Reaches(m, s, w, u) && u < |m.states| && m.states[u].end && id in m.states[u].endIds;
        assert u in y;
      }
    }
  }

  // ----- outputs of the analysis -----

  datatype Output = Output(labels: set<Byte>, iss: nat)

  ghost predicate OutputAt(m: Fsm, lists: seq<seq<nat>>, o: Output, x: set<nat>) {
    IsId(lists, o.iss) && ListOk(m, x, o.labels, Denotes(lists, o.iss))
  }

  /** Interned target sets for all labels that lead anywhere from `x`. */
  ghost predicate OutputsOk(m: Fsm, lists: seq<seq<nat>>, outs: seq<Output>, x: set<nat>) {
    && (forall i :: 0 <= i < |outs| ==> OutputAt(m, lists, outs[i], x))
    && (forall c: Byte :: TargetsOf(m, x, c) != {} ==> HasOutput(outs, c))
  }

  ghost predicate HasOutput(outs: seq<Output>, c: Byte) {
    exists i :: 0 <= i < |outs| && c in outs[i].labels
  }

  ghost predicate OutputsSoFar(m: Fsm, lists: seq<seq<nat>>, outs: seq<Output>, es: seq<Entry>, x: set<nat>) {
    && |outs| <= |es|
    && (forall b {:trigger Look(b)} :: Look(b) ==>
          forall i :: 0 <= i < |outs| ==> outs[i].labels == es[i].labels && OutputAt(m, lists, outs[i], x))
  }

  lemma OutputsComplete(m: Fsm, buf: seq<nat>, lists: seq<seq<nat>>, outs: seq<Output>, es: seq<Entry>, x: set<nat>)
    requires OutputsSoFar(m, lists, outs, es, x) && |outs| == |es| && ResultOk(m, buf, es, x)
    ensures OutputsOk(m, lists, outs, x)
  {
    assert Look(true);
    forall c: Byte | TargetsOf(m, x, c) != {}
      ensures HasOutput(outs, c)
    {
      assert c in LabelsOf(es);
      var i :| 0 <= i < |es| && c in es[i].labels;
      assert c in outs[i].labels;
    }
  }

  /** One more output; those before it mean the same in the larger pool. */
  lemma OutputsMore(m: Fsm, lists: seq<seq<nat>>, more: seq<seq<nat>>, outs: seq<Output>, es: seq<Entry>, x: set<nat>, o: Output)
    requires OutputsSoFar(m, lists, outs, es, x) && lists <= more && |outs| < |es|
    requires o.labels == es[|outs|].labels && OutputAt(m, more, o, x)
    ensures OutputsSoFar(m, more, outs + [o], es, x)
  {
    assert Look(true);
    forall i | 0 <= i < |outs|
      ensures OutputAt(m, more, outs[i], x)
    {
      DenotesLater(lists, more, outs[i].iss);
    }
  }

  /** Intern the target set of each entry. This fails only when the pool has no IDs left. */
  method BuildOutputs(m: Fsm, pool: Pool, buf: seq<nat>, es: seq<Entry>, ghost x: set<nat>) returns (ok: bool, outs: seq<Output>)
    requires pool.Valid() && ResultOk(m, buf, es, x) && IsReachable(m, x) && ListsReachable(m, pool.lists)
    modifies pool, pool.buf, pool.sets, pool.buckets
    ensures pool.Valid() && old(pool.lists) <= pool.lists && ListsReachable(m, pool.lists)
    ensures !ok ==> OverLimit(m, ID_LIMIT)
    ensures (pool.buf == old(pool.buf) || fresh(pool.buf)) && (pool.sets == old(pool.sets) || fresh(pool.sets)) &&
            (pool.buckets == old(pool.buckets) || fresh(pool.buckets))
    ensures ok ==> OutputsOk(m, pool.lists, outs, x)
  {
    outs := [];
    for i := 0 to |es|
      invariant pool.Valid() && old(pool.lists) <= pool.lists && ListsReachable(m, pool.lists)
      invariant (pool.buf == old(pool.buf) || fresh(pool.buf)) && (pool.sets == old(pool.sets) || fresh(pool.sets)) &&
                (pool.buckets == old(pool.buckets) || fresh(pool.buckets))
      invariant |outs| == i && OutputsSoFar(m, pool.lists, outs, es, x)
    {
      var full := pool.IsFull();
      if full {
        PooledListsOk(pool.hash, pool.lists, pool.buf[..pool.bufUsed], pool.sets[..pool.setsUsed], pool.buckets[..]);
        IdsExhausted(m, pool.lists);
        return false, outs;
      }
      assert EntryOk(m, buf, es[i], x);
      ghost var before := pool.lists;
      var iss := pool.InternSet(ToSet(buf, es[i]));
      ListsMore(m, before, pool.lists, ToSet(buf, es[i]), x, es[i].labels);
      OutputsMore(m, before, pool.lists, outs, es, x, Output(es[i].labels, iss));
      outs := outs + [Output(es[i].labels, iss)];
    }
    OutputsComplete(m, buf, pool.lists, outs, es, x);
    ok := true;
  }

  /** Every list in the pool is the list of a set that can be reached. */
  ghost predicate ListsReachable(m: Fsm, lists: seq<seq<nat>>) {
    forall b {:trigger Look(b)} :: Look(b) ==> forall i :: 0 <= i < |lists| ==> ListReachable(m, lists[i])
  }

  ghost predicate ListReachable(m: Fsm, l: seq<nat>) {
    l != [] && Ascending(l) && IsReachable(m, Elements(l))
  }

  lemma ListsMore(m: Fsm, lists: seq<seq<nat>>, more: seq<seq<nat>>, l: seq<nat>, x: set<nat>, labels: set<Byte>)
    requires ListsReachable(m, lists) && IsReachable(m, x) && ListOk(m, x, labels, l)
    requires more == lists || more == lists + [l]
    ensures ListsReachable(m, more)
  {
    assert Look(true);
    var c :| c in labels;
    assert Hits(m, x, c, l);
    assert Elements(l) == TargetsOf(m, x, c);
    ReachableStep(m, x, c);
    assert ListReachable(m, l);
  }

  /** Running out of IDs takes that many different reachable sets. */
  lemma IdsExhausted(m: Fsm, lists: seq<seq<nat>>)
    requires ListsOk(lists) && ListsReachable(m, lists) && |lists| + 1 >= NO_ID
    ensures OverLimit(m, ID_LIMIT)
  {
    assert Look(true);
    var sets := seq(|lists|, i requires 0 <= i < |lists| => Elements(lists[i]));
    forall i, j | 0 <= i < j < |sets|
      ensures sets[i] != sets[j]
    {
      assert ListReachable(m, lists[i]) && ListReachable(m, lists[j]);
      if sets[i] == sets[j] {
        SameElements(lists[i], lists[j]);
      }
    }
    forall k | 0 <= k < |sets|
      ensures sets[k] != {} && IsReachable(m, sets[k])
    {
      assert ListReachable(m, lists[k]) && lists[k][0] in sets[k];
    }
    assert ReachableSets(m, sets);
  }

  // ----- the map of sets -----

  ghost predicate IsReachable(m: Fsm, x: set<nat>) {
    m.start.Some? && exists w: seq<Byte> :: ReachSet(m, {m.start.value}, w) == x
  }

  lemma ReachableStep(m: Fsm, x: set<nat>, c: Byte)
    requires IsReachable(m, x)
    ensures IsReachable(m, TargetsOf(m, x, c))
  {
    var w: seq<Byte> :| ReachSet(m, {m.start.value}, w) == x;
    ReachConcat(m, {m.start.value}, w, [c]);
    assert ReachSet(m, x, [c]) == TargetsOf(m, x, c) by {
      assert [c][1..] == [];
    }
    assert ReachSet(m, {m.start.value}, w + [c]) == TargetsOf(m, x, c);
  }

  /** DFA state `k` stands for `sets[k]`, by way of the interned ID `isses[k]`. */
  ghost predicate StandsFor(m: Fsm, lists: seq<seq<nat>>, isses: seq<nat>, sets: seq<set<nat>>, k: nat)
    requires k < |isses| == |sets|
  {
    && IsId(lists, isses[k]) && Ascending(Denotes(lists, isses[k])) && Elements(Denotes(lists, isses[k])) == sets[k]
    && sets[k] != {} && (forall s :: s in sets[k] ==> s < |m.states|) && IsReachable(m, sets[k])
  }

  ghost predicate MapOk(m: Fsm, lists: seq<seq<nat>>, isses: seq<nat>, index: map<nat, nat>, sets: seq<set<nat>>) {
    && 0 < |isses| == |sets| && m.start.Some? && sets[0] == {m.start.value}
    && (forall i :: i in index ==> index[i] < |isses|)
    && (forall b {:trigger Look(b)} :: Look(b) ==>
          && (forall k :: 0 <= k < |isses| ==> StandsFor(m, lists, isses, sets, k))
          && (forall k :: 0 <= k < |isses| ==> isses[k] in index && index[isses[k]] == k)
          && (forall i :: i in index ==> isses[index[i]] == i)
          && Distinct(sets))
  }

  lemma MapBegins(m: Fsm, lists: seq<seq<nat>>, iss: nat)
    requires WellFormed(m) && m.start.Some? && IsId(lists, iss) && Denotes(lists, iss) == [m.start.value]
    ensures MapOk(m, lists, [iss], map[iss := 0], [{m.start.value}])
  {
    assert Elements([m.start.value]) == {m.start.value};
    var e: seq<Byte> := [];
    assert ReachSet(m, {m.start.value}, e) == {m.start.value};
  }

  lemma MapAt(m: Fsm, lists: seq<seq<nat>>, isses: seq<nat>, index: map<nat, nat>, sets: seq<set<nat>>, k: nat)
    requires MapOk(m, lists, isses, index, sets) && k < |isses|
    ensures StandsFor(m, lists, isses, sets, k)
  {
    assert Look(true);
  }

  lemma MapLater(m: Fsm, lists: seq<seq<nat>>, more: seq<seq<nat>>, isses: seq<nat>, index: map<nat, nat>, sets: seq<set<nat>>)
    requires MapOk(m, lists, isses, index, sets) && lists <= more
    ensures MapOk(m, more, isses, index, sets)
  {
    assert Look(true);
    forall k | 0 <= k < |isses|
      ensures StandsFor(m, more, isses, sets, k)
    {
      assert StandsFor(m, lists, isses, sets, k);
      DenotesLater(lists, more, isses[k]);
    }
  }

  lemma MapFound(m: Fsm, lists: seq<seq<nat>>, isses: seq<nat>, index: map<nat, nat>, sets: seq<set<nat>>, iss: nat)
    requires MapOk(m, lists, isses, index, sets) && iss in index
    ensures sets[index[iss]] == Elements(Denotes(lists, iss))
  {
    assert Look(true);
    assert StandsFor(m, lists, isses, sets, index[iss]);
  }

  /** A set that is not in the map is not one of `sets`. */
  lemma NotFoundNew(m: Fsm, lists: seq<seq<nat>>, isses: seq<nat>, index: map<nat, nat>, sets: seq<set<nat>>, iss: nat)
    requires MapOk(m, lists, isses, index, sets) && ListsOk(lists) && iss !in index
    requires IsId(lists, iss) && Ascending(Denotes(lists, iss))
    ensures Elements(Denotes(lists, iss)) !in sets
  {
    assert Look(true);
    var l := Denotes(lists, iss);
    forall k | 0 <= k < |sets|
      ensures sets[k] != Elements(l)
    {
      assert StandsFor(m, lists, isses, sets, k);
      var o := Denotes(lists, isses[k]);
      if Elements(o) == Elements(l) {
        SameElements(o, l);
        SameIdSameList(lists, isses[k], iss);
      }
    }
  }

  lemma SameElements(o: seq<nat>, l: seq<nat>)
    requires Ascending(o) && Ascending(l) && Elements(o) == Elements(l)
    ensures o == l
  {
    forall v
      ensures v in o <==> v in l
    {
      assert v in o <==> v in Elements(o);
    }
    SortedOfUnique(o, l);
  }

  lemma MapAdd(m: Fsm, lists: seq<seq<nat>>, isses: seq<nat>, index: map<nat, nat>, sets: seq<set<nat>>, iss: nat, x: set<nat>)
    requires MapOk(m, lists, isses, index, sets) && ListsOk(lists) && iss !in index
    requires IsId(lists, iss) && Ascending(Denotes(lists, iss)) && x == Elements(Denotes(lists, iss))
    requires x != {} && (forall s :: s in x ==> s < |m.states|) && IsReachable(m, x)
    ensures MapOk(m, lists, isses + [iss], index[iss := |isses|], sets + [x])
  {
    NotFoundNew(m, lists, isses, index, sets, iss);
    assert Look(true);
    var ids, ix, ss := isses + [iss], index[iss := |isses|], sets + [x];
    forall k | 0 <= k < |ids|
      ensures StandsFor(m, lists, ids, ss, k)
    {
      if k < |isses| {
        assert StandsFor(m, lists, isses, sets, k);
      }
    }
    forall k | 0 <= k < |sets|
      ensures sets[k] != x
    {
      assert sets[k] in sets;
    }
  }

  lemma MapSize(m: Fsm, lists: seq<seq<nat>>, isses: seq<nat>, index: map<nat, nat>, sets: seq<set<nat>>)
    requires MapOk(m, lists, isses, index, sets)
    ensures |sets| <= Pow2(|m.states|)
  {
    assert Look(true);
    forall k, v | 0 <= k < |sets| && v in sets[k]
      ensures v < |m.states|
    {
      assert StandsFor(m, lists, isses, sets, k);
    }
    SetsWithin(sets, |m.states|);
  }

  // ----- the worklist -----

  ghost predicate EdgesDone(m: Fsm, sets: seq<set<nat>>, es: seq<Group>, x: set<nat>) {
    Sorted(es) && EdgesWithin(es, |sets|) && Tidy(es) && EdgesFor(m, sets, es, x)
  }

  /** All states but those on the stack, and `curr`, have their edges. */
  ghost predicate DoneBut(m: Fsm, sets: seq<set<nat>>, edges: seq<seq<Group>>, stack: seq<nat>, curr: Option<nat>) {
    && |edges| == |sets|
    && (forall b {:trigger Look(b)} :: Look(b) ==>
          forall k: nat :: k < |sets| && k !in stack && curr != Some(k) ==> EdgesDone(m, sets, edges[k], sets[k]))
  }

  lemma EdgesDoneLater(m: Fsm, sets: seq<set<nat>>, more: seq<set<nat>>, es: seq<Group>, x: set<nat>)
    requires EdgesDone(m, sets, es, x) && sets <= more
    ensures EdgesDone(m, more, es, x)
  {
    forall c: Byte, j: nat | (c, j) in Edges(es)
      ensures LeadsTo(m, more, x, c, j)
    {
      assert LeadsTo(m, sets, x, c, j);
    }
  }

  lemma DoneAdd(m: Fsm, sets: seq<set<nat>>, edges: seq<seq<Group>>, stack: seq<nat>, curr: Option<nat>, x: set<nat>)
    requires DoneBut(m, sets, edges, stack, curr)
    ensures DoneBut(m, sets + [x], edges + [[]], stack + [|sets|], curr)
  {
    assert Look(true);
    forall k: nat | k < |sets| + 1 && k !in stack + [|sets|] && curr != Some(k)
      ensures EdgesDone(m, sets + [x], (edges + [[]])[k], (sets + [x])[k])
    {
      assert (stack + [|sets|])[|stack|] == |sets|;
      assert k !in stack;
      EdgesDoneLater(m, sets, sets + [x], edges[k], sets[k]);
    }
  }

  lemma DoneSet(m: Fsm, sets: seq<set<nat>>, edges: seq<seq<Group>>, stack: seq<nat>, k: nat, es: seq<Group>)
    requires DoneBut(m, sets, edges, stack, Some(k)) && k < |sets| && EdgesDone(m, sets, es, sets[k])
    ensures DoneBut(m, sets, edges[k := es], stack, None)
  {
    assert Look(true);
  }

  lemma DonePop(m: Fsm, sets: seq<set<nat>>, edges: seq<seq<Group>>, stack: seq<nat>)
    requires DoneBut(m, sets, edges, stack, None) && stack != []
    ensures DoneBut(m, sets, edges, stack[..|stack| - 1], Some(stack[|stack| - 1]))
  {
    assert Look(true);
    assert stack == stack[..|stack| - 1] + [stack[|stack| - 1]];
  }

  /** The edges of a state, with the first `o` outputs linked. */
  ghost predicate Linking(m: Fsm, sets: seq<set<nat>>, r: set<(Byte, nat)>, x: set<nat>, outs: seq<Output>, o: nat) {
    && o <= |outs|
    && (forall b {:trigger Look(b)} :: Look(b) ==>
          && (forall c: Byte, j: nat :: (c, j) in r ==> LeadsTo(m, sets, x, c, j))
          && (forall i, c :: 0 <= i < o && c in outs[i].labels ==> exists j: nat :: (c, j) in r))
  }

  lemma LinkStep(m: Fsm, sets: seq<set<nat>>, more: seq<set<nat>>, r: set<(Byte, nat)>, x: set<nat>, outs: seq<Output>, o: nat,
                 lists: seq<seq<nat>>, j: nat)
    requires Linking(m, sets, r, x, outs, o) && o < |outs| && sets <= more && OutputAt(m, lists, outs[o], x)
    requires j < |more| && more[j] == Elements(Denotes(lists, outs[o].iss))
    ensures Linking(m, more, r + Labelled(outs[o].labels, j), x, outs, o + 1)
  {
    assert Look(true);
    var q := r + Labelled(outs[o].labels, j);
    forall c: Byte, k: nat | (c, k) in q
      ensures LeadsTo(m, more, x, c, k)
    {
      if (c, k) in r {
        assert LeadsTo(m, sets, x, c, k);
      } else {
        assert Hits(m, x, c, Denotes(lists, outs[o].iss));
        assert more[j] == TargetsOf(m, x, c);
      }
    }
    forall i, c | 0 <= i < o + 1 && c in outs[i].labels
      ensures exists k: nat :: (c, k) in q
    {
      if i < o {
        var k: nat :| (c, k) in r;
        assert (c, k) in q;
      } else {
        assert (c, j) in q;
      }
    }
  }

  lemma LinkEnds(m: Fsm, sets: seq<set<nat>>, es: seq<Group>, x: set<nat>, outs: seq<Output>, lists: seq<seq<nat>>)
    requires Linking(m, sets, Edges(es), x, outs, |outs|) && OutputsOk(m, lists, outs, x)
    requires Sorted(es) && EdgesWithin(es, |sets|) && Tidy(es)
    ensures EdgesDone(m, sets, es, x)
  {
    assert Look(true);
    forall c: Byte | TargetsOf(m, x, c) != {}
      ensures exists j: nat :: (c, j) in Edges(es)
    {
      assert HasOutput(outs, c);
      var i :| 0 <= i < |outs| && c in outs[i].labels;
    }
  }

  /** What an output stands for can be a DFA state. */
  lemma OutputSet(m: Fsm, lists: seq<seq<nat>>, o: Output, x: set<nat>)
    requires WellFormed(m) && OutputAt(m, lists, o, x) && IsReachable(m, x)
    ensures var y := Elements(Denotes(lists, o.iss));
            y != {} && (forall s :: s in y ==> s < |m.states|) && IsReachable(m, y)
  {
    var c :| c in o.labels;
    var l := Denotes(lists, o.iss);
    assert Hits(m, x, c, l);
    assert Elements(l) == TargetsOf(m, x, c);
    assert l[0] in Elements(l);
    ReachableStep(m, x, c);
    forall s | s in Elements(l)
      ensures s < |m.states|
    {
      TargetWithin(m, x, c, s);
    }
  }

  /** A witness that there are more reachable sets than the limit allows for. */
  ghost predicate OverLimit(m: Fsm, stateLimit: nat) {
    exists sets: seq<set<nat>> :: ReachableSets(m, sets) && |sets| == stateLimit + 2
  }

  ghost predicate ReachableSets(m: Fsm, sets: seq<set<nat>>) {
    Distinct(sets) && forall k :: 0 <= k < |sets| ==> sets[k] != {} && IsReachable(m, sets[k])
  }

  lemma LimitReached(m: Fsm, lists: seq<seq<nat>>, isses: seq<nat>, index: map<nat, nat>, sets: seq<set<nat>>, iss: nat, limit: nat)
    requires MapOk(m, lists, isses, index, sets) && ListsOk(lists) && iss !in index && |sets| == limit + 1
    requires IsId(lists, iss) && Ascending(Denotes(lists, iss))
    requires var y := Elements(Denotes(lists, iss)); y != {} && IsReachable(m, y)
    ensures OverLimit(m, limit)
  {
    NotFoundNew(m, lists, isses, index, sets, iss);
    assert Look(true);
    var y := Elements(Denotes(lists, iss));
    var all := sets + [y];
    forall k | 0 <= k < |all|
      ensures all[k] != {} && IsReachable(m, all[k]) && (k < |sets| ==> all[k] != y)
    {
      if k < |sets| {
        assert StandsFor(m, lists, isses, sets, k) && sets[k] in sets;
      }
    }
    assert ReachableSets(m, all);
  }

  /** The members of `ss`, ascending. */
  method Listed(ss: set<nat>, n: nat) returns (l: seq<nat>)
    requires forall s :: s in ss ==> s < n
    ensures Ascending(l) && Elements(l) == ss
  {
    l := [];
    for s := 0 to n
      invariant Ascending(l) && forall v :: v in l <==> v in ss && v < s
    {
      if s in ss {
        assert forall i :: 0 <= i < |l| ==> l[i] in l;
        l := l + [s];
      }
    }
  }

  /** `WellFormed`, looked at only where it is needed. */
  ghost predicate Sound(m: Fsm) {
    forall b {:trigger Look(b)} :: Look(b) ==> WellFormed(m)
  }

  lemma SoundOpen(m: Fsm)
    requires Sound(m)
    ensures WellFormed(m)
  {
    assert Look(true);
  }

  class Worklist {
    const m: Fsm
    const pool: Pool
    const env: AnalyzeEnv
    const stateLimit: nat
    var isses: seq<nat>
    var index: map<nat, nat>
    var edges: seq<seq<Group>>
    var stack: seq<nat>
    /** The sets that the DFA states stand for. */
    ghost var sets: seq<set<nat>>

    ghost predicate Mapped()
      reads this, pool, pool.buf, pool.sets, pool.buckets
    {
      && Sound(m) && pool.Valid() && MapOk(m, pool.lists, isses, index, sets) && ListsReachable(m, pool.lists)
      && (forall i :: 0 <= i < |stack| ==> stack[i] < |sets|)
      && (stateLimit > 0 ==> |sets| <= stateLimit + 1)
    }

    ghost predicate Valid(curr: Option<nat>)
      reads this, env, pool, pool.buf, pool.sets, pool.buckets
    {
      Mapped() && env.Valid() && env.m == m && env.buffer == [] && DoneBut(m, sets, edges, stack, curr)
    }

    /** DFA state 0 stands for the start state alone. */
    constructor (m: Fsm, stateLimit: nat, hash: seq<nat> -> nat)
      requires WellFormed(m) && m.start.Some? && |m.states| <= RESULT_BIT
      ensures this.m == m && this.stateLimit == stateLimit && Valid(Some(0)) && stack == [] && 0 < |sets|
      ensures fresh(pool) && fresh(pool.buf) && fresh(pool.sets) && fresh(pool.buckets) && fresh(env)
    {
      var p := new Pool(hash);
      var iss := p.InternSet([m.start.value]);
      var e := new AnalyzeEnv(m);
      this.m, this.stateLimit, pool, env := m, stateLimit, p, e;
      isses, index, edges, stack, sets := [iss], map[iss := 0], [[]], [], [{m.start.value}];
      new;
      MapBegins(m, pool.lists, iss);
    }

    /** A new DFA state, put on the stack. */
    method AddSet(iss: nat, ghost y: set<nat>, ghost curr: Option<nat>)
      requires Mapped() && DoneBut(m, sets, edges, stack, curr) && iss !in index && (stateLimit > 0 ==> |sets| <= stateLimit)
      requires ListsOk(pool.lists) && IsId(pool.lists, iss) && Ascending(Denotes(pool.lists, iss))
      requires y == Elements(Denotes(pool.lists, iss)) && y != {} && (forall s :: s in y ==> s < |m.states|) && IsReachable(m, y)
      modifies this
      ensures Mapped() && sets == old(sets) + [y] && DoneBut(m, sets, edges, stack, curr)
    {
      MapAdd(m, pool.lists, isses, index, sets, iss, y);
      DoneAdd(m, sets, edges, stack, curr, y);
      var j := |isses|;
      isses, index, edges, stack := isses + [iss], index[iss := j], edges + [[]], stack + [j];
      sets := sets + [y];
    }

    /** The DFA state for a set, added if the limit allows it. */
    method FindOrAdd(o: Output, ghost x: set<nat>, ghost curr: Option<nat>) returns (ok: bool, j: nat)
      requires Mapped() && DoneBut(m, sets, edges, stack, curr) && OutputAt(m, pool.lists, o, x) && IsReachable(m, x)
      modifies this
      ensures Mapped() && old(sets) <= sets && DoneBut(m, sets, edges, stack, curr)
      ensures ok ==> j < |sets| && sets[j] == Elements(Denotes(pool.lists, o.iss))
      ensures sets == old(sets) ==> stack == old(stack)
      ensures !ok ==> stateLimit > 0 && OverLimit(m, stateLimit)
    {
      if o.iss in index {
        MapFound(m, pool.lists, isses, index, sets, o.iss);
        return true, index[o.iss];
      }
      ghost var y := Elements(Denotes(pool.lists, o.iss));
      assert y != {} && (forall s :: s in y ==> s < |m.states|) && IsReachable(m, y) by {
        SoundOpen(m);
        OutputSet(m, pool.lists, o, x);
      }
      PooledListsOk(pool.hash, pool.lists, pool.buf[..pool.bufUsed], pool.sets[..pool.setsUsed], pool.buckets[..]);
      if stateLimit > 0 && |isses| > stateLimit {
        LimitReached(m, pool.lists, isses, index, sets, o.iss, stateLimit);
        return false, 0;
      }
      ok, j := true, |isses|;
      AddSet(o.iss, y, curr);
    }

    /** Link one output of state `k`. */
    method LinkOne(outs: seq<Output>, i: nat, es: EdgeSet, ghost x: set<nat>, ghost k: nat) returns (ok: bool)
      requires Mapped() && DoneBut(m, sets, edges, stack, Some(k)) && IsReachable(m, x)
      requires es.Valid() && EdgesWithin(es.Contents(), |sets|) && Tidy(es.Contents())
      requires i < |outs| && OutputAt(m, pool.lists, outs[i], x) && Linking(m, sets, Edges(es.Contents()), x, outs, i)
      modifies this, es, es.groups
      ensures Mapped() && old(sets) <= sets && DoneBut(m, sets, edges, stack, Some(k))
      ensures sets == old(sets) ==> stack == old(stack)
      ensures es.Valid() && (es.groups == old(es.groups) || fresh(es.groups))
      ensures ok ==> EdgesWithin(es.Contents(), |sets|) && Tidy(es.Contents())
      ensures ok ==> Linking(m, sets, Edges(es.Contents()), x, outs, i + 1)
      ensures !ok ==> stateLimit > 0 && OverLimit(m, stateLimit)
    {
      ghost var before := sets;
      var j;
      ok, j := FindOrAdd(outs[i], x, Some(k));
      if ok {
        LinkStep(m, before, sets, Edges(es.Contents()), x, outs, i, pool.lists, j);
        es.AddBulk(outs[i].labels, j);
      }
    }

    /** Link all outputs of a state. */
    method LinkOutputs(outs: seq<Output>, k: nat) returns (ok: bool, gs: seq<Group>)
      requires Mapped() && k < |sets| && DoneBut(m, sets, edges, stack, Some(k)) && OutputsOk(m, pool.lists, outs, sets[k])
      modifies this
      ensures Mapped() && old(sets) <= sets && DoneBut(m, sets, edges, stack, Some(k))
      ensures sets == old(sets) ==> stack == old(stack)
      ensures ok ==> EdgesDone(m, sets, gs, sets[k])
      ensures !ok ==> stateLimit > 0 && OverLimit(m, stateLimit)
    {
      ghost var x := sets[k];
      MapAt(m, pool.lists, isses, index, sets, k);
      var es := new EdgeSet();
      assert Edges([]) == {};
      ok := LinkEach(outs, es, x, k);
      gs := es.groups[..es.count];
      if ok {
        LinkEnds(m, sets, gs, x, outs, pool.lists);
      }
    }

    method LinkEach(outs: seq<Output>, es: EdgeSet, ghost x: set<nat>, ghost k: nat) returns (ok: bool)
      requires Mapped() && DoneBut(m, sets, edges, stack, Some(k)) && IsReachable(m, x)
      requires es.Valid() && EdgesWithin(es.Contents(), |sets|) && Tidy(es.Contents())
      requires forall i :: 0 <= i < |outs| ==> OutputAt(m, pool.lists, outs[i], x)
      requires Linking(m, sets, Edges(es.Contents()), x, outs, 0)
      modifies this, es, es.groups
      ensures Mapped() && old(sets) <= sets && DoneBut(m, sets, edges, stack, Some(k))
      ensures sets == old(sets) ==> stack == old(stack)
      ensures es.Valid() && (es.groups == old(es.groups) || fresh(es.groups))
      ensures ok ==> EdgesWithin(es.Contents(), |sets|) && Tidy(es.Contents())
      ensures ok ==> Linking(m, sets, Edges(es.Contents()), x, outs, |outs|)
      ensures !ok ==> stateLimit > 0 && OverLimit(m, stateLimit)
    {
      for i := 0 to |outs|
        invariant Mapped() && old(sets) <= sets && DoneBut(m, sets, edges, stack, Some(k))
        invariant sets == old(sets) ==> stack == old(stack)
        invariant es.Valid() && (es.groups == old(es.groups) || fresh(es.groups))
        invariant EdgesWithin(es.Contents(), |sets|) && Tidy(es.Contents())
        invariant Linking(m, sets, Edges(es.Contents()), x, outs, i)
      {
        var linked := LinkOne(outs, i, es, x, k);
        if !linked {
          return false;
        }
      }
      ok := true;
    }

    /** Where the states of set `k` lead. */
    method Analyze(k: nat) returns (ok: bool, outs: seq<Output>)
      requires Mapped() && env.Valid() && env.m == m && env.buffer == [] && k < |sets|
      modifies env, pool, pool.buf, pool.sets, pool.buckets
      ensures (pool.buf == old(pool.buf) || fresh(pool.buf)) && (pool.sets == old(pool.sets) || fresh(pool.sets)) &&
              (pool.buckets == old(pool.buckets) || fresh(pool.buckets))
      ensures Mapped() && env.Valid() && env.buffer == []
      ensures ok ==> OutputsOk(m, pool.lists, outs, sets[k])
      ensures !ok ==> OverLimit(m, ID_LIMIT)
    {
      MapAt(m, pool.lists, isses, index, sets, k);
      var ss := pool.GetStateSet(isses[k]);
      var states := Listed(ss, |m.states|);
      assert states != [] by {
        assert Elements(states) == sets[k];
      }
      assert forall i :: 0 <= i < |states| ==> states[i] in Elements(states);
      var id := env.PairwiseGrouping(states);
      ghost var lists := pool.lists;
      ok, outs := BuildOutputs(m, pool, env.toSets, env.results[id], sets[k]);
      MapLater(m, lists, pool.lists, isses, index, sets);
    }

    /** Analyse state `k` and give it its edges. */
    method Process(k: nat) returns (res: Result)
      requires Valid(Some(k)) && k < |sets|
      modifies this, env, pool, pool.buf, pool.sets, pool.buckets
      ensures (pool.buf == old(pool.buf) || fresh(pool.buf)) && (pool.sets == old(pool.sets) || fresh(pool.sets)) &&
              (pool.buckets == old(pool.buckets) || fresh(pool.buckets))
      ensures res.Ok? ==> Valid(None) && old(sets) <= sets && (sets == old(sets) ==> stack == old(stack))
      ensures res.StateLimitReached? ==> stateLimit > 0 && OverLimit(m, stateLimit)
      ensures res.Errno? ==> OverLimit(m, ID_LIMIT)
    {
      var ok, outs := Analyze(k);
      if !ok {
        return Errno;
      }
      var linked, gs := LinkOutputs(outs, k);
      if !linked {
        return StateLimitReached;
      }
      DoneSet(m, sets, edges, stack, k, gs);
      edges := edges[k := gs];
      res := Ok;
    }

    /** Process one state and take the next one off the stack. */
    method ProcessNext(curr: nat) returns (res: Result, more: bool, next: nat)
      requires Valid(Some(curr)) && curr < |sets|
      modifies this, env, pool, pool.buf, pool.sets, pool.buckets
      ensures (pool.buf == old(pool.buf) || fresh(pool.buf)) && (pool.sets == old(pool.sets) || fresh(pool.sets)) &&
              (pool.buckets == old(pool.buckets) || fresh(pool.buckets))
      ensures res.Ok? ==> if more then Valid(Some(next)) && next < |sets| else Valid(None) && stack == []
      ensures res.Ok? ==> |sets| <= Pow2(|m.states|)
      ensures res.Ok? && more ==> |sets| > |old(sets)| || (|sets| == |old(sets)| && |stack| < |old(stack)|)
      ensures res.StateLimitReached? ==> stateLimit > 0 && OverLimit(m, stateLimit)
      ensures res.Errno? ==> OverLimit(m, ID_LIMIT)
    {
      next := 0;
      res := Process(curr);
      more := res.Ok? && stack != [];
      if res.Ok? {
        MapSize(m, pool.lists, isses, index, sets);
      }
      if more {
        DonePop(m, sets, edges, stack);
        next, stack := stack[|stack| - 1], stack[..|stack| - 1];
      }
    }

    /** Process state 0 and then whatever is on the stack. There are at most as many sets as the
        NFA's states have subsets, so this comes to an end. */
    method ProcessAll() returns (res: Result)
      requires Valid(Some(0)) && 0 < |sets|
      modifies this, env, pool, pool.buf, pool.sets, pool.buckets
      ensures (pool.buf == old(pool.buf) || fresh(pool.buf)) && (pool.sets == old(pool.sets) || fresh(pool.sets)) &&
              (pool.buckets == old(pool.buckets) || fresh(pool.buckets))
      ensures res.Ok? ==> Valid(None) && stack == []
      ensures res.StateLimitReached? ==> stateLimit > 0 && OverLimit(m, stateLimit)
      ensures res.Errno? ==> OverLimit(m, ID_LIMIT)
    {
      var curr: nat, more := 0, true;
      MapSize(m, pool.lists, isses, index, sets);
      while more
        invariant (pool.buf == old(pool.buf) || fresh(pool.buf)) && (pool.sets == old(pool.sets) || fresh(pool.sets)) &&
                  (pool.buckets == old(pool.buckets) || fresh(pool.buckets))
        invariant if more then Valid(Some(curr)) && curr < |sets| else Valid(None) && stack == []
        invariant |sets| <= Pow2(|m.states|)
        decreases if more then Pow2(|m.states|) - |sets| + 1 else 0, |stack|
      {
        res, more, curr := ProcessNext(curr);
        if !res.Ok? {
          return;
        }
      }
      res := Ok;
    }
  }

  // ----- the result -----

  /** The end flag and the end IDs of a set of NFA states. */
  method EndsOf(m: Fsm, ss: set<nat>) returns (end: bool, ids: set<nat>)
    ensures end <==> SomeEnd(m, ss)
    ensures forall id :: id in ids <==> EndId(m, ss, id)
  {
    end, ids := false, {};
    for s := 0 to |m.states|
      invariant end <==> exists t :: 0 <= t < s && t in ss && m.states[t].end
      invariant forall id :: id in ids <==> exists t :: 0 <= t < s && t in ss && m.states[t].end && id in m.states[t].endIds
    {
      if s in ss && m.states[s].end {
        end, ids := true, ids + m.states[s].endIds;
      }
    }
  }

  /** One DFA state per set, with its edges moved over. */
  method BuildStates(w: Worklist) returns (states: seq<State>)
    requires w.Valid(None) && w.stack == []
    modifies w.pool.sets
    ensures w.Valid(None) && w.stack == []
    ensures |states| == |w.sets| && forall k :: 0 <= k < |states| ==> StateFor(w.m, w.sets, states[k], w.sets[k])
  {
    states := [];
    for k := 0 to |w.isses|
      invariant w.Valid(None) && w.stack == [] && |states| == k
      invariant forall i :: 0 <= i < k ==> StateFor(w.m, w.sets, states[i], w.sets[i])
    {
      var st := BuildState(w, k);
      states := states + [st];
    }
  }

  method BuildState(w: Worklist, k: nat) returns (st: State)
    requires w.Valid(None) && w.stack == [] && k < |w.isses|
    modifies w.pool.sets
    ensures w.Valid(None) && StateFor(w.m, w.sets, st, w.sets[k])
  {
    MapAt(w.m, w.pool.lists, w.isses, w.index, w.sets, k);
    var ss := w.pool.GetStateSet(w.isses[k]);
    var end, ids := EndsOf(w.m, ss);
    DoneAt(w.m, w.sets, w.edges, k);
    st := State(w.edges[k], {}, end, ids);
  }

  lemma DoneAt(m: Fsm, sets: seq<set<nat>>, edges: seq<seq<Group>>, k: nat)
    requires DoneBut(m, sets, edges, [], None) && k < |sets|
    ensures EdgesDone(m, sets, edges[k], sets[k])
  {
    assert Look(true);
  }

  lemma Assembled(m: Fsm, lists: seq<seq<nat>>, isses: seq<nat>, index: map<nat, nat>, sets: seq<set<nat>>, states: seq<State>)
    requires MapOk(m, lists, isses, index, sets) && |states| == |sets|
    requires forall k :: 0 <= k < |states| ==> StateFor(m, sets, states[k], sets[k])
    ensures IsSubsetDfa(m, Fsm(states, Some(0)), sets)
  {
    assert Look(true);
    forall k | 0 <= k < |sets|
      ensures sets[k] != {}
    {
      assert StandsFor(m, lists, isses, sets, k);
    }
  }

  /** The subset automaton of an NFA without epsilons. An NFA without a start is left as it is. */
  method DeterminiseFree(m: Fsm, stateLimit: nat, hash: seq<nat> -> nat) returns (res: Result, d: Fsm, ghost sets: seq<set<nat>>)
    requires WellFormed(m) && EpsilonFree(m) && |m.states| <= RESULT_BIT
    ensures m.start.None? || !res.Ok? ==> d == m
    ensures m.start.None? ==> if 0 < stateLimit < |m.states| then res.StateLimitReached? else res.Ok?
    ensures 0 < stateLimit < |m.states| ==> res.StateLimitReached?
    ensures res.Ok? && m.start.Some? ==>
              IsSubsetDfa(m, d, sets) && ReachableSets(m, sets) && |d.states| <= Pow2(|m.states|)
    ensures res.Ok? && m.start.Some? && stateLimit > 0 ==> |m.states| <= stateLimit && !OverLimit(m, stateLimit)
    ensures res.StateLimitReached? ==> stateLimit > 0 && (|m.states| > stateLimit || OverLimit(m, stateLimit))
    ensures res.Errno? ==> OverLimit(m, ID_LIMIT)
  {
    d, sets := m, [];
    if stateLimit != 0 && |m.states| > stateLimit {
      return StateLimitReached, m, [];
    }
    if m.start.None? {
      return Ok, m, [];
    }
    var w := new Worklist(m, stateLimit, hash);
    res := w.ProcessAll();
    if res.Ok? {
      var states := BuildStates(w);
      sets := w.sets;
      d := Fsm(states, Some(0));
      Assembled(m, w.pool.lists, w.isses, w.index, sets, states);
      MapSize(m, w.pool.lists, w.isses, w.index, sets);
      MapReachable(m, w.pool.lists, w.isses, w.index, sets);
      NotOverLimit(m, d, sets);
    }
  }

  /** The subset automaton has a state for every set that can be reached. */
  lemma AllSetsPresent(m: Fsm, d: Fsm, sets: seq<set<nat>>, x: set<nat>)
    requires IsSubsetDfa(m, d, sets) && IsReachable(m, x) && x != {}
    ensures x in sets
  {
    var w: seq<Byte> :| ReachSet(m, {m.start.value}, w) == x;
    SubsetRun(m, d, sets, 0, w);
    assert sets[Run(d, 0, w)] == x;
  }

  lemma NotOverLimit(m: Fsm, d: Fsm, sets: seq<set<nat>>)
    requires IsSubsetDfa(m, d, sets)
    ensures forall limit: nat :: |sets| <= limit + 1 ==> !OverLimit(m, limit)
  {
    forall limit: nat | OverLimit(m, limit)
      ensures |sets| > limit + 1
    {
      var all: seq<set<nat>> :| ReachableSets(m, all) && |all| == limit + 2;
      forall x | x in Elements(all)
        ensures x in Elements(sets)
      {
        AllSetsPresent(m, d, sets, x);
      }
      ElementsSize(all);
      ElementsSize(sets);
      SubsetSize(Elements(all), Elements(sets));
    }
  }

  lemma MapReachable(m: Fsm, lists: seq<seq<nat>>, isses: seq<nat>, index: map<nat, nat>, sets: seq<set<nat>>)
    requires MapOk(m, lists, isses, index, sets)
    ensures ReachableSets(m, sets)
  {
    assert Look(true);
    forall k | 0 <= k < |sets|
      ensures sets[k] != {} && IsReachable(m, sets[k])
    {
      assert StandsFor(m, lists, isses, sets, k);
    }
  }
}
