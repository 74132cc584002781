/** Building the quotient: states with the same number under `mapping` become one state.
The first state of each class is copied and its edges renumbered, and the end IDs of all
members are collected. */
module Consolidate {
  import opened Automata
  import opened EdgeSets

  /** Where the class of `t` is; the dead state has none. */
  function Mapped(mapping: seq<nat>, t: nat): Option<nat> {
    if t < |mapping| then Some(mapping[t]) else None
  }

  /** States of one class agree on the end flag and, for every symbol, on the class they go to. */
  ghost predicate IsCongruence(m: Fsm, mapping: seq<nat>) {
    && |mapping| == |m.states|
    && (forall s, t :: 0 <= s < |mapping| && 0 <= t < |mapping| && mapping[s] == mapping[t] ==>
          m.states[s].end == m.states[t].end)
    && (forall s, t, c: Byte :: 0 <= s < |mapping| && 0 <= t < |mapping| && mapping[s] == mapping[t] ==>
          Mapped(mapping, Step(m, s, c)) == Mapped(mapping, Step(m, t, c)))
  }

  /** End states of one class have the same end IDs. */
  ghost predicate IdsAgree(m: Fsm, mapping: seq<nat>) {
    && |mapping| == |m.states|
    && (forall s, t :: 0 <= s < |mapping| && 0 <= t < |mapping| && mapping[s] == mapping[t] && m.states[s].end ==>
          m.states[s].endIds == m.states[t].endIds)
  }

  function MappingCb(mapping: seq<nat>): (f: nat -> nat) {
    (t: nat) => if t < |mapping| then mapping[t] else NO_STATE
  }

  ghost predicate IsFirst(mapping: seq<nat>, s: nat) {
    s < |mapping| && forall t :: 0 <= t < s ==> mapping[t] != mapping[s]
  }

  lemma {:induction false} FirstOf(mapping: seq<nat>, s: nat) returns (f: nat)
    requires s < |mapping|
    ensures IsFirst(mapping, f) && mapping[f] == mapping[s]
    decreases s
  {
    if IsFirst(mapping, s) {
      f := s;
    } else {
      var t :| 0 <= t < s && mapping[t] == mapping[s];
      f := FirstOf(mapping, t);
    }
  }

  /** `st` is `s` with its edges and epsilons renumbered. */
  ghost predicate CopyOf(m: Fsm, mapping: seq<nat>, s: nat, st: State, n: nat)
    requires s < |m.states|
  {
    && Sorted(st.edges) && EdgesWithin(st.edges, n)
    && Edges(st.edges) == Remapped(Edges(m.states[s].edges), MappingCb(mapping))
    && st.epsilons == Renumbered(m.states[s].epsilons, mapping)
    && st.end == m.states[s].end
  }

  function Renumbered(ts: set<nat>, mapping: seq<nat>): set<nat> {
    set t | t in ts && t < |mapping| :: mapping[t]
  }

  ghost predicate IdsOf(m: Fsm, mapping: seq<nat>, k: nat, ids: set<nat>, n: nat)
    requires |mapping| == |m.states|
  {
    forall id :: id in ids <==> MemberHasId(m, mapping, k, id, n)
  }

  ghost predicate MemberHasId(m: Fsm, mapping: seq<nat>, k: nat, id: nat, n: nat)
    requires |mapping| == |m.states|
  {
    exists s :: 0 <= s < n && s < |mapping| && mapping[s] == k && id in m.states[s].endIds
  }

  /** `d` is `m` with the states of each class joined. */
  ghost predicate IsQuotient(m: Fsm, mapping: seq<nat>, d: Fsm) {
    && |mapping| == |m.states|
    && (forall s :: 0 <= s < |mapping| ==> mapping[s] < |d.states|)
    && (forall s: nat :: IsFirst(mapping, s) ==> CopyOf(m, mapping, s, d.states[mapping[s]], |d.states|))
    && (forall k :: 0 <= k < |d.states| && k !in mapping ==> d.states[k] == State([], {}, false, {}))
    && (forall k :: 0 <= k < |d.states| ==> IdsOf(m, mapping, k, d.states[k].endIds, |mapping|))
    && d.start == (if m.start.None? then None else Mapped(mapping, m.start.value))
  }

  // ----- the loops -----

  /** The new number of every target is in range; a state whose groups are all empty is copied
      as one without groups. */
  method CopyState(m: Fsm, mapping: seq<nat>, s: nat, n: nat) returns (st: State)
    requires WellFormed(m) && |mapping| == |m.states| < NO_STATE && s < |m.states|
    requires 0 < n <= NO_STATE && forall t :: 0 <= t < |mapping| ==> mapping[t] < n
    ensures CopyOf(m, mapping, s, st, n) && st.endIds == {}
  {
    var es := m.states[s].edges;
    var src := new EdgeSet.FromGroups(es);
    var dst := src.Copy();
    var cb := MappingCb(mapping);
    ghost var copied := dst.Contents();
    dst.Compact(cb);
    var gs := dst.groups[..dst.count];
    RenumberedWithin(es, mapping, n, copied, gs);
    st := State(gs, Renumbered(m.states[s].epsilons, mapping), m.states[s].end, {});
  }

  lemma RenumberedWithin(es: seq<Group>, mapping: seq<nat>, n: nat, copied: seq<Group>, gs: seq<Group>)
    requires EdgesWithin(es, |mapping|) && 0 < n && forall t :: 0 <= t < |mapping| ==> mapping[t] < n
    requires copied == if Edges(es) == {} then [] else es
    requires if Edges(copied) == {} then gs == copied else KeptAll(copied, MappingCb(mapping), gs)
    ensures EdgesWithin(gs, n)
  {
    forall i | 0 <= i < |gs|
      ensures gs[i].to < n
    {
      assert KeptTo(copied, MappingCb(mapping), gs[i].to);
    }
  }

  method MaxUsed(mapping: seq<nat>) returns (max: nat)
    ensures forall s :: 0 <= s < |mapping| ==> mapping[s] <= max
    ensures max == 0 || max in mapping
  {
    max := 0;
    for s := 0 to |mapping|
      invariant forall t :: 0 <= t < s ==> mapping[t] <= max
      invariant max == 0 || max in mapping
    {
      if mapping[s] >= max {
        max := mapping[s];
      }
    }
  }

  /** The copying loop after `i` states. */
  ghost predicate Copying(m: Fsm, mapping: seq<nat>, states: seq<State>, seen: seq<bool>, i: nat)
    requires |mapping| == |m.states|
  {
    && i <= |mapping|
    && (forall s :: 0 <= s < |mapping| ==> mapping[s] < |states| && mapping[s] < |seen|)
    && (forall k :: 0 <= k < |seen| ==> (seen[k] <==> k in mapping[..i]))
    && (forall s: nat :: IsFirst(mapping, s) && s < i ==> CopyOf(m, mapping, s, states[mapping[s]], |states|))
    && (forall k :: 0 <= k < |states| ==> states[k].endIds == {})
    && (forall k :: 0 <= k < |states| && k !in mapping[..i] ==> states[k] == State([], {}, false, {}))
  }

  lemma CopyingStep(m: Fsm, mapping: seq<nat>, states: seq<State>, seen: seq<bool>, i: nat, st: State)
    requires |mapping| == |m.states|
    requires Copying(m, mapping, states, seen, i) && i < |mapping|
    requires CopyOf(m, mapping, i, st, |states|) && st.endIds == {}
    ensures seen[mapping[i]] ==> Copying(m, mapping, states, seen, i + 1)
    ensures !seen[mapping[i]] ==> Copying(m, mapping, states[mapping[i] := st], seen[mapping[i] := true], i + 1)
  {
    var k := mapping[i];
    assert mapping[..i + 1] == mapping[..i] + [k];
    if seen[k] {
      assert !IsFirst(mapping, i) by {
        var t :| 0 <= t < i && mapping[..i][t] == k;
      }
    } else {
      forall s: nat | IsFirst(mapping, s) && s < i
        ensures mapping[s] != k
      {
        assert mapping[..i][s] == mapping[s];
      }
    }
  }

  method CopyStates(m: Fsm, mapping: seq<nat>, n: nat) returns (states: array<State>)
    requires WellFormed(m) && |mapping| == |m.states| < NO_STATE && 0 < n <= NO_STATE
    requires forall s :: 0 <= s < |mapping| ==> mapping[s] < n && mapping[s] < |mapping|
    ensures fresh(states) && states.Length == n
    ensures exists seen :: Copying(m, mapping, states[..], seen, |mapping|)
  {
    states := new State[n](_ => State([], {}, false, {}));
    var seen := new bool[|mapping|](_ => false);
    for i := 0 to |mapping|
      invariant Copying(m, mapping, states[..], seen[..], i)
    {
      var st := CopyState(m, mapping, i, n);
      CopyingStep(m, mapping, states[..], seen[..], i, st);
      var k := mapping[i];
      if !seen[k] {
        seen[k] := true;
        states[k] := st;
      }
    }
  }

  /** Adding the end IDs after `i` states. */
  ghost predicate Collecting(m: Fsm, mapping: seq<nat>, before: seq<State>, states: seq<State>, i: nat)
    requires |mapping| == |m.states|
  {
    && |states| == |before| && i <= |mapping|
    && (forall k :: 0 <= k < |states| ==> states[k] == before[k].(endIds := states[k].endIds))
    && (forall k :: 0 <= k < |states| ==> IdsOf(m, mapping, k, states[k].endIds, i))
  }

  lemma CollectingStep(m: Fsm, mapping: seq<nat>, before: seq<State>, states: seq<State>, i: nat)
    requires |mapping| == |m.states|
    requires Collecting(m, mapping, before, states, i) && i < |mapping| && mapping[i] < |states|
    ensures var k := mapping[i];
            Collecting(m, mapping, before, states[k := states[k].(endIds := states[k].endIds + m.states[i].endIds)], i + 1)
  {
    var j := mapping[i];
    var after := states[j := states[j].(endIds := states[j].endIds + m.states[i].endIds)];
    forall k | 0 <= k < |states|
      ensures IdsOf(m, mapping, k, after[k].endIds, i + 1)
    {
      assert IdsOf(m, mapping, k, states[k].endIds, i);
      forall id
        ensures id in after[k].endIds <==> MemberHasId(m, mapping, k, id, i + 1)
      {
        assert id in states[k].endIds <==> MemberHasId(m, mapping, k, id, i);
      }
    }
  }

  method CollectEndIds(m: Fsm, mapping: seq<nat>, states: array<State>)
    requires |mapping| == |m.states|
    requires forall s :: 0 <= s < |mapping| ==> mapping[s] < states.Length
    requires forall k :: 0 <= k < states.Length ==> states[k].endIds == {}
    modifies states
    ensures Collecting(m, mapping, old(states[..]), states[..], |mapping|)
  {
    ghost var before := states[..];
    for i := 0 to |mapping|
      invariant Collecting(m, mapping, before, states[..], i)
    {
      CollectingStep(m, mapping, before, states[..], i);
      var k := mapping[i];
      states[k] := states[k].(endIds := states[k].endIds + m.states[i].endIds);
    }
  }

  /** The quotient of any machine under any numbering of its states by numbers below the
      state count; one state more than the largest number in use. */
  method FsmConsolidate(m: Fsm, mapping: seq<nat>) returns (d: Fsm)
    requires WellFormed(m) && |mapping| == |m.states| < NO_STATE
    requires forall s :: 0 <= s < |mapping| ==> mapping[s] < |mapping|
    ensures IsQuotient(m, mapping, d)
    ensures |d.states| == 1 || |d.states| - 1 in mapping
  {
    var max := MaxUsed(mapping);
    var states := CopyStates(m, mapping, max + 1);
    ghost var copied := states[..];
    CollectEndIds(m, mapping, states);
    var start := if m.start.None? then None else Some(mapping[m.start.value]);
    d := Fsm(states[..], start);
    Assembled(m, mapping, copied, d);
  }

  lemma Assembled(m: Fsm, mapping: seq<nat>, copied: seq<State>, d: Fsm)
    requires |mapping| == |m.states|
    requires exists seen :: Copying(m, mapping, copied, seen, |mapping|)
    requires Collecting(m, mapping, copied, d.states, |mapping|)
    requires d.start == (if m.start.None? then None else Mapped(mapping, m.start.value))
    ensures IsQuotient(m, mapping, d)
  {
    var seen :| Copying(m, mapping, copied, seen, |mapping|);
    assert mapping[..|mapping|] == mapping;
    forall s: nat | IsFirst(mapping, s)
      ensures CopyOf(m, mapping, s, d.states[mapping[s]], |d.states|)
    {
      assert CopyOf(m, mapping, s, copied[mapping[s]], |copied|);
    }
    forall k | 0 <= k < |d.states| && k !in mapping
      ensures d.states[k] == State([], {}, false, {})
    {
      assert IdsOf(m, mapping, k, d.states[k].endIds, |mapping|);
      assert d.states[k].endIds == {};
    }
  }

  // ----- what the quotient means -----

  /** The state of the quotient that stands for `t`. */
  function Image(mapping: seq<nat>, d: Fsm, t: nat): nat {
    if t < |mapping| then mapping[t] else |d.states|
  }

  lemma RemappedEdge(r: set<(Byte, nat)>, mapping: seq<nat>, c: Byte, k: nat)
    requires forall t :: 0 <= t < |mapping| ==> mapping[t] < NO_STATE
    ensures (c, k) in Remapped(r, MappingCb(mapping)) <==> exists t :: 0 <= t < |mapping| && mapping[t] == k && (c, t) in r
  {
    if (c, k) in Remapped(r, MappingCb(mapping)) {
      var e :| e in r && MappingCb(mapping)(e.1) != NO_STATE && (c, k) == (e.0, MappingCb(mapping)(e.1));
      assert e == (c, e.1);
    }
    if exists t :: 0 <= t < |mapping| && mapping[t] == k && (c, t) in r {
      var t :| 0 <= t < |mapping| && mapping[t] == k && (c, t) in r;
      assert MappingCb(mapping)((c, t).1) != NO_STATE;
    }
  }

  /** The copy of `s` has, per symbol, the one edge to the class of where `s` goes. */
  lemma CopyEdges(m: Fsm, mapping: seq<nat>, s: nat, st: State, n: nat)
    requires IsDfa(m) && |mapping| == |m.states| && s < |mapping| && CopyOf(m, mapping, s, st, n)
    requires forall t :: 0 <= t < |mapping| ==> mapping[t] < NO_STATE
    ensures forall c: Byte, k: nat :: (c, k) in Edges(st.edges) <==> Mapped(mapping, Step(m, s, c)) == Some(k)
  {
    forall c: Byte, k: nat
      ensures (c, k) in Edges(st.edges) <==> Mapped(mapping, Step(m, s, c)) == Some(k)
    {
      RemappedEdge(Edges(m.states[s].edges), mapping, c, k);
      StepFollows(m, s, c);
    }
  }

  lemma QuotientIsDfa(m: Fsm, mapping: seq<nat>, d: Fsm)
    requires IsDfa(m) && IsQuotient(m, mapping, d)
    requires forall t :: 0 <= t < |mapping| ==> mapping[t] < NO_STATE
    ensures IsDfa(d)
  {
    forall k | 0 <= k < |d.states|
      ensures Sorted(d.states[k].edges) && EdgesWithin(d.states[k].edges, |d.states|)
      ensures d.states[k].epsilons == {} && Deterministic(d.states[k].edges)
    {
      if k in mapping {
        var t :| 0 <= t < |mapping| && mapping[t] == k;
        var s := FirstOf(mapping, t);
        CopyEdges(m, mapping, s, d.states[k], |d.states|);
        FunctionalGroups(d.states[k].edges);
      }
    }
  }

  /** One step in the quotient is one step in the machine, seen through the mapping. */
  lemma QuotientStep(m: Fsm, mapping: seq<nat>, d: Fsm, s: nat, c: Byte)
    requires IsDfa(m) && IsDfa(d) && IsQuotient(m, mapping, d) && IsCongruence(m, mapping)
    requires forall t :: 0 <= t < |mapping| ==> mapping[t] < NO_STATE
    requires s < |mapping|
    ensures Step(d, mapping[s], c) == Image(mapping, d, Step(m, s, c))
  {
    var f := FirstOf(mapping, s);
    var k := mapping[s];
    CopyEdges(m, mapping, f, d.states[k], |d.states|);
    StepFollows(d, k, c);
    assert Mapped(mapping, Step(m, s, c)) == Mapped(mapping, Step(m, f, c));
    assert (c, Step(d, k, c)) in Edges(d.states[k].edges) <==> Step(d, k, c) < |d.states|;
    if Step(m, s, c) < |mapping| {
      assert (c, mapping[Step(m, s, c)]) in Edges(d.states[k].edges);
    }
  }

  lemma {:induction false} QuotientRun(m: Fsm, mapping: seq<nat>, d: Fsm, s: nat, w: seq<Byte>)
    requires IsDfa(m) && IsDfa(d) && IsQuotient(m, mapping, d) && IsCongruence(m, mapping)
    requires forall t :: 0 <= t < |mapping| ==> mapping[t] < NO_STATE
    requires s <= |m.states|
    ensures Run(d, Image(mapping, d, s), w) == Image(mapping, d, Run(m, s, w))
    decreases |w|
  {
    if w != [] {
      if s < |m.states| {
        QuotientStep(m, mapping, d, s, w[0]);
      }
      QuotientRun(m, mapping, d, Step(m, s, w[0]), w[1..]);
    }
  }

  /** What the quotient shows at a class: the end flag of its members, and all their end IDs. */
  lemma QuotientObserves(m: Fsm, mapping: seq<nat>, d: Fsm, s: nat)
    requires IsQuotient(m, mapping, d) && IsCongruence(m, mapping) && s <= |m.states|
    ensures Observe(d, Image(mapping, d, s)).Some? <==> Observe(m, s).Some?
    ensures IdsAgree(m, mapping) ==> Observe(d, Image(mapping, d, s)) == Observe(m, s)
  {
    if s < |m.states| {
      var f := FirstOf(mapping, s);
      var k := mapping[s];
      assert CopyOf(m, mapping, f, d.states[k], |d.states|);
      if m.states[s].end && IdsAgree(m, mapping) {
        assert IdsOf(m, mapping, k, d.states[k].endIds, |mapping|);
        forall id
          ensures id in d.states[k].endIds <==> id in m.states[s].endIds
        {
          if id in m.states[s].endIds {
            assert MemberHasId(m, mapping, k, id, |mapping|);
          }
        }
        assert d.states[k].endIds == m.states[s].endIds;
      }
    }
  }

  /** For every congruence the consolidated automaton is deterministic, and state `mapping[s]`
      accepts exactly what `s` accepted; with agreeing end IDs it also reports the same IDs. */
  lemma QuotientAccepts(m: Fsm, mapping: seq<nat>, d: Fsm)
    requires IsDfa(m) && IsQuotient(m, mapping, d) && IsCongruence(m, mapping)
    requires forall t :: 0 <= t < |mapping| ==> mapping[t] < NO_STATE
    ensures IsDfa(d)
    ensures forall s, w: seq<Byte> :: 0 <= s < |mapping| ==>
              (Observe(d, Run(d, mapping[s], w)).Some? <==> Observe(m, Run(m, s, w)).Some?)
    ensures IdsAgree(m, mapping) ==> forall s, w: seq<Byte> :: 0 <= s < |mapping| ==>
              Observe(d, Run(d, mapping[s], w)) == Observe(m, Run(m, s, w))
  {
    QuotientIsDfa(m, mapping, d);
    forall s, w: seq<Byte> | 0 <= s < |mapping|
      ensures Observe(d, Run(d, mapping[s], w)).Some? <==> Observe(m, Run(m, s, w)).Some?
      ensures IdsAgree(m, mapping) ==> Observe(d, Run(d, mapping[s], w)) == Observe(m, Run(m, s, w))
    {
      QuotientRun(m, mapping, d, s, w);
      QuotientObserves(m, mapping, d, Run(m, s, w));
    }
  }
}
