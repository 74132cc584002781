/** Removing epsilons in place. The states are rewritten in ascending order, each taking over
the edges, end flag and end IDs of its whole closure, some of whose members have been rewritten
before. States that only epsilons lead to are left as they are. */
module Epsilons {
  import opened Automata
  import opened Nfa
  import opened Closure
  import opened EdgeSets
  import opened Guard

  // ----- what a state is to become -----

  /** `(c, t)` is an edge of some state in the closure. */
  ghost predicate ClosureEdge(m: Fsm, s: nat, e: (Byte, nat)) {
    exists u: nat :: EdgeFrom(m, s, u, e)
  }

  ghost predicate EdgeFrom(m: Fsm, s: nat, u: nat, e: (Byte, nat)) {
    EpsReaches(m, s, u) && u < |m.states| && e in Edges(m.states[u].edges)
  }

  ghost predicate ClosureEnd(m: Fsm, s: nat) {
    exists u: nat :: EndFrom(m, s, u)
  }

  ghost predicate EndFrom(m: Fsm, s: nat, u: nat) {
    EpsReaches(m, s, u) && u < |m.states| && m.states[u].end
  }

  /** `id` is an end ID of an end state in the closure. */
  ghost predicate ClosureId(m: Fsm, s: nat, id: nat) {
    exists u: nat :: IdFromState(m, s, u, id)
  }

  ghost predicate IdFromState(m: Fsm, s: nat, u: nat, id: nat) {
    EndFrom(m, s, u) && id in m.states[u].endIds
  }

  /** The start, and the states that some label leads to, keep a place in the machine. */
  ghost predicate Kept(m: Fsm, s: nat) {
    m.start == Some(s) || LabelReached(m, s)
  }

  ghost predicate LabelReached(m: Fsm, s: nat) {
    exists u: nat, c: Byte :: IsTarget(m, u, c, s)
  }

  /** End IDs that a state holds without being an end state turn up in its results once it
      becomes one, unless its closure holds them anyway. */
  ghost predicate StrayHarmless(m: Fsm) {
    forall s: nat :: s < |m.states| && Kept(m, s) && ClosureEnd(m, s) ==> StrayHarmlessAt(m, s)
  }

  ghost predicate StrayHarmlessAt(m: Fsm, s: nat)
    requires s < |m.states|
  {
    forall id :: id in m.states[s].endIds ==> ClosureId(m, s, id)
  }

  /** `id` comes from `s` itself, or from a member of its closure that became an end before `s`
      was rewritten, whether or not it was an end to begin with. */
  ghost predicate StrayFrom(m: Fsm, s: nat, u: nat, id: nat) {
    && EpsReaches(m, s, u) && u < |m.states| && id in m.states[u].endIds
    && (u == s || (u < s && Kept(m, u) && ClosureEnd(m, u)))
  }

  /** The end IDs of `s` after the pass, if it is an end then. */
  ghost predicate ResultId(m: Fsm, s: nat, id: nat) {
    ClosureId(m, s, id) || exists u: nat :: StrayFrom(m, s, u, id)
  }

  /** `st` is what `s` becomes, apart from its epsilons. */
  ghost predicate Rewritten(m: Fsm, s: nat, st: State)
    requires s < |m.states|
  {
    && Sorted(st.edges) && EdgesWithin(st.edges, |m.states|)
    && (forall e :: e in Edges(st.edges) <==> ClosureEdge(m, s, e))
    && (st.end <==> ClosureEnd(m, s))
    && (ClosureEnd(m, s) ==> forall id :: id in st.endIds <==> ResultId(m, s, id))
    && (!ClosureEnd(m, s) ==> st.endIds == m.states[s].endIds)
  }

  /** State `s` has been rewritten when the pass comes to `n`. */
  ghost predicate Done(m: Fsm, n: nat, s: nat) {
    s < n && Kept(m, s)
  }

  /** The original or the rewritten state, as the pass finds it when it comes to `n`. */
  ghost predicate Between(m: Fsm, n: nat, s: nat, st: State)
    requires s < |m.states|
  {
    && (forall e :: e in Edges(m.states[s].edges) ==> e in Edges(st.edges))
    && (forall e :: e in Edges(st.edges) ==> ClosureEdge(m, s, e))
    && EdgesWithin(st.edges, |m.states|)
    && (m.states[s].end ==> st.end) && (st.end ==> ClosureEnd(m, s))
    && (Done(m, n, s) && ClosureEnd(m, s) ==> st.end)
    && (st.end ==> forall id :: id in m.states[s].endIds ==> id in st.endIds)
    && (st.end ==> forall id :: id in st.endIds ==> ClosureId(m, s, id) || (Done(m, n, s) && ResultId(m, s, id)))
  }

  lemma OwnHas(m: Fsm, s: nat)
    requires WellFormed(m) && s < |m.states|
    ensures forall e :: e in Edges(m.states[s].edges) ==> ClosureEdge(m, s, e)
    ensures m.states[s].end ==> ClosureEnd(m, s) && forall id :: id in m.states[s].endIds ==> ClosureId(m, s, id)
    ensures forall id :: id in m.states[s].endIds ==> ResultId(m, s, id)
  {
    forall id | id in m.states[s].endIds
      ensures ResultId(m, s, id)
    {
      EpsReflexive(m, s);
      assert StrayFrom(m, s, s, id);
    }
    EpsReflexive(m, s);
    forall e | e in Edges(m.states[s].edges)
      ensures ClosureEdge(m, s, e)
    {
      assert EdgeFrom(m, s, s, e);
    }
    if m.states[s].end {
      assert EndFrom(m, s, s);
      forall id | id in m.states[s].endIds
        ensures ClosureId(m, s, id)
      {
        assert IdFromState(m, s, s, id);
      }
    }
  }

  lemma OwnBetween(m: Fsm, n: nat, s: nat)
    requires WellFormed(m) && s < |m.states| && !Done(m, n, s)
    ensures Between(m, n, s, m.states[s])
  {
    OwnHas(m, s);
  }

  lemma RewrittenBetween(m: Fsm, n: nat, s: nat, st: State)
    requires WellFormed(m) && s < |m.states| && Done(m, n, s) && Rewritten(m, s, st)
    ensures Between(m, n, s, st)
  {
    OwnHas(m, s);
  }

  /** What the closure of a member has, the closure has. */
  lemma ClosureWithin(m: Fsm, s: nat, u: nat)
    requires EpsReaches(m, s, u)
    ensures forall e :: ClosureEdge(m, u, e) ==> ClosureEdge(m, s, e)
    ensures ClosureEnd(m, u) ==> ClosureEnd(m, s)
    ensures forall id :: ClosureId(m, u, id) ==> ClosureId(m, s, id)
  {
    forall e | ClosureEdge(m, u, e)
      ensures ClosureEdge(m, s, e)
    {
      var v: nat :| EdgeFrom(m, u, v, e);
      EpsTransitive(m, s, u, v);
      assert EdgeFrom(m, s, v, e);
    }
    if ClosureEnd(m, u) {
      var v: nat :| EndFrom(m, u, v);
      EpsTransitive(m, s, u, v);
      assert EndFrom(m, s, v);
    }
    forall id | ClosureId(m, u, id)
      ensures ClosureId(m, s, id)
    {
      var v: nat :| IdFromState(m, u, v, id);
      EpsTransitive(m, s, u, v);
      assert IdFromState(m, s, v, id);
    }
  }

  // ----- what the rewriting means -----

  /** `d` is `m` with the kept states rewritten and all epsilons gone. */
  ghost predicate Removed(m: Fsm, d: Fsm) {
    && |d.states| == |m.states| && d.start == m.start && EpsilonFree(d)
    && (forall s: nat :: s < |m.states| && Kept(m, s) ==> Rewritten(m, s, d.states[s]))
    && (forall s: nat :: s < |m.states| && !Kept(m, s) ==> d.states[s] == m.states[s].(epsilons := {}))
  }

  lemma EdgeTargets(es: seq<Group>, c: Byte, t: nat)
    ensures (c, t) in Edges(es) <==> t in Targets(es, c)
  {
    if (c, t) in Edges(es) {
      var i, x :| 0 <= i < |es| && x in es[i].symbols && (c, t) == (x, es[i].to);
      assert c in es[i].symbols && t == es[i].to;
    }
    if t in Targets(es, c) {
      var i :| 0 <= i < |es| && c in es[i].symbols && t == es[i].to;
      assert c in es[i].symbols;
    }
  }

  /** A kept state has its labelled steps, epsilons before them included, as plain edges. */
  lemma RemovedStep(m: Fsm, d: Fsm, s: nat, c: Byte, v: nat)
    requires WellFormed(m) && Removed(m, d) && s < |m.states| && Kept(m, s)
    ensures LabelStep(d, s, c, v) <==> LabelStep(m, s, c, v)
    ensures LabelStep(m, s, c, v) ==> v < |m.states| && Kept(m, v)
  {
    EpsilonFreeStep(d, s, c, v);
    EdgeTargets(d.states[s].edges, c, v);
    if LabelStep(m, s, c, v) {
      var u: nat :| EpsReaches(m, s, u) && IsTarget(m, u, c, v);
      EdgeTargets(m.states[u].edges, c, v);
      assert EdgeFrom(m, s, u, (c, v));
      assert ClosureEdge(m, s, (c, v));
      assert LabelReached(m, v);
    }
    if IsTarget(d, s, c, v) {
      assert ClosureEdge(m, s, (c, v));
      var u: nat :| EdgeFrom(m, s, u, (c, v));
      EdgeTargets(m.states[u].edges, c, v);
      assert IsTarget(m, u, c, v);
    }
  }

  lemma RemovedAcceptsEmpty(m: Fsm, d: Fsm, s: nat, w: seq<Byte>)
    requires WellFormed(m) && Removed(m, d) && s < |m.states| && Kept(m, s) && w == []
    ensures AcceptsFrom(m, s, w) <==> AcceptsFrom(d, s, w)
  {
    EpsilonFreeReaches(d, s, s);
    if AcceptsFrom(m, s, w) {
      var t: nat :| Reaches(m, s, w, t) && t < |m.states| && m.states[t].end;
      assert EndFrom(m, s, t);
      assert Reaches(d, s, w, s);
    }
    if AcceptsFrom(d, s, w) {
      var t: nat :| Reaches(d, s, w, t) && t < |d.states| && d.states[t].end;
      EpsilonFreeReaches(d, s, t);
      var u: nat :| EndFrom(m, s, u);
      assert Reaches(m, s, w, u);
    }
  }

  /** Acceptance from a kept state, before and after. */
  lemma {:induction false} RemovedAccepts(m: Fsm, d: Fsm, s: nat, w: seq<Byte>)
    requires WellFormed(m) && Removed(m, d) && s < |m.states| && Kept(m, s)
    ensures AcceptsFrom(m, s, w) <==> AcceptsFrom(d, s, w)
    decreases |w|
  {
    if w == [] {
      RemovedAcceptsEmpty(m, d, s, w);
    } else {
      if AcceptsFrom(m, s, w) {
        var t: nat :| Reaches(m, s, w, t) && t < |m.states| && m.states[t].end;
        var v :| LabelStep(m, s, w[0], v) && Reaches(m, v, w[1..], t);
        RemovedStep(m, d, s, w[0], v);
        assert AcceptsFrom(m, v, w[1..]);
        RemovedAccepts(m, d, v, w[1..]);
        var t': nat :| Reaches(d, v, w[1..], t') && t' < |d.states| && d.states[t'].end;
        assert Reaches(d, s, w, t');
      }
      if AcceptsFrom(d, s, w) {
        var t: nat :| Reaches(d, s, w, t) && t < |d.states| && d.states[t].end;
        var v :| LabelStep(d, s, w[0], v) && Reaches(d, v, w[1..], t);
        RemovedStep(m, d, s, w[0], v);
        assert AcceptsFrom(d, v, w[1..]);
        RemovedAccepts(m, d, v, w[1..]);
        var t': nat :| Reaches(m, v, w[1..], t') && t' < |m.states| && m.states[t'].end;
        assert Reaches(m, s, w, t');
      }
    }
  }

  /** Without harmful strays, only the IDs of ends in the closure are left. */
  lemma HarmlessIds(m: Fsm, s: nat, id: nat)
    requires StrayHarmless(m) && s < |m.states| && Kept(m, s) && ClosureEnd(m, s) && ResultId(m, s, id)
    ensures ClosureId(m, s, id)
  {
    if !ClosureId(m, s, id) {
      var u: nat :| StrayFrom(m, s, u, id);
      assert StrayHarmlessAt(m, u);
      ClosureWithin(m, s, u);
    }
  }

  /** End IDs from a kept state: none is lost, and none is added unless there are strays. */
  lemma {:induction false} RemovedIds(m: Fsm, d: Fsm, s: nat, w: seq<Byte>, id: nat)
    requires WellFormed(m) && Removed(m, d) && s < |m.states| && Kept(m, s)
    ensures IdFrom(m, s, w, id) ==> IdFrom(d, s, w, id)
    ensures StrayHarmless(m) && IdFrom(d, s, w, id) ==> IdFrom(m, s, w, id)
    decreases |w|
  {
    if w == [] {
      EpsilonFreeReaches(d, s, s);
      if IdFrom(m, s, w, id) {
        var t: nat :| Reaches(m, s, w, t) && t < |m.states| && m.states[t].end && id in m.states[t].endIds;
        assert EndFrom(m, s, t) && IdFromState(m, s, t, id);
        assert Reaches(d, s, w, s);
      }
      if StrayHarmless(m) && IdFrom(d, s, w, id) {
        var t: nat :| Reaches(d, s, w, t) && t < |d.states| && d.states[t].end && id in d.states[t].endIds;
        EpsilonFreeReaches(d, s, t);
        HarmlessIds(m, s, id);
        var u: nat :| IdFromState(m, s, u, id);
        assert Reaches(m, s, w, u);
      }
    } else {
      if IdFrom(m, s, w, id) {
        var t: nat :| Reaches(m, s, w, t) && t < |m.states| && m.states[t].end && id in m.states[t].endIds;
        var v :| LabelStep(m, s, w[0], v) && Reaches(m, v, w[1..], t);
        RemovedStep(m, d, s, w[0], v);
        assert IdFrom(m, v, w[1..], id);
        RemovedIds(m, d, v, w[1..], id);
        var t': nat :| Reaches(d, v, w[1..], t') && t' < |d.states| && d.states[t'].end && id in d.states[t'].endIds;
        assert Reaches(d, s, w, t');
      }
      if StrayHarmless(m) && IdFrom(d, s, w, id) {
        var t: nat :| Reaches(d, s, w, t) && t < |d.states| && d.states[t].end && id in d.states[t].endIds;
        var v :| LabelStep(d, s, w[0], v) && Reaches(d, v, w[1..], t);
        RemovedStep(m, d, s, w[0], v);
        assert IdFrom(d, v, w[1..], id);
        RemovedIds(m, d, v, w[1..], id);
        var t': nat :| Reaches(m, v, w[1..], t') && t' < |m.states| && m.states[t'].end && id in m.states[t'].endIds;
        assert Reaches(m, s, w, t');
      }
    }
  }

  /** The states that are skipped cannot be reached any more. */
  lemma {:induction false} SkippedUnreachable(m: Fsm, d: Fsm, s: nat, w: seq<Byte>, t: nat)
    requires WellFormed(m) && Removed(m, d) && s < |m.states| && Kept(m, s) && Reaches(d, s, w, t)
    ensures t < |m.states| && Kept(m, t)
    decreases |w|
  {
    if w == [] {
      EpsilonFreeReaches(d, s, t);
    } else {
      var v :| LabelStep(d, s, w[0], v) && Reaches(d, v, w[1..], t);
      RemovedStep(m, d, s, w[0], v);
      SkippedUnreachable(m, d, v, w[1..], t);
    }
  }

  /** Acceptance is preserved from the start. */
  lemma RemovedLanguage(m: Fsm, d: Fsm)
    requires WellFormed(m) && Removed(m, d)
    ensures SameLanguage(m, d)
    ensures StrayHarmless(m) ==> SameIds(m, d)
  {
    if m.start.Some? {
      forall w: seq<Byte>
        ensures AcceptsFrom(m, m.start.value, w) <==> AcceptsFrom(d, m.start.value, w)
      {
        RemovedAccepts(m, d, m.start.value, w);
      }
      forall w: seq<Byte>, id: nat | StrayHarmless(m)
        ensures IdFrom(m, m.start.value, w, id) <==> IdFrom(d, m.start.value, w, id)
      {
        RemovedIds(m, d, m.start.value, w, id);
      }
    }
  }

  ghost predicate SameIdsFromKept(m: Fsm, d: Fsm) {
    forall s: nat, w: seq<Byte>, id: nat :: s < |m.states| && Kept(m, s) ==> (IdFrom(m, s, w, id) <==> IdFrom(d, s, w, id))
  }

  /** End IDs are preserved from every kept state exactly when there are no harmful strays. */
  lemma RemovedIdsExact(m: Fsm, d: Fsm)
    requires WellFormed(m) && Removed(m, d)
    ensures SameIdsFromKept(m, d) <==> StrayHarmless(m)
  {
    if StrayHarmless(m) {
      forall s: nat, w: seq<Byte>, id: nat | s < |m.states| && Kept(m, s)
        ensures IdFrom(m, s, w, id) <==> IdFrom(d, s, w, id)
      {
        RemovedIds(m, d, s, w, id);
      }
    }
    if SameIdsFromKept(m, d) {
      forall s: nat | s < |m.states| && Kept(m, s) && ClosureEnd(m, s)
        ensures StrayHarmlessAt(m, s)
      {
        StrayShows(m, d, s);
      }
    }
  }

  lemma StrayShows(m: Fsm, d: Fsm, s: nat)
    requires Removed(m, d) && s < |m.states| && Kept(m, s) && ClosureEnd(m, s) && SameIdsFromKept(m, d)
    ensures StrayHarmlessAt(m, s)
  {
    var e: seq<Byte> := [];
    EpsilonFreeReaches(d, s, s);
    forall id | id in m.states[s].endIds
      ensures ClosureId(m, s, id)
    {
      assert Reaches(d, s, e, s);
      EpsReflexive(m, s);
      assert StrayFrom(m, s, s, id) && ResultId(m, s, id);
      assert IdFrom(d, s, e, id);
      assert IdFrom(m, s, e, id);
      var t: nat :| Reaches(m, s, e, t) && t < |m.states| && m.states[t].end && id in m.states[t].endIds;
      assert IdFromState(m, s, t, id);
    }
  }

  // ----- what is reported, strays or not -----

  /** Label steps, each with epsilons before it, lead from `s` to `t` on `w`. */
  ghost predicate Arrives(m: Fsm, s: nat, w: seq<Byte>, t: nat)
    decreases |w|
  {
    if w == [] then s == t else exists v :: LabelStep(m, s, w[0], v) && Arrives(m, v, w[1..], t)
  }

  ghost predicate ShownBy(m: Fsm, s: nat, w: seq<Byte>, id: nat, t: nat) {
    Arrives(m, s, w, t) && t < |m.states| && ClosureEnd(m, t) && ResultId(m, t, id)
  }

  /** `id` is reported after `w`. */
  ghost predicate ShownId(m: Fsm, s: nat, w: seq<Byte>, id: nat) {
    exists t: nat :: ShownBy(m, s, w, id, t)
  }

  /** The IDs reported from a kept state after the pass, exactly. */
  lemma {:induction false} RemovedIdsShown(m: Fsm, d: Fsm, s: nat, w: seq<Byte>, id: nat)
    requires WellFormed(m) && Removed(m, d) && s < |m.states| && Kept(m, s)
    ensures IdFrom(d, s, w, id) <==> ShownId(m, s, w, id)
    decreases |w|
  {
    if w == [] {
      EpsilonFreeReaches(d, s, s);
      assert Rewritten(m, s, d.states[s]);
      if IdFrom(d, s, w, id) {
        var t: nat :| Reaches(d, s, w, t) && t < |d.states| && d.states[t].end && id in d.states[t].endIds;
        EpsilonFreeReaches(d, s, t);
        assert ShownBy(m, s, w, id, s);
      }
      if ShownId(m, s, w, id) {
        assert Reaches(d, s, w, s);
      }
    } else {
      if IdFrom(d, s, w, id) {
        var t: nat :| Reaches(d, s, w, t) && t < |d.states| && d.states[t].end && id in d.states[t].endIds;
        var v :| LabelStep(d, s, w[0], v) && Reaches(d, v, w[1..], t);
        RemovedStep(m, d, s, w[0], v);
        assert IdFrom(d, v, w[1..], id);
        RemovedIdsShown(m, d, v, w[1..], id);
        var t': nat :| ShownBy(m, v, w[1..], id, t');
        assert ShownBy(m, s, w, id, t');
      }
      if ShownId(m, s, w, id) {
        var t: nat :| ShownBy(m, s, w, id, t);
        var v :| LabelStep(m, s, w[0], v) && Arrives(m, v, w[1..], t);
        RemovedStep(m, d, s, w[0], v);
        assert ShownBy(m, v, w[1..], id, t);
        RemovedIdsShown(m, d, v, w[1..], id);
        var t': nat :| Reaches(d, v, w[1..], t') && t' < |d.states| && d.states[t'].end && id in d.states[t'].endIds;
        assert Reaches(d, s, w, t');
      }
    }
  }

  /** From the start, end IDs are preserved exactly when no string shows an ID of a state that
      only became an end. */
  lemma RemovedIdsFromStart(m: Fsm, d: Fsm)
    requires WellFormed(m) && Removed(m, d) && m.start.Some?
    ensures SameIds(m, d) <==>
            forall w: seq<Byte>, id: nat :: ShownId(m, m.start.value, w, id) ==> IdFrom(m, m.start.value, w, id)
  {
    var b := m.start.value;
    forall w: seq<Byte>, id: nat
      ensures IdFrom(d, b, w, id) <==> ShownId(m, b, w, id)
      ensures IdFrom(m, b, w, id) ==> IdFrom(d, b, w, id)
    {
      RemovedIdsShown(m, d, b, w, id);
      RemovedIds(m, d, b, w, id);
    }
  }

  /** A machine without epsilons is what the pass would make of it. */
  lemma FreeIsRemoved(m: Fsm)
    requires WellFormed(m) && EpsilonFree(m)
    ensures Removed(m, m)
  {
    forall s: nat | s < |m.states|
      ensures Rewritten(m, s, m.states[s])
    {
      FreeIsRewritten(m, s);
    }
  }

  lemma FreeIsRewritten(m: Fsm, s: nat)
    requires WellFormed(m) && EpsilonFree(m) && s < |m.states|
    ensures Rewritten(m, s, m.states[s])
  {
    OwnHas(m, s);
    forall u: nat
      ensures EpsReaches(m, s, u) <==> u == s
    {
      EpsilonFreeReaches(m, s, u);
    }
  }

  /** The smallest machine with a stray: the start is no end state but holds an ID, and an
      epsilon leads to an end state without one. */
  function StrayExample(): Fsm {
    Fsm([State([], {1}, false, {7}), State([], {}, true, {})], Some(0))
  }

  lemma StrayLeaks(d: Fsm)
    requires Removed(StrayExample(), d)
    ensures IdFrom(d, 0, [], 7) && !IdFrom(StrayExample(), 0, [], 7)
  {
    var m, e: seq<Byte> := StrayExample(), [];
    EpsReflexive(m, 0);
    assert EpsStep(m, 0, 1);
    EpsExtend(m, 0, 0, 1);
    assert EndFrom(m, 0, 1);
    assert Kept(m, 0) && Rewritten(m, 0, d.states[0]);
    assert StrayFrom(m, 0, 0, 7) && ResultId(m, 0, 7);
    EpsilonFreeReaches(d, 0, 0);
    assert Reaches(d, 0, e, 0);
  }

  // ----- the pass -----

  /** Taking over from the closure of `s`, members below `k` done: `st` is the state so far and
      `r` its edges so far. */
  ghost predicate Taking(m: Fsm, s: nat, st: State, r: set<(Byte, nat)>, k: nat)
    requires s < |m.states|
  {
    forall b {:trigger Look(b)} :: Look(b) ==>
      && (forall e :: e in r ==> ClosureEdge(m, s, e))
      && (forall u: nat, e :: u < k && EdgeFrom(m, s, u, e) ==> e in r)
      && (st.end ==> ClosureEnd(m, s))
      && (forall id :: id in m.states[s].endIds ==> id in st.endIds)
      && (forall u: nat :: u < k && EndFrom(m, s, u) ==> st.end && forall id :: ResultId(m, s, id) ==> id in st.endIds)
      && (!ClosureEnd(m, s) ==> st.endIds == m.states[s].endIds)
      && (forall id :: id in st.endIds ==> ResultId(m, s, id))
  }

  lemma TakingBegins(m: Fsm, s: nat)
    requires WellFormed(m) && s < |m.states| && Kept(m, s)
    ensures Taking(m, s, m.states[s], Edges(m.states[s].edges), 0)
  {
    OwnHas(m, s);
  }

  lemma TakingEnds(m: Fsm, s: nat, st: State, r: set<(Byte, nat)>)
    requires s < |m.states| && Taking(m, s, st, r, |m.states|)
    requires Sorted(st.edges) && EdgesWithin(st.edges, |m.states|) && Edges(st.edges) == r
    ensures Rewritten(m, s, st)
  {
    assert Look(true);
    forall e | ClosureEdge(m, s, e)
      ensures e in r
    {
      var u: nat :| EdgeFrom(m, s, u, e);
    }
    if ClosureEnd(m, s) {
      var u: nat :| EndFrom(m, s, u);
    }
  }

  /** A state outside the closure has nothing to give. */
  lemma TakingSkips(m: Fsm, s: nat, st: State, r: set<(Byte, nat)>, k: nat)
    requires s < |m.states| && Taking(m, s, st, r, k) && !EpsReaches(m, s, k)
    ensures Taking(m, s, st, r, k + 1)
  {
    assert Look(true);
  }

  /** The end flag and the end IDs of all the members that are end states by now. */
  ghost predicate IsCarried(m: Fsm, s: nat, cur: seq<State>, ids: set<nat>)
    requires |cur| == |m.states|
  {
    forall id :: id in ids <==> exists u: nat :: CarriedFrom(m, s, cur, u, id)
  }

  ghost predicate CarriedFrom(m: Fsm, s: nat, cur: seq<State>, u: nat, id: nat)
    requires |cur| == |m.states|
  {
    u < |cur| && EpsReaches(m, s, u) && cur[u].end && id in cur[u].endIds
  }

  lemma TakingEnd(m: Fsm, s: nat, cur: seq<State>, st: State, r: set<(Byte, nat)>, k: nat, ids: set<nat>)
    requires WellFormed(m) && |cur| == |m.states| && s < |m.states| && Taking(m, s, st, r, k)
    requires k < |cur| && EpsReaches(m, s, k) && cur[s] == st.(end := true) && (if k == s then st.end else cur[k].end)
    requires forall u: nat :: u < |cur| && u != s ==> Between(m, s, u, cur[u])
    requires IsCarried(m, s, cur, ids)
    ensures ClosureEnd(m, s)
    ensures Taking(m, s, st.(end := true, endIds := st.endIds + ids), r, k)
    ensures forall id :: ResultId(m, s, id) ==> id in st.endIds + ids
  {
    assert Look(true);
    if k != s {
      assert Between(m, s, k, cur[k]);
      ClosureWithin(m, s, k);
    }
    forall id | ResultId(m, s, id)
      ensures id in st.endIds + ids
    {
      if ClosureId(m, s, id) {
        var u: nat :| IdFromState(m, s, u, id);
        assert u != s ==> Between(m, s, u, cur[u]) && CarriedFrom(m, s, cur, u, id);
      } else {
        var u: nat :| StrayFrom(m, s, u, id);
        assert u != s ==> Between(m, s, u, cur[u]) && CarriedFrom(m, s, cur, u, id);
      }
    }
    forall id | id in ids
      ensures ResultId(m, s, id)
    {
      var u: nat :| CarriedFrom(m, s, cur, u, id);
      if u != s {
        assert Between(m, s, u, cur[u]);
        ResultWithin(m, s, u, id);
      }
    }
  }

  /** What a member shows is shown by `s`, if it was rewritten before. */
  lemma ResultWithin(m: Fsm, s: nat, u: nat, id: nat)
    requires EpsReaches(m, s, u) && ClosureEnd(m, u)
    requires ClosureId(m, u, id) || (Done(m, s, u) && ResultId(m, u, id))
    ensures ResultId(m, s, id)
  {
    ClosureWithin(m, s, u);
    if !ClosureId(m, u, id) {
      var v: nat :| StrayFrom(m, u, v, id);
      EpsTransitive(m, s, u, v);
      assert StrayFrom(m, s, v, id);
    }
  }

  /** Member `k` gives its edges, and its end if it has one. */
  lemma TakingEdges(m: Fsm, s: nat, st: State, r: set<(Byte, nat)>, k: nat, from: set<(Byte, nat)>)
    requires s < |m.states| && Taking(m, s, st, r, k) && k < |m.states| && EpsReaches(m, s, k)
    requires forall e :: e in Edges(m.states[k].edges) ==> e in from
    requires forall e :: e in from ==> ClosureEdge(m, k, e) || e in r
    requires m.states[k].end ==> st.end && forall id :: ResultId(m, s, id) ==> id in st.endIds
    ensures Taking(m, s, st, r + from, k + 1)
  {
    assert Look(true);
    ClosureWithin(m, s, k);
  }

  /** Mark the start and whatever a label leads to. */
  method MarkStatesReachableByLabel(m: Fsm) returns (marks: array<bool>)
    requires WellFormed(m) && m.start.Some?
    ensures fresh(marks) && marks.Length == |m.states|
    ensures forall s: nat :: s < |m.states| ==> (marks[s] <==> Kept(m, s))
  {
    marks := new bool[|m.states|](_ => false);
    marks[m.start.value] := true;
    for u := 0 to |m.states|
      invariant marks[m.start.value]
      invariant forall t: nat :: t < |m.states| && marks[t] ==> Kept(m, t)
      invariant forall v: nat, c: Byte, t: nat :: v < u && t < |m.states| && IsTarget(m, v, c, t) ==> marks[t]
    {
      MarkTargets(m, u, marks);
    }
  }

  method MarkTargets(m: Fsm, u: nat, marks: array<bool>)
    requires WellFormed(m) && u < |m.states| == marks.Length
    requires forall t: nat :: t < |m.states| && marks[t] ==> Kept(m, t)
    modifies marks
    ensures forall t: nat :: t < |m.states| && marks[t] ==> Kept(m, t)
    ensures forall t :: 0 <= t < marks.Length && old(marks[t]) ==> marks[t]
    ensures forall c: Byte, t: nat :: t < |m.states| && IsTarget(m, u, c, t) ==> marks[t]
  {
    var es := m.states[u].edges;
    for i := 0 to |es|
      invariant forall t: nat :: t < |m.states| && marks[t] ==> Kept(m, t)
      invariant forall t :: 0 <= t < marks.Length && old(marks[t]) ==> marks[t]
      invariant forall j, c :: 0 <= j < i && c in es[j].symbols ==> marks[es[j].to]
    {
      if es[i].symbols != {} {
        var c :| c in es[i].symbols;
        assert IsTarget(m, u, c, es[i].to);
        marks[es[i].to] := true;
      }
    }
  }

  /** The end IDs of the end states in `cl`. */
  method CollectIds(cur: array<State>, cl: set<nat>) returns (ids: set<nat>)
    ensures forall id :: id in ids <==> exists u: nat :: u < cur.Length && u in cl && cur[u].end && id in cur[u].endIds
  {
    ids := {};
    for u := 0 to cur.Length
      invariant forall id :: id in ids <==> exists v: nat :: v < u && v in cl && cur[v].end && id in cur[v].endIds
    {
      if u in cl && cur[u].end {
        ids := ids + cur[u].endIds;
      }
    }
  }

  /** Carry the end of member `k` of the closure over to `s`. */
  method CarryEnd(m: Fsm, cur: array<State>, cl: set<nat>, s: nat, k: nat, ghost r: set<(Byte, nat)>)
    requires WellFormed(m) && cur.Length == |m.states| && s < |m.states| && IsClosure(m, s, cl) && k in cl && k < |m.states|
    requires cur[k].end && Taking(m, s, cur[s], r, k)
    requires forall u: nat :: u < |m.states| && u != s ==> Between(m, s, u, cur[u])
    modifies cur
    ensures forall u :: 0 <= u < cur.Length && u != s ==> cur[u] == old(cur[u])
    ensures cur[s].edges == old(cur[s].edges) && cur[s].end && Taking(m, s, cur[s], r, k)
    ensures forall id :: ResultId(m, s, id) ==> id in cur[s].endIds
  {
    ghost var st := cur[s];
    cur[s] := cur[s].(end := true);
    var ids := CollectIds(cur, cl);
    forall id
      ensures id in ids <==> exists u: nat :: CarriedFrom(m, s, cur[..], u, id)
    {
      if id in ids {
        var u: nat :| u < cur.Length && u in cl && cur[u].end && id in cur[u].endIds;
        assert CarriedFrom(m, s, cur[..], u, id);
      }
    }
    TakingEnd(m, s, cur[..], st, r, k, ids);
    cur[s] := cur[s].(endIds := cur[s].endIds + ids);
  }

  /** Add all edges of the groups; groups without symbols are passed over. */
  method AddGroups(es: EdgeSet, gs: seq<Group>, ghost n: nat)
    requires es.Valid() && EdgesWithin(es.Contents(), n) && EdgesWithin(gs, n)
    modifies es, es.groups
    ensures es.Valid() && (es.groups == old(es.groups) || fresh(es.groups)) && EdgesWithin(es.Contents(), n)
    ensures Edges(es.Contents()) == old(Edges(es.Contents())) + Edges(gs)
  {
    ghost var before := Edges(es.Contents());
    assert gs[..0] == [];
    for i := 0 to |gs|
      invariant es.Valid() && (es.groups == old(es.groups) || fresh(es.groups)) && EdgesWithin(es.Contents(), n)
      invariant Edges(es.Contents()) == before + Edges(gs[..i])
    {
      assert gs[..i + 1] == gs[..i] + [gs[i]];
      EdgesConcat(gs[..i], [gs[i]]);
      EdgesOne(gs[i]);
      if gs[i].symbols != {} {
        es.AddBulk(gs[i].symbols, gs[i].to);
      }
    }
    assert gs[..|gs|] == gs;
  }

  /** Member `k` of the closure of `s` gives what it has by now. */
  method TakeOver(m: Fsm, cur: array<State>, cl: set<nat>, s: nat, k: nat, es: EdgeSet)
    requires WellFormed(m) && cur.Length == |m.states| && s < |m.states| && IsClosure(m, s, cl) && k in cl && k < |m.states|
    requires es.Valid() && EdgesWithin(es.Contents(), |m.states|)
    requires forall e :: e in Edges(m.states[s].edges) ==> e in Edges(es.Contents())
    requires cur[s].end || !m.states[s].end
    requires Taking(m, s, cur[s], Edges(es.Contents()), k)
    requires forall u: nat :: u < |m.states| && u != s ==> Between(m, s, u, cur[u])
    modifies cur, es, es.groups
    ensures es.Valid() && (es.groups == old(es.groups) || fresh(es.groups)) && EdgesWithin(es.Contents(), |m.states|)
    ensures forall u :: 0 <= u < cur.Length && u != s ==> cur[u] == old(cur[u])
    ensures forall e :: e in Edges(m.states[s].edges) ==> e in Edges(es.Contents())
    ensures cur[s].end || !m.states[s].end
    ensures Taking(m, s, cur[s], Edges(es.Contents()), k + 1)
  {
    if k != s {
      assert Between(m, s, k, cur[k]);
    }
    if cur[k].end {
      CarryEnd(m, cur, cl, s, k, Edges(es.Contents()));
    }
    var gs := if k == s then es.groups[..es.count] else cur[k].edges;
    TakingEdges(m, s, cur[s], Edges(es.Contents()), k, Edges(gs));
    AddGroups(es, gs, |m.states|);
  }

  /** The pass after `k` states: kept states below `k` are rewritten, the others untouched. */
  ghost predicate Passed(m: Fsm, cur: seq<State>, k: nat) {
    && |cur| == |m.states|
    && (forall s: nat :: s < k && s < |cur| && Kept(m, s) ==> Rewritten(m, s, cur[s]))
    && (forall s: nat :: s < |cur| && (s >= k || !Kept(m, s)) ==> cur[s] == m.states[s])
  }

  lemma PassedBetween(m: Fsm, cur: seq<State>, k: nat)
    requires WellFormed(m) && Passed(m, cur, k)
    ensures forall u: nat :: u < |cur| ==> Between(m, k, u, cur[u])
  {
    forall u: nat | u < |cur|
      ensures Between(m, k, u, cur[u])
    {
      if Done(m, k, u) {
        RewrittenBetween(m, k, u, cur[u]);
      } else {
        OwnBetween(m, k, u);
      }
    }
  }

  /** Rewrite one kept state from its closure. */
  method RewriteState(m: Fsm, cur: array<State>, cl: set<nat>, s: nat)
    requires WellFormed(m) && cur.Length == |m.states| && s < |m.states| && IsClosure(m, s, cl) && Kept(m, s)
    requires cur[s] == m.states[s]
    requires forall u: nat :: u < |m.states| && u != s ==> Between(m, s, u, cur[u])
    modifies cur
    ensures forall u :: 0 <= u < cur.Length && u != s ==> cur[u] == old(cur[u])
    ensures Rewritten(m, s, cur[s])
  {
    var es := new EdgeSet.FromGroups(cur[s].edges);
    TakingBegins(m, s);
    for k := 0 to |m.states|
      invariant es.Valid() && fresh(es.groups) && EdgesWithin(es.Contents(), |m.states|)
      invariant forall e :: e in Edges(m.states[s].edges) ==> e in Edges(es.Contents())
      invariant cur[s].end || !m.states[s].end
      invariant Taking(m, s, cur[s], Edges(es.Contents()), k)
      invariant forall u :: 0 <= u < cur.Length && u != s ==> cur[u] == old(cur[u])
    {
      if k in cl {
        TakeOver(m, cur, cl, s, k, es);
      } else {
        TakingSkips(m, s, cur[s], Edges(es.Contents()), k);
      }
    }
    cur[s] := cur[s].(edges := es.groups[..es.count]);
    TakingMoved(m, s, cur[s], es.Contents());
  }

  lemma TakingMoved(m: Fsm, s: nat, st: State, gs: seq<Group>)
    requires s < |m.states| && st.edges == gs && Sorted(gs) && EdgesWithin(gs, |m.states|)
    requires exists es :: Taking(m, s, st.(edges := es), Edges(gs), |m.states|)
    ensures Rewritten(m, s, st)
  {
    var es :| Taking(m, s, st.(edges := es), Edges(gs), |m.states|);
    assert Taking(m, s, st, Edges(gs), |m.states|) by {
      assert Look(true);
    }
    TakingEnds(m, s, st, Edges(gs));
  }

  /** Remove all epsilons, in place. Without a start state nothing is changed. */
  method FsmRemoveEpsilons(cur: array<State>, start: Option<nat>, visited: array<bool>) returns (ok: bool)
    requires 0 < cur.Length == visited.Length && WellFormed(Fsm(cur[..], start))
    modifies cur, visited
    ensures ok <==> start.Some?
    ensures !ok ==> cur[..] == old(cur[..])
    ensures ok ==> Removed(Fsm(old(cur[..]), start), Fsm(cur[..], start))
    ensures forall t :: 0 <= t < visited.Length ==> !visited[t]
  {
    var m := Fsm(cur[..], start);
    var closures := EpsilonClosure(m, visited);
    if start.None? {
      return false;
    }
    var marks := MarkStatesReachableByLabel(m);
    Pass(m, cur, closures[..], marks[..]);
    ghost var passed := cur[..];
    for s := 0 to cur.Length
      invariant forall t :: 0 <= t < cur.Length ==> cur[t] == if t < s then passed[t].(epsilons := {}) else passed[t]
      invariant forall t :: 0 <= t < visited.Length ==> !visited[t]
    {
      cur[s] := cur[s].(epsilons := {});
    }
    ok := true;
    Stripped(m, passed, cur[..]);
  }

  /** The loop over the states. */
  method Pass(m: Fsm, cur: array<State>, closures: seq<Option<set<nat>>>, marks: seq<bool>)
    requires WellFormed(m) && cur[..] == m.states && |closures| == |marks| == |m.states|
    requires forall s :: 0 <= s < |closures| ==> closures[s].Some? && IsClosure(m, s, closures[s].value)
    requires forall s: nat :: s < |marks| ==> (marks[s] <==> Kept(m, s))
    modifies cur
    ensures Passed(m, cur[..], |m.states|)
  {
    for s := 0 to cur.Length
      invariant Passed(m, cur[..], s)
    {
      if marks[s] {
        ghost var before := cur[..];
        PassedBetween(m, before, s);
        assert before[s] == cur[s] == m.states[s];
        RewriteState(m, cur, closures[s].value, s);
        assert forall u :: 0 <= u < cur.Length && u != s ==> cur[..][u] == before[u];
      }
    }
  }

  lemma Stripped(m: Fsm, passed: seq<State>, cur: seq<State>)
    requires Passed(m, passed, |m.states|) && |cur| == |passed|
    requires forall s :: 0 <= s < |cur| ==> cur[s] == passed[s].(epsilons := {})
    ensures Removed(m, Fsm(cur, m.start))
  {
    forall s: nat | s < |m.states| && Kept(m, s)
      ensures Rewritten(m, s, cur[s])
    {
      assert Rewritten(m, s, passed[s]);
    }
  }
}
