/** The whole way from an NFA with epsilons to the smallest DFA for it. */
module Pipeline {
  import opened Automata
  import opened Nfa
  import opened EdgeSets
  import opened Epsilons
  import opened Determinise
  import opened Refinement
  import opened Minimality
  import opened Trim
  import Analysis
  import Classes

  /** `d` accepts what `m` accepts. */
  ghost predicate Accepts(m: Fsm, d: Fsm) {
    m.start.Some? && forall w: seq<Byte> :: Outcome(d, w).Some? <==> AcceptsFrom(m, m.start.value, w)
  }

  /** The end IDs that `d` reports are those of the end states that `m` can be in. */
  ghost predicate Reports(m: Fsm, d: Fsm) {
    m.start.Some? && forall w: seq<Byte>, id: nat ::
      (Outcome(d, w).Some? && id in Outcome(d, w).value) <==> IdFrom(m, m.start.value, w, id)
  }

  /** The end IDs that `d` reports, where `m` has IDs on states that are no ends. */
  ghost predicate Shows(m: Fsm, d: Fsm) {
    m.start.Some? && forall w: seq<Byte>, id: nat ::
      (Outcome(d, w).Some? && id in Outcome(d, w).value) <==> ShownId(m, m.start.value, w, id)
  }

  ghost predicate AllTidy(m: Fsm) {
    forall s :: 0 <= s < |m.states| ==> Tidy(m.states[s].edges)
  }

  lemma RemovedWellFormed(m: Fsm, d: Fsm)
    requires WellFormed(m) && Removed(m, d)
    ensures WellFormed(d) && EpsilonFree(d)
  {
    forall s: nat | s < |d.states|
      ensures Sorted(d.states[s].edges) && EdgesWithin(d.states[s].edges, |d.states|)
    {
      if Epsilons.Kept(m, s) {
        assert Rewritten(m, s, d.states[s]);
      }
    }
  }

  lemma SubsetAnswers(m: Fsm, d: Fsm, sets: seq<set<nat>>)
    requires WellFormed(m) && EpsilonFree(m) && IsSubsetDfa(m, d, sets)
    ensures IsDfa(d) && AllTidy(d) && Accepts(m, d) && Reports(m, d)
  {
    SubsetDfaIsDfa(m, d, sets);
    forall s | 0 <= s < |d.states|
      ensures Tidy(d.states[s].edges)
    {
      assert StateFor(m, sets, d.states[s], sets[s]);
    }
    forall w: seq<Byte>
      ensures Outcome(d, w).Some? <==> AcceptsFrom(m, m.start.value, w)
      ensures forall id :: (Outcome(d, w).Some? && id in Outcome(d, w).value) <==> IdFrom(m, m.start.value, w, id)
    {
      SubsetAccepts(m, d, sets, w);
      forall id | IdFrom(m, m.start.value, w, id)
        ensures AcceptsFrom(m, m.start.value, w)
      {
      }
    }
  }

  /** What holds of the machine without epsilons holds of the one with them. */
  lemma AnswersBefore(m: Fsm, free: Fsm, d: Fsm)
    requires WellFormed(m) && Removed(m, free) && m.start.Some? && Accepts(free, d) && Reports(free, d)
    ensures Accepts(m, d) && Shows(m, d) && (StrayHarmless(m) ==> Reports(m, d))
  {
    RemovedLanguage(m, free);
    forall w: seq<Byte>, id: nat
      ensures (Outcome(d, w).Some? && id in Outcome(d, w).value) <==> ShownId(m, m.start.value, w, id)
    {
      RemovedIdsShown(m, free, m.start.value, w, id);
    }
    forall w: seq<Byte>
      ensures Outcome(d, w).Some? <==> AcceptsFrom(m, m.start.value, w)
    {
      assert AcceptsFrom(m, m.start.value, w) <==> AcceptsFrom(free, free.start.value, w);
    }
    if StrayHarmless(m) {
      forall w: seq<Byte>, id: nat
        ensures (Outcome(d, w).Some? && id in Outcome(d, w).value) <==> IdFrom(m, m.start.value, w, id)
      {
        assert IdFrom(m, m.start.value, w, id) <==> IdFrom(free, free.start.value, w, id);
      }
    }
  }

  /** Does any state have an epsilon? */
  method HasEpsilons(cur: array<State>) returns (has: bool)
    ensures has <==> exists s :: 0 <= s < cur.Length && cur[s].epsilons != {}
  {
    for s := 0 to cur.Length
      invariant forall t :: 0 <= t < s ==> cur[t].epsilons == {}
    {
      if cur[s].epsilons != {} {
        return true;
      }
    }
    return false;
  }

  /** `free` is the NFA that determinisation works on. */
  ghost predicate Prepared(m: Fsm, free: Fsm) {
    if m.start.Some? then Removed(m, free) else free == m
  }

  /** At least `n` different sets of states can be reached in `m`. */
  ghost predicate ReachesSets(m: Fsm, n: nat) {
    exists sets: seq<set<nat>> :: ReachableSets(m, sets) && |sets| == n
  }

  lemma FewerSets(m: Fsm, n: nat, k: nat)
    requires ReachesSets(m, n) && k <= n
    ensures ReachesSets(m, k)
  {
    var sets: seq<set<nat>> :| ReachableSets(m, sets) && |sets| == n;
    assert ReachableSets(m, sets[..k]);
  }

  /** Determinisation of any NFA, epsilons being removed first if there are any. */
  method FsmDeterminiseWithConfig(cur: array<State>, start: Option<nat>, visited: array<bool>, stateLimit: nat, hash: seq<nat> -> nat)
    returns (res: Result, d: Fsm)
    requires WellFormed(Fsm(cur[..], start)) && cur.Length == visited.Length <= Analysis.RESULT_BIT
    modifies cur, visited
    ensures Prepared(Fsm(old(cur[..]), start), Fsm(cur[..], start))
    ensures res.Ok? && start.Some? ==> IsDfa(d) && AllTidy(d) && ReachesSets(Fsm(cur[..], start), |d.states|)
    ensures res.Ok? && start.Some? ==> Accepts(Fsm(old(cur[..]), start), d) && Shows(Fsm(old(cur[..]), start), d)
    ensures res.Ok? && start.Some? && StrayHarmless(Fsm(old(cur[..]), start)) ==> Reports(Fsm(old(cur[..]), start), d)
    ensures res.StateLimitReached? ==>
              stateLimit > 0 && (cur.Length > stateLimit || ReachesSets(Fsm(cur[..], start), stateLimit + 2))
    ensures res.Ok? && start.Some? && stateLimit > 0 ==>
              cur.Length <= stateLimit && !ReachesSets(Fsm(cur[..], start), stateLimit + 2)
    ensures res.Errno? && start.Some? ==> ReachesSets(Fsm(cur[..], start), ID_LIMIT + 2)
    ensures 0 < stateLimit < cur.Length && (start.Some? || EpsilonFree(Fsm(cur[..], start))) ==> res.StateLimitReached?
    ensures start.None? ==> (res.Errno? <==> !EpsilonFree(Fsm(cur[..], start)))
    ensures res.StateLimitReached? && start.None? ==> 0 < stateLimit < cur.Length
    ensures !res.Ok? || start.None? ==> d == Fsm(cur[..], start)
  {
    ghost var m := Fsm(cur[..], start);
    ghost var sets;
    var has := HasEpsilons(cur);
    if has {
      var ok := FsmRemoveEpsilons(cur, start, visited);
      if !ok {
        return Errno, Fsm(cur[..], start);
      }
      RemovedWellFormed(m, Fsm(cur[..], start));
    } else {
      FreeIsRemoved(m);
    }
    var free := Fsm(cur[..], start);
    res, d, sets := DeterminiseFree(free, stateLimit, hash);
    if res.Ok? && start.Some? {
      SubsetAnswers(free, d, sets);
      AnswersBefore(m, free, d);
    }
  }

  /** Minimisation of a DFA without empty groups: trim, then merge. No state of the result is
      unreachable or dead, and there are no more states than classes among those that lie on
      a path from the start to an end, each of these without an edge set being its own class. */
  method FsmTrimAndMinimise(m: Fsm, hash: set<nat> -> nat, nulls: set<nat>, junk: (nat, nat) -> set<Byte>) returns (d: Fsm)
    requires IsDfa(m) && AllTidy(m) && NullsOf(m, nulls) && |m.states| < Classes.SMALL_EC_FLAG - 1
    ensures IsDfa(d) && SameOutcomes(m, d) && |d.states| <= |m.states|
    ensures AllReachable(d) && AllReachEnds(d) && AtLeast(m, nulls, OwnLabels(), KeptStates(m), |d.states|)
    ensures NoTwins(m, nulls) || (forall n: nat, s: nat :: junk(n, s) == {}) ==> IsMinimal(d)
  {
    ghost var marks, g;
    var trimmed, dist, left;
    trimmed, dist, left, marks := FsmTrim(m, nulls);
    d, g := FsmMinimise(trimmed, dist, hash, left, junk);
    AtLeastCarries(m, marks, trimmed, nulls, junk, |d.states|);
    BlankKept(marks, nulls, junk);
    forall w: seq<Byte>
      ensures Outcome(m, w) == Outcome(d, w)
    {
      assert Outcome(m, w) == Outcome(trimmed, w) && Outcome(trimmed, w) == Outcome(d, w);
    }
  }

  lemma BlankKept(marks: seq<bool>, nulls: set<nat>, junk: (nat, nat) -> set<Byte>)
    ensures (forall n: nat, s: nat :: junk(n, s) == {}) ==> AllBlank(KeptNulls(marks, nulls), junk)
  {
  }

  /** From any NFA with a start state to the smallest DFA with the same language, and with the
      same end IDs unless the NFA has harmful strays. Determinisation gives every state an edge
      set, so that no label array is left unset in minimisation. */
  method CompileNfa(cur: array<State>, start: nat, visited: array<bool>, stateLimit: nat,
                    hash: seq<nat> -> nat, idHash: set<nat> -> nat, junk: (nat, nat) -> set<Byte>)
    returns (res: Result, d: Fsm)
    requires WellFormed(Fsm(cur[..], Some(start))) && cur.Length == visited.Length <= Analysis.RESULT_BIT
    modifies cur, visited
    ensures res.Ok? ==> IsDfa(d) && IsMinimal(d) && AllReachable(d) && AllReachEnds(d)
    ensures res.Ok? ==> Accepts(Fsm(old(cur[..]), Some(start)), d) && Shows(Fsm(old(cur[..]), Some(start)), d)
    ensures res.Ok? && StrayHarmless(Fsm(old(cur[..]), Some(start))) ==> Reports(Fsm(old(cur[..]), Some(start)), d)
    ensures Prepared(Fsm(old(cur[..]), Some(start)), Fsm(cur[..], Some(start)))
    ensures res.StateLimitReached? ==>
              stateLimit > 0 && (cur.Length > stateLimit || ReachesSets(Fsm(cur[..], Some(start)), stateLimit + 2))
    ensures res.Ok? && stateLimit > 0 ==> cur.Length <= stateLimit && !ReachesSets(Fsm(cur[..], Some(start)), stateLimit + 2)
    ensures 0 < stateLimit < cur.Length ==> res.StateLimitReached?
    ensures res.Errno? ==> ReachesSets(Fsm(cur[..], Some(start)), Classes.SMALL_EC_FLAG - 1)
  {
    ghost var m := Fsm(cur[..], Some(start));
    var dfa;
    res, dfa := FsmDeterminiseWithConfig(cur, Some(start), visited, stateLimit, hash);
    if res.Errno? {
      FewerSets(Fsm(cur[..], Some(start)), ID_LIMIT + 2, Classes.SMALL_EC_FLAG - 1);
    }
    if !res.Ok? {
      return res, dfa;
    }
    if |dfa.states| >= Classes.SMALL_EC_FLAG - 1 {
      FewerSets(Fsm(cur[..], Some(start)), |dfa.states|, Classes.SMALL_EC_FLAG - 1);
      return Errno, dfa;
    }
    d := FsmTrimAndMinimise(dfa, idHash, {}, junk);
    SameAnswers(m, dfa, d);
  }

  lemma SameAnswers(m: Fsm, dfa: Fsm, d: Fsm)
    requires Accepts(m, dfa) && Shows(m, dfa) && SameOutcomes(dfa, d)
    ensures Accepts(m, d) && Shows(m, d) && (Reports(m, dfa) ==> Reports(m, d))
  {
    forall w: seq<Byte>
      ensures Outcome(dfa, w) == Outcome(d, w)
    {
    }
  }
}
