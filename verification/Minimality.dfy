/** `fsm_minimise` as a whole: the mapping is built, the quotient is taken, and the result is
the smallest DFA that shows the same to every caller. */
module Minimality {
  import opened Automata
  import opened Finite
  import opened InitialClasses
  import opened Refinement
  import opened Consolidate
  import EdgeSets
  import Minimise
  import Oracle
  import Classes

  /** What a caller learns from giving the whole input `w` to the machine. */
  function Outcome(m: Fsm, w: seq<Byte>): Option<set<nat>> {
    if m.start.None? then None else Observe(m, Run(m, m.start.value, w))
  }

  ghost predicate SameOutcomes(m: Fsm, d: Fsm) {
    forall w: seq<Byte> :: Outcome(m, w) == Outcome(d, w)
  }

  ghost predicate ReachedOn(m: Fsm, s: nat, w: seq<Byte>) {
    m.start.Some? && Run(m, m.start.value, w) == s
  }

  /** Every state lies on a path from the start. */
  ghost predicate AllReachable(m: Fsm) {
    forall s: nat :: s < |m.states| ==> IsReachable(m, s)
  }

  ghost predicate IsReachable(m: Fsm, s: nat) {
    exists w: seq<Byte> :: ReachedOn(m, s, w)
  }

  /** From every state an end can be reached. */
  ghost predicate AllReachEnds(m: Fsm) {
    forall s: nat :: s < |m.states| ==> ReachesEnd(m, s)
  }

  ghost predicate ReachesEnd(m: Fsm, s: nat) {
    exists w: seq<Byte> :: Observe(m, Run(m, s, w)).Some?
  }

  /** No DFA with the same outcomes is smaller. */
  ghost predicate IsMinimal(m: Fsm) {
    forall d: Fsm :: IsDfa(d) && SameOutcomes(m, d) ==> |m.states| <= |d.states|
  }

  /** Where all states reach an end, Nerode classes form a congruence with agreeing end IDs. */
  lemma NerodeIsCongruence(m: Fsm, sed: seq<nat>, mapping: seq<nat>, count: nat)
    requires IsDfa(m) && ExactDistances(m, sed) && IsNerodeMapping(m, mapping, count)
    ensures IsCongruence(m, mapping) && IdsAgree(m, mapping)
  {
    forall s, t | 0 <= s < |mapping| && 0 <= t < |mapping| && mapping[s] == mapping[t]
      ensures m.states[s].end == m.states[t].end
      ensures m.states[s].end ==> m.states[s].endIds == m.states[t].endIds
      ensures forall c: Byte :: Mapped(mapping, Step(m, s, c)) == Mapped(mapping, Step(m, t, c))
    {
      EquivalentObserve(m, s, t);
      forall c: Byte
        ensures Mapped(mapping, Step(m, s, c)) == Mapped(mapping, Step(m, t, c))
      {
        EquivalentStep(m, s, t, c);
        SameLiveness(m, sed, Step(m, s, c), Step(m, t, c));
      }
    }
  }

  lemma SameLiveness(m: Fsm, sed: seq<nat>, s: nat, t: nat)
    requires ExactDistances(m, sed) && s <= |m.states| && t <= |m.states| && Equivalent(m, s, t)
    ensures s < |m.states| <==> t < |m.states|
  {
    if s < |m.states| {
      assert ExactAt(m, sed, s);
      LiveNotDead(m, s, sed[s]);
    }
    if t < |m.states| {
      assert ExactAt(m, sed, t);
      LiveNotDead(m, t, sed[t]);
    }
  }

  lemma OutcomeAfter(m: Fsm, w: seq<Byte>, v: seq<Byte>)
    requires m.start.Some?
    ensures Outcome(m, w + v) == Observe(m, Run(m, Run(m, m.start.value, w), v))
  {
    RunConcat(m, m.start.value, w, v);
  }

  /** A DFA with the same outcomes is in a live state where `m` is. */
  lemma RivalLive(m: Fsm, sed: seq<nat>, d: Fsm, s: nat, w: seq<Byte>)
    requires ExactDistances(m, sed) && IsDfa(d) && SameOutcomes(m, d)
    requires s < |m.states| && ReachedOn(m, s, w)
    ensures d.start.Some? && Run(d, d.start.value, w) < |d.states|
  {
    assert ExactAt(m, sed, s);
    var v: seq<Byte> :| |v| == sed[s] && Observe(m, Run(m, s, v)).Some?;
    OutcomeAfter(m, w, v);
    assert Outcome(d, w + v).Some?;
    OutcomeAfter(d, w, v);
    RunDead(d, v);
  }

  /** States of `m` that a rival does not tell apart are equivalent. */
  lemma RivalSeparates(m: Fsm, d: Fsm, s: nat, u: seq<Byte>, t: nat, v: seq<Byte>)
    requires SameOutcomes(m, d) && d.start.Some? && ReachedOn(m, s, u) && ReachedOn(m, t, v)
    requires Run(d, d.start.value, u) == Run(d, d.start.value, v)
    ensures Equivalent(m, s, t)
  {
    forall w: seq<Byte>
      ensures Observe(m, Run(m, s, w)) == Observe(m, Run(m, t, w))
    {
      RunConcat(m, m.start.value, u, w);
      RunConcat(m, m.start.value, v, w);
      RunConcat(d, d.start.value, u, w);
      RunConcat(d, d.start.value, v, w);
      assert Outcome(m, u + w) == Outcome(d, u + w) && Outcome(m, v + w) == Outcome(d, v + w);
    }
  }

  lemma {:induction false} AccessWords(m: Fsm, ss: seq<nat>, k: nat) returns (ws: seq<seq<Byte>>)
    requires AllReachable(m) && k <= |ss| && forall i :: 0 <= i < |ss| ==> ss[i] < |m.states|
    ensures |ws| == k && forall i :: 0 <= i < k ==> ReachedOn(m, ss[i], ws[i])
  {
    if k == 0 {
      ws := [];
    } else {
      ws := AccessWords(m, ss, k - 1);
      var s := ss[k - 1];
      assert IsReachable(m, s);
      var w: seq<Byte> :| ReachedOn(m, s, w);
      ws := ws + [w];
    }
  }

  /** Any DFA with the same outcomes has at least one state per Nerode class. */
  lemma AtLeastClasses(m: Fsm, sed: seq<nat>, mapping: seq<nat>, count: nat, d: Fsm)
    requires IsDfa(m) && ExactDistances(m, sed) && AllReachable(m) && IsNerodeMapping(m, mapping, count)
    requires IsDfa(d) && SameOutcomes(m, d)
    ensures count <= |d.states|
  {
    if count > 0 {
      var ss := FirstStates(m, mapping, count, count);
      var ws := AccessWords(m, ss, count);
      RivalLive(m, sed, d, ss[0], ws[0]);
      var qs := seq(count, i requires 0 <= i < count => Run(d, d.start.value, ws[i]));
      forall i, j | 0 <= i < j < count
        ensures qs[i] != qs[j]
      {
        if qs[i] == qs[j] {
          RivalSeparates(m, d, ss[i], ws[i], ss[j], ws[j]);
        }
      }
      forall i | 0 <= i < count
        ensures qs[i] < |d.states|
      {
        RivalLive(m, sed, d, ss[i], ws[i]);
      }
      DistinctBelow(qs, |d.states|);
    }
  }

  lemma QuotientMinimal(m: Fsm, sed: seq<nat>, mapping: seq<nat>, count: nat, q: Fsm)
    requires IsDfa(m) && ExactDistances(m, sed) && AllReachable(m) && IsNerodeMapping(m, mapping, count)
    requires SameOutcomes(m, q) && |q.states| == count
    ensures IsMinimal(q)
  {
    forall d: Fsm | IsDfa(d) && SameOutcomes(q, d)
      ensures |q.states| <= |d.states|
    {
      forall w: seq<Byte>
        ensures Outcome(m, w) == Outcome(d, w)
      {
        assert Outcome(m, w) == Outcome(q, w) && Outcome(q, w) == Outcome(d, w);
      }
      AtLeastClasses(m, sed, mapping, count, d);
    }
  }

  /** Without labels there is only the start state. */
  lemma OneState(m: Fsm, labels: seq<Byte>)
    requires IsDfa(m) && AllReachable(m) && 0 < |m.states| && labels == []
    requires forall s :: 0 <= s < |m.states| ==> UsedWithin(m, s, labels)
    ensures |m.states| == 1
    ensures IsNerodeMapping(m, [0], 1)
  {
    forall s: nat | s < |m.states|
      ensures m.start == Some(s)
    {
      assert IsReachable(m, s);
      var w: seq<Byte> :| ReachedOn(m, s, w);
      var b := m.start.value;
      if w != [] {
        assert UsedWithin(m, b, labels);
        assert w[0] !in UsedSymbols(m, b);
        RunDead(m, w[1..]);
      }
    }
    assert m.start == Some(0);
    assert 1 < |m.states| ==> m.start == Some(1);
  }

  // ----- states without an edge set -----

  /** Some word other than the empty one leads from `s` to an end. */
  ghost predicate LeadsOn(m: Fsm, s: nat) {
    exists w: seq<Byte> :: w != [] && Observe(m, Run(m, s, w)).Some?
  }

  /** Two ends with the same IDs from which nothing leads on; `s` has no edge set. */
  ghost predicate AreTwins(m: Fsm, nulls: set<nat>, s: nat, t: nat) {
    && s in nulls && s < |m.states| && t < |m.states| && s != t
    && m.states[s].end && m.states[t].end && m.states[s].endIds == m.states[t].endIds && !LeadsOn(m, t)
  }

  ghost predicate NoTwins(m: Fsm, nulls: set<nat>) {
    forall s, t: nat :: !AreTwins(m, nulls, s, t)
  }

  lemma NullDead(m: Fsm, nulls: set<nat>, s: nat, w: seq<Byte>)
    requires NullsOf(m, nulls) && s in nulls && w != []
    ensures Observe(m, Run(m, s, w)).None?
  {
    assert Step(m, s, w[0]) == |m.states|;
    RunDead(m, w[1..]);
  }

  lemma TwinsEquivalent(m: Fsm, nulls: set<nat>, s: nat, t: nat)
    requires NullsOf(m, nulls) && AreTwins(m, nulls, s, t)
    ensures Equivalent(m, s, t)
  {
    forall w: seq<Byte>
      ensures Observe(m, Run(m, s, w)) == Observe(m, Run(m, t, w))
    {
      if w != [] {
        NullDead(m, nulls, s, w);
        assert Observe(m, Run(m, t, w)).None?;
      }
    }
  }

  lemma EquivalentTwins(m: Fsm, sed: seq<nat>, nulls: set<nat>, s: nat, t: nat)
    requires ExactDistances(m, sed) && NullsOf(m, nulls)
    requires s in nulls && t < |m.states| && s != t && Equivalent(m, s, t)
    ensures AreTwins(m, nulls, s, t)
  {
    assert ExactAt(m, sed, s);
    var v: seq<Byte> :| |v| == sed[s] && Observe(m, Run(m, s, v)).Some?;
    if v != [] {
      NullDead(m, nulls, s, v);
    }
    EquivalentObserve(m, s, t);
    forall w: seq<Byte> | w != []
      ensures Observe(m, Run(m, t, w)).None?
    {
      NullDead(m, nulls, s, w);
      assert Observe(m, Run(m, s, w)) == Observe(m, Run(m, t, w));
    }
  }

  /** In a trimmed machine, the states without an edge set stand alone exactly when none of
      them has a twin. */
  lemma TwinsExactly(m: Fsm, sed: seq<nat>, nulls: set<nat>)
    requires ExactDistances(m, sed) && NullsOf(m, nulls)
    ensures NullsStandAlone(m, nulls) <==> NoTwins(m, nulls)
  {
    if s, t: nat :| AreTwins(m, nulls, s, t) {
      TwinsEquivalent(m, nulls, s, t);
      assert NullsStandAlone(m, nulls) ==> StandsAlone(m, s);
    }
    if NoTwins(m, nulls) {
      forall s, t: nat | s in nulls && t < |m.states| && t != s
        ensures !Equivalent(m, s, t) && !Equivalent(m, t, s)
      {
        if Equivalent(m, s, t) || Equivalent(m, t, s) {
          assert Equivalent(m, s, t) by {
            forall w: seq<Byte>
              ensures Observe(m, Run(m, s, w)) == Observe(m, Run(m, t, w))
            {
            }
          }
          EquivalentTwins(m, sed, nulls, s, t);
        }
      }
      forall s | s in nulls
        ensures StandsAlone(m, s)
      {
      }
    }
  }

  // ----- minimising -----

  /** `g` is the numbering behind a result of `n` states. */
  ghost predicate MergedAs(m: Fsm, nulls: set<nat>, junk: (nat, nat) -> set<Byte>, g: seq<nat>, n: nat) {
    && IsCongruentMapping(m, g, n)
    && (|Minimise.UsedBytes(m)| < Minimise.DFA_LABELS_THRESHOLD ==> Minimise.MergedLookSame(m, nulls, junk, g))
  }

  /** State `g[s]` of `d` stands for state `s` of `m`. */
  ghost predicate StandsIn(m: Fsm, g: seq<nat>, d: Fsm) {
    && |g| == |m.states| && (forall s :: 0 <= s < |g| ==> g[s] < |d.states|)
    && (forall s, w: seq<Byte> :: 0 <= s < |g| ==> Observe(d, Run(d, g[s], w)) == Observe(m, Run(m, s, w)))
  }

  /** What minimising gives: only equivalent states are merged, and all of them unless unset
      arrays tell them apart. */
  ghost predicate IsMerged(m: Fsm, nulls: set<nat>, junk: (nat, nat) -> set<Byte>, g: seq<nat>, d: Fsm) {
    && IsDfa(d) && SameOutcomes(m, d) && |d.states| <= |m.states|
    && AllReachable(d) && AllReachEnds(d)
    && StandsIn(m, g, d) && IsCongruentMapping(m, g, |d.states|) && KeepsTogether(m, nulls, junk, g)
    && AtLeast(m, nulls, junk, Below(|m.states|), |d.states|)
  }

  /** Minimisation of a trimmed DFA, whatever the unset label arrays hold: the same outcomes,
      no state that is not needed for them, and no more states than there are classes that
      neither words nor unset arrays tell apart. No DFA with the same outcomes is smaller if no
      state without an edge set has a twin, or if the arrays hold nothing. */
  method FsmMinimise(m: Fsm, sed: array<nat>, hash: set<nat> -> nat, nulls: set<nat>, junk: (nat, nat) -> set<Byte>)
    returns (d: Fsm, ghost g: seq<nat>)
    requires IsDfa(m) && NullsOf(m, nulls) && |m.states| < Classes.SMALL_EC_FLAG - 1
    requires AllReachable(m) && ExactDistances(m, sed[..])
    ensures IsMerged(m, nulls, junk, g, d)
    ensures NoTwins(m, nulls) || AllBlank(nulls, junk) ==> IsMinimal(d)
    ensures Minimise.UsedBytes(m) != {} ==> MergedAs(m, nulls, junk, g, |d.states|)
  {
    ghost var dist := sed[..];
    if |m.states| == 0 {
      NoneMerged(m, nulls, junk);
      return m, [];
    }
    var labels := Minimise.CollectLabels(m);
    if labels == [] {
      OneMerged(m, dist, nulls, junk, labels);
      return m, [0];
    }
    var mapping, count := Minimise.BuildMinimisedMapping(m, labels, sed, hash, nulls, junk);
    var f := mapping[..];
    g := f;
    d := FsmConsolidate(m, f);
    QuotientMerged(m, dist, nulls, junk, f, count, d);
    TwinsExactly(m, dist, nulls);
    if NoTwins(m, nulls) || AllBlank(nulls, junk) {
      QuotientMinimal(m, dist, f, count, d);
    }
  }

  lemma NoneMerged(m: Fsm, nulls: set<nat>, junk: (nat, nat) -> set<Byte>)
    requires IsDfa(m) && |m.states| == 0
    ensures IsMerged(m, nulls, junk, [], m) && IsMinimal(m) && Minimise.UsedBytes(m) == {}
  {
    assert ExtendsTo(m, [], [NO_ID]);
  }

  lemma OneMerged(m: Fsm, sed: seq<nat>, nulls: set<nat>, junk: (nat, nat) -> set<Byte>, labels: seq<Byte>)
    requires IsDfa(m) && AllReachable(m) && ExactDistances(m, sed) && 0 < |m.states| && labels == []
    requires Elements(labels) == Minimise.UsedBytes(m)
    requires forall s :: 0 <= s < |m.states| ==> UsedWithin(m, s, labels)
    ensures IsMerged(m, nulls, junk, [0], m) && IsMinimal(m) && Minimise.UsedBytes(m) == {}
  {
    OneState(m, labels);
    QuotientMinimal(m, sed, [0], 1, m);
    NerodeIsCongruent(m, sed, [0], 1);
    TogetherIsFew(m, nulls, junk, [0], 1);
    ExactReachEnds(m, sed);
  }

  lemma QuotientMerged(m: Fsm, sed: seq<nat>, nulls: set<nat>, junk: (nat, nat) -> set<Byte>, mapping: seq<nat>, count: nat, d: Fsm)
    requires IsDfa(m) && AllReachable(m) && ExactDistances(m, sed) && 0 < |m.states| < EdgeSets.NO_STATE
    requires IsCongruentMapping(m, mapping, count) && 0 < count <= |m.states| && KeepsTogether(m, nulls, junk, mapping)
    requires IsQuotient(m, mapping, d) && (|d.states| == 1 || |d.states| - 1 in mapping)
    ensures IsMerged(m, nulls, junk, mapping, d) && |d.states| == count
  {
    Quotiented(m, mapping, count, d);
    ExactReachEnds(m, sed);
    QuotientNeeded(m, mapping, d);
    TogetherIsFew(m, nulls, junk, mapping, count);
  }

  lemma ExactReachEnds(m: Fsm, sed: seq<nat>)
    requires ExactDistances(m, sed)
    ensures AllReachEnds(m)
  {
    forall s: nat | s < |m.states|
      ensures ReachesEnd(m, s)
    {
      assert ExactAt(m, sed, s);
    }
  }

  /** Every state of the quotient stands for one that is needed, and is needed itself. */
  lemma QuotientNeeded(m: Fsm, mapping: seq<nat>, d: Fsm)
    requires IsDfa(m) && IsDfa(d) && AllReachable(m) && AllReachEnds(m) && IsQuotient(m, mapping, d)
    requires |m.states| < EdgeSets.NO_STATE && |d.states| <= |m.states| && IsCongruence(m, mapping)
    requires IsNumbering(m, mapping, |d.states|) && StandsIn(m, mapping, d)
    ensures AllReachable(d) && AllReachEnds(d)
  {
    forall k: nat | k < |d.states|
      ensures IsReachable(d, k) && ReachesEnd(d, k)
    {
      assert k in mapping;
      var s :| 0 <= s < |mapping| && mapping[s] == k;
      assert IsReachable(m, s) && ReachesEnd(m, s);
      var w: seq<Byte> :| ReachedOn(m, s, w);
      QuotientRun(m, mapping, d, m.start.value, w);
      assert ReachedOn(d, k, w);
      var v: seq<Byte> :| Observe(m, Run(m, s, v)).Some?;
      assert Observe(d, Run(d, k, v)).Some?;
    }
  }

  lemma CongruentIsCongruence(m: Fsm, mapping: seq<nat>, count: nat)
    requires IsDfa(m) && IsCongruentMapping(m, mapping, count)
    ensures IsCongruence(m, mapping) && IdsAgree(m, mapping)
  {
    var cls :| ExtendsTo(m, mapping, cls);
    forall s, t | 0 <= s < |mapping| && 0 <= t < |mapping| && mapping[s] == mapping[t]
      ensures m.states[s].end == m.states[t].end
      ensures m.states[s].end ==> m.states[s].endIds == m.states[t].endIds
      ensures forall c: Byte :: Mapped(mapping, Step(m, s, c)) == Mapped(mapping, Step(m, t, c))
    {
      assert Observe(m, s) == Observe(m, t);
      forall c: Byte
        ensures Mapped(mapping, Step(m, s, c)) == Mapped(mapping, Step(m, t, c))
      {
        assert ToEc(m, cls, s, c) == ToEc(m, cls, t, c);
      }
    }
  }

  /** The quotient under a congruence that respects what is observed. */
  lemma Quotiented(m: Fsm, mapping: seq<nat>, count: nat, d: Fsm)
    requires IsDfa(m) && AllReachable(m) && 0 < |m.states| < EdgeSets.NO_STATE
    requires IsCongruentMapping(m, mapping, count) && 0 < count <= |m.states|
    requires IsQuotient(m, mapping, d) && (|d.states| == 1 || |d.states| - 1 in mapping)
    ensures IsDfa(d) && SameOutcomes(m, d) && |d.states| == count
    ensures IsCongruence(m, mapping) && StandsIn(m, mapping, d)
  {
    CongruentIsCongruence(m, mapping, count);
    QuotientAccepts(m, mapping, d);
    assert count - 1 in mapping;
    assert SameOutcomes(m, d) by {
      assert IsReachable(m, 0);
    }
  }

  // ----- the cross-check -----

  /** The result of the table-filling algorithm: always minimal. */
  method FsmMinimiseTestOracle(m: Fsm, ghost sed: seq<nat>) returns (e: Fsm, mapping: seq<nat>, count: nat)
    requires IsDfa(m) && 0 < |m.states| < NO_ID && |m.states| < EdgeSets.NO_STATE
    requires AllReachable(m) && ExactDistances(m, sed)
    ensures IsNerodeMapping(m, mapping, count) && |e.states| == count
    ensures IsDfa(e) && SameOutcomes(m, e) && IsMinimal(e)
  {
    var f;
    f, count := Oracle.MinimiseTestOracle(m);
    mapping := f[..];
    NerodeIsCongruent(m, sed, mapping, count);
    e := FsmConsolidate(m, mapping);
    Quotiented(m, mapping, count, e);
    QuotientMinimal(m, sed, mapping, count, e);
  }

  lemma NerodeIsCongruent(m: Fsm, sed: seq<nat>, mapping: seq<nat>, count: nat)
    requires IsDfa(m) && ExactDistances(m, sed) && 0 < |m.states| < NO_ID && IsNerodeMapping(m, mapping, count)
    ensures IsCongruentMapping(m, mapping, count) && 0 < count <= |m.states|
  {
    NerodeIsCongruence(m, sed, mapping, count);
    var ss := FirstStates(m, mapping, count, count);
    DistinctBelow(ss, |m.states|);
    var cls := mapping + [NO_ID];
    forall s, t | 0 <= s <= |m.states| && 0 <= t <= |m.states| && cls[s] == cls[t]
      ensures Observe(m, s) == Observe(m, t)
      ensures forall c: Byte :: ToEc(m, cls, s, c) == ToEc(m, cls, t, c)
    {
      if s < |m.states| && t < |m.states| {
        assert mapping[s] == mapping[t];
        forall c: Byte
          ensures ToEc(m, cls, s, c) == ToEc(m, cls, t, c)
        {
          assert Mapped(mapping, Step(m, s, c)) == Mapped(mapping, Step(m, t, c));
        }
      }
    }
    assert ExtendsTo(m, mapping, cls);
    assert mapping[0] < count;
  }

  /** What a debug build checks after minimising. The table-filling algorithm never finds more
      states, it merges whatever refinement merges, and without twins, or with arrays that hold
      nothing, the two agree. */
  method OracleCheck(m: Fsm, labels: seq<Byte>, sed: array<nat>, hash: set<nat> -> nat,
                     nulls: set<nat>, junk: (nat, nat) -> set<Byte>)
    returns (expected: nat, got: nat, f: seq<nat>, g: seq<nat>)
    requires IsDfa(m) && NullsOf(m, nulls) && 0 < |m.states| < Classes.SMALL_EC_FLAG - 1 && ExactDistances(m, sed[..])
    requires forall s :: 0 <= s < |m.states| ==> UsedWithin(m, s, labels)
    ensures IsNumbering(m, f, got) && IsNerodeMapping(m, g, expected)
    ensures expected <= got <= |m.states| && KeepsTogether(m, nulls, junk, f)
    ensures forall s, t :: 0 <= s < |f| && 0 <= t < |f| && f[s] == f[t] ==> g[s] == g[t]
    ensures NoTwins(m, nulls) || AllBlank(nulls, junk) ==>
              expected == got && forall s, t :: 0 <= s < |f| && 0 <= t < |f| && g[s] == g[t] ==> f[s] == f[t]
  {
    ghost var dist := sed[..];
    var fa, ga;
    fa, got := Minimise.BuildMinimisedMapping(m, labels, sed, hash, nulls, junk);
    ga, expected := Oracle.MinimiseTestOracle(m);
    f, g := fa[..], ga[..];
    NerodeCountAtMost(m, g, expected, f, got);
    TwinsExactly(m, dist, nulls);
    if NoTwins(m, nulls) || AllBlank(nulls, junk) {
      NerodeMappingUnique(m, f, got, g, expected);
    }
  }
}
