/** The meaning of a machine with epsilons and with several edges on one symbol. */
module Nfa {
  import opened Automata

  // ----- epsilon paths -----

  ghost predicate EpsStep(m: Fsm, u: nat, v: nat) {
    u < |m.states| && v in m.states[u].epsilons
  }

  ghost predicate IsEpsPath(m: Fsm, p: seq<nat>) {
    p != [] && forall k :: 0 <= k < |p| - 1 ==> EpsStepAt(m, p, k)
  }

  ghost predicate EpsStepAt(m: Fsm, p: seq<nat>, k: nat)
    requires k + 1 < |p|
  {
    EpsStep(m, p[k], p[k + 1])
  }

  /** `t` is in the reflexive and transitive closure of the epsilons from `s`. */
  ghost predicate EpsReaches(m: Fsm, s: nat, t: nat) {
    exists p :: IsEpsPath(m, p) && p[0] == s && p[|p| - 1] == t
  }

  lemma EpsReflexive(m: Fsm, s: nat)
    ensures EpsReaches(m, s, s)
  {
    assert IsEpsPath(m, [s]);
  }

  lemma EpsTransitive(m: Fsm, s: nat, t: nat, u: nat)
    requires EpsReaches(m, s, t) && EpsReaches(m, t, u)
    ensures EpsReaches(m, s, u)
  {
    var p :| IsEpsPath(m, p) && p[0] == s && p[|p| - 1] == t;
    var q :| IsEpsPath(m, q) && q[0] == t && q[|q| - 1] == u;
    var r := p + q[1..];
    forall k | 0 <= k < |r| - 1
      ensures EpsStepAt(m, r, k)
    {
      if k < |p| - 1 {
        assert EpsStepAt(m, p, k);
      } else {
        assert EpsStepAt(m, q, k - (|p| - 1));
      }
    }
    assert IsEpsPath(m, r);
  }

  lemma EpsExtend(m: Fsm, s: nat, t: nat, u: nat)
    requires EpsReaches(m, s, t) && EpsStep(m, t, u)
    ensures EpsReaches(m, s, u)
  {
    assert EpsStepAt(m, [t, u], 0);
    assert IsEpsPath(m, [t, u]);
    EpsTransitive(m, s, t, u);
  }

  /** A set that holds `s` and all epsilon successors of its members holds all of the closure. */
  lemma {:induction false} ClosedUnderEps(m: Fsm, x: set<nat>, p: seq<nat>, k: nat)
    requires IsEpsPath(m, p) && p[0] in x && k < |p|
    requires forall u, v :: u in x && EpsStep(m, u, v) ==> v in x
    ensures p[k] in x
  {
    if k > 0 {
      ClosedUnderEps(m, x, p, k - 1);
      assert EpsStepAt(m, p, k - 1);
    }
  }

  lemma ClosedHoldsClosure(m: Fsm, x: set<nat>, s: nat, t: nat)
    requires s in x && EpsReaches(m, s, t)
    requires forall u, v :: u in x && EpsStep(m, u, v) ==> v in x
    ensures t in x
  {
    var p :| IsEpsPath(m, p) && p[0] == s && p[|p| - 1] == t;
    ClosedUnderEps(m, x, p, |p| - 1);
  }

  // ----- runs -----

  ghost predicate IsTarget(m: Fsm, u: nat, c: Byte, v: nat) {
    u < |m.states| && v in Targets(m.states[u].edges, c)
  }

  /** A labelled step, with epsilons before it. */
  ghost predicate LabelStep(m: Fsm, s: nat, c: Byte, v: nat) {
    exists u :: EpsReaches(m, s, u) && IsTarget(m, u, c, v)
  }

  /** `t` can be reached from `s` on `w`, with epsilons anywhere. */
  ghost predicate Reaches(m: Fsm, s: nat, w: seq<Byte>, t: nat)
    decreases |w|
  {
    if w == [] then EpsReaches(m, s, t)
    else exists v :: LabelStep(m, s, w[0], v) && Reaches(m, v, w[1..], t)
  }

  ghost predicate AcceptsFrom(m: Fsm, s: nat, w: seq<Byte>) {
    exists t: nat :: Reaches(m, s, w, t) && t < |m.states| && m.states[t].end
  }

  /** `id` is an end ID of an end state reached on `w`. */
  ghost predicate IdFrom(m: Fsm, s: nat, w: seq<Byte>, id: nat) {
    exists t: nat :: Reaches(m, s, w, t) && t < |m.states| && m.states[t].end && id in m.states[t].endIds
  }

  /** The same strings are accepted from the start. */
  ghost predicate SameLanguage(m: Fsm, d: Fsm) {
    && (m.start.Some? <==> d.start.Some?)
    && (m.start.Some? ==> forall w: seq<Byte> :: AcceptsFrom(m, m.start.value, w) <==> AcceptsFrom(d, d.start.value, w))
  }

  /** They come with the same end IDs. */
  ghost predicate SameIds(m: Fsm, d: Fsm) {
    && (m.start.Some? <==> d.start.Some?)
    && (m.start.Some? ==> forall w: seq<Byte>, id: nat ::
          IdFrom(m, m.start.value, w, id) <==> IdFrom(d, d.start.value, w, id))
  }

  ghost predicate EpsilonFree(m: Fsm) {
    forall s :: 0 <= s < |m.states| ==> m.states[s].epsilons == {}
  }

  lemma EpsilonFreeReaches(m: Fsm, s: nat, t: nat)
    requires EpsilonFree(m)
    ensures EpsReaches(m, s, t) <==> s == t
  {
    EpsReflexive(m, s);
    if EpsReaches(m, s, t) {
      var p :| IsEpsPath(m, p) && p[0] == s && p[|p| - 1] == t;
      if |p| > 1 {
        NoEpsPath(m, p);
      }
    }
  }

  lemma NoEpsPath(m: Fsm, p: seq<nat>)
    requires EpsilonFree(m) && |p| > 1
    ensures !IsEpsPath(m, p)
  {
    assert !EpsStepAt(m, p, 0);
  }

  /** Without epsilons a labelled step is an edge. */
  lemma EpsilonFreeStep(m: Fsm, s: nat, c: Byte, v: nat)
    requires EpsilonFree(m)
    ensures LabelStep(m, s, c, v) <==> IsTarget(m, s, c, v)
  {
    EpsilonFreeReaches(m, s, s);
    if LabelStep(m, s, c, v) {
      var u :| EpsReaches(m, s, u) && IsTarget(m, u, c, v);
      EpsilonFreeReaches(m, s, u);
    }
  }
}
