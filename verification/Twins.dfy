/** What it costs to minimise a DFA in which a state without an edge set has a twin: an unset
label array can keep the two apart. */
module Twins {
  import opened Automata
  import opened Finite
  import opened InitialClasses
  import opened Refinement
  import opened Minimality
  import Minimise
  import Classes

  /** Arrays that never look the same for `s` and for another state. */
  function TellingJunk(s: nat): (nat, nat) -> set<Byte> {
    (n, t) => if t == s then {0} else {}
  }

  lemma TwinsUseBytes(m: Fsm, nulls: set<nat>, s: nat, t: nat)
    requires IsDfa(m) && AllReachable(m) && AreTwins(m, nulls, s, t)
    ensures Minimise.UsedBytes(m) != {}
  {
    var r := if m.start == Some(s) then t else s;
    assert IsReachable(m, r);
    var w: seq<Byte> :| ReachedOn(m, r, w);
    var b := m.start.value;
    assert w != [];
    if w[0] !in UsedSymbols(m, b) {
      RunDead(m, w[1..]);
    }
    assert w[0] in Minimise.UsedBytes(m);
  }

  /** The converse: with twins, and few labels, some content of the unset arrays makes the
      result larger than need be. `e` is a smaller machine with the same outcomes. */
  method TwinsCost(m: Fsm, sed: array<nat>, hash: set<nat> -> nat, nulls: set<nat>, s: nat, ghost t: nat)
    returns (d: Fsm, e: Fsm)
    requires IsDfa(m) && NullsOf(m, nulls) && |m.states| < Classes.SMALL_EC_FLAG - 1
    requires AllReachable(m) && ExactDistances(m, sed[..])
    requires AreTwins(m, nulls, s, t) && |Minimise.UsedBytes(m)| < Minimise.DFA_LABELS_THRESHOLD
    ensures IsDfa(d) && SameOutcomes(m, d) && IsDfa(e) && SameOutcomes(m, e)
    ensures |e.states| < |d.states| && !IsMinimal(d)
  {
    ghost var dist := sed[..];
    var junk := TellingJunk(s);
    ghost var g;
    d, g := FsmMinimise(m, sed, hash, nulls, junk);
    var f, c;
    e, f, c := FsmMinimiseTestOracle(m, dist);
    TwinsUseBytes(m, nulls, s, t);
    TwinsKeptApart(m, dist, nulls, s, t, g, |d.states|);
    NerodeCountBelow(m, f, c, g, |d.states|, s, t);
    assert SameOutcomes(d, e) by {
      forall w: seq<Byte>
        ensures Outcome(d, w) == Outcome(e, w)
      {
        assert Outcome(m, w) == Outcome(d, w) && Outcome(m, w) == Outcome(e, w);
      }
    }
  }

  lemma TwinNoSymbols(m: Fsm, sed: seq<nat>, nulls: set<nat>, s: nat, t: nat)
    requires IsDfa(m) && ExactDistances(m, sed) && AreTwins(m, nulls, s, t)
    ensures NoSymbols(m, t)
  {
    forall c: Byte
      ensures Step(m, t, c) == |m.states|
    {
      if Step(m, t, c) != |m.states| {
        SymbolLeadsOn(m, sed, t, c);
      }
    }
  }

  lemma SymbolLeadsOn(m: Fsm, sed: seq<nat>, t: nat, c: Byte)
    requires IsDfa(m) && ExactDistances(m, sed) && Step(m, t, c) != |m.states|
    ensures LeadsOn(m, t)
  {
    var u := Step(m, t, c);
    assert ExactAt(m, sed, u);
    var v: seq<Byte> :| |v| == sed[u] && Observe(m, Run(m, u, v)).Some?;
    var w := [c] + v;
    assert w[1..] == v && Run(m, t, w) == Run(m, u, v);
  }

  lemma NeverSame(nulls: set<nat>, s: nat, t: nat)
    requires s in nulls && s != t
    ensures !SometimesSame(nulls, TellingJunk(s), s, t)
  {
    forall n: nat
      ensures Blank(nulls, TellingJunk(s), n, s) != Blank(nulls, TellingJunk(s), n, t)
    {
      assert 0 in Blank(nulls, TellingJunk(s), n, s) && 0 !in Blank(nulls, TellingJunk(s), n, t);
    }
  }

  lemma TwinsKeptApart(m: Fsm, sed: seq<nat>, nulls: set<nat>, s: nat, t: nat, g: seq<nat>, n: nat)
    requires IsDfa(m) && ExactDistances(m, sed) && NullsOf(m, nulls)
    requires AreTwins(m, nulls, s, t) && MergedAs(m, nulls, TellingJunk(s), g, n)
    requires |Minimise.UsedBytes(m)| < Minimise.DFA_LABELS_THRESHOLD
    ensures Equivalent(m, s, t) && g[s] != g[t]
  {
    TwinsEquivalent(m, nulls, s, t);
    TwinNoSymbols(m, sed, nulls, s, t);
    NeverSame(nulls, s, t);
    assert NoSymbols(m, s);
  }

  // ----- an end ID for each state without an edge set -----

  /** The machine in which each state of `nulls` has an end ID of its own. */
  function Tagged(m: Fsm, nulls: set<nat>, base: nat): (r: Fsm)
    ensures |r.states| == |m.states| && r.start == m.start
  {
    Fsm(seq(|m.states|, s requires 0 <= s < |m.states| =>
          if s in nulls then m.states[s].(endIds := m.states[s].endIds + {base + s}) else m.states[s]), m.start)
  }

  lemma {:induction false} TaggedRun(m: Fsm, nulls: set<nat>, base: nat, s: nat, w: seq<Byte>)
    ensures Run(Tagged(m, nulls, base), s, w) == Run(m, s, w)
    decreases |w|
  {
    if w != [] {
      assert Step(Tagged(m, nulls, base), s, w[0]) == Step(m, s, w[0]);
      TaggedRun(m, nulls, base, Step(m, s, w[0]), w[1..]);
    }
  }

  /** All states of `nulls` are ends, and no end ID is `base` or more. */
  ghost predicate CanTag(m: Fsm, nulls: set<nat>, base: nat) {
    && (forall s :: s in nulls ==> s < |m.states| && m.states[s].end)
    && (forall s, id :: 0 <= s < |m.states| && id in m.states[s].endIds ==> id < base)
  }

  lemma TaggedObserve(m: Fsm, nulls: set<nat>, base: nat, a: nat, b: nat)
    requires CanTag(m, nulls, base)
    ensures Observe(Tagged(m, nulls, base), a) == Observe(Tagged(m, nulls, base), b) <==>
            Observe(m, a) == Observe(m, b) && (a in nulls || b in nulls ==> a == b)
  {
    var r := Tagged(m, nulls, base);
    if Observe(r, a) == Observe(r, b) {
      assert a in nulls ==> base + a in Observe(r, a).value;
      assert b in nulls ==> base + b in Observe(r, b).value;
    }
  }

  /** Arrays that are different for each state part what such end IDs part. */
  lemma OwnIsTagged(m: Fsm, nulls: set<nat>, base: nat, s: nat, t: nat)
    requires CanTag(m, nulls, base)
    ensures StrictlyEquivalent(m, nulls, OwnLabels(), s, t) <==> Equivalent(Tagged(m, nulls, base), s, t)
  {
    var r := Tagged(m, nulls, base);
    forall w: seq<Byte>
      ensures StrictlyAfter(m, nulls, OwnLabels(), s, t, w) <==> Observe(r, Run(r, s, w)) == Observe(r, Run(r, t, w))
    {
      var a, b := Run(m, s, w), Run(m, t, w);
      TaggedRun(m, nulls, base, s, w);
      TaggedRun(m, nulls, base, t, w);
      TaggedObserve(m, nulls, base, a, b);
      if LooksSame(nulls, OwnLabels(), a, b) && (a in nulls || b in nulls) {
        OwnApart(nulls, a, b);
      }
    }
  }

  // ----- an example -----

  /** Three ends: one with an edge back to itself, and two without an edge set. */
  function TwinsExample(): Fsm {
    var a, b, c := 97, 98, 99;
    Fsm([State([Group({a}, 1), Group({b}, 2), Group({c}, 3)], {}, false, {}),
         State([], {}, true, {}),
         State([Group({a}, 2)], {}, true, {}),
         State([], {}, true, {})],
        Some(0))
  }

  lemma ExampleSteps()
    ensures var m := TwinsExample();
            && IsDfa(m)
            && (forall c: Byte :: Step(m, 0, c) == if c == 97 then 1 else if c == 98 then 2 else if c == 99 then 3 else 4)
            && (forall c: Byte :: Step(m, 1, c) == 4 && Step(m, 3, c) == 4)
            && (forall c: Byte :: Step(m, 2, c) == if c == 97 then 2 else 4)
  {
    var m := TwinsExample();
    var es := m.states[0].edges;
    assert IsDfa(m);
    forall c: Byte
      ensures Step(m, 0, c) == if c == 97 then 1 else if c == 98 then 2 else if c == 99 then 3 else 4
      ensures Step(m, 2, c) == if c == 97 then 2 else 4
    {
      if c == 97 {
        FindIndexUnique(es, c, 0);
        FindIndexUnique(m.states[2].edges, c, 0);
      } else if c == 98 {
        FindIndexUnique(es, c, 1);
      } else if c == 99 {
        FindIndexUnique(es, c, 2);
      }
      var k, l := FindIndex(es, c), FindIndex(m.states[2].edges, c);
      assert k < |es| ==> c in es[k].symbols;
    }
  }

  lemma ExampleReached()
    ensures AllReachable(TwinsExample())
  {
    var m := TwinsExample();
    ExampleSteps();
    assert ReachedOn(m, 0, []);
    forall c: Byte
      ensures Run(m, 0, [c]) == Step(m, 0, c)
    {
      assert [c][1..] == [];
    }
    assert ReachedOn(m, 1, [97]) && ReachedOn(m, 2, [98]) && ReachedOn(m, 3, [99]);
  }

  lemma EndAtOnce(m: Fsm, s: nat)
    requires Observe(m, s).Some?
    ensures IsEndDistance(m, s, 0)
  {
    var e: seq<Byte> := [];
    assert |e| == 0 && Observe(m, Run(m, s, e)).Some?;
  }

  lemma EndAfterOne(m: Fsm, s: nat, c: Byte)
    requires Observe(m, s).None? && Observe(m, Step(m, s, c)).Some?
    ensures IsEndDistance(m, s, 1)
  {
    var w := [c];
    assert w[1..] == [] && Run(m, s, w) == Step(m, s, c);
    assert |w| == 1 && Observe(m, Run(m, s, w)).Some?;
  }

  lemma DistancesOneLevel(m: Fsm, sed: seq<nat>, c: Byte)
    requires |m.states| == |sed| > 0 && sed[0] == 1 && forall s :: 1 <= s < |sed| ==> sed[s] == 0
    requires Observe(m, 0).None? && Observe(m, Step(m, 0, c)).Some?
    requires forall s :: 1 <= s < |sed| ==> Observe(m, s).Some?
    ensures ExactDistances(m, sed)
  {
    forall s: nat | s < |sed|
      ensures ExactAt(m, sed, s)
    {
      if s == 0 {
        EndAfterOne(m, 0, c);
      } else {
        EndAtOnce(m, s);
      }
    }
  }

  lemma ExampleDistances()
    ensures ExactDistances(TwinsExample(), [1, 0, 0, 0])
  {
    ExampleSteps();
    DistancesOneLevel(TwinsExample(), [1, 0, 0, 0], 97);
  }

  lemma ExampleTwins()
    ensures NullsOf(TwinsExample(), {1, 3}) && AreTwins(TwinsExample(), {1, 3}, 1, 3)
  {
    var m, nulls: set<nat> := TwinsExample(), {1, 3};
    assert NullsOf(m, nulls);
    forall w: seq<Byte> | w != []
      ensures Observe(m, Run(m, 3, w)).None?
    {
      NullDead(m, nulls, 3, w);
    }
  }

  lemma ExampleBytes()
    ensures |Minimise.UsedBytes(TwinsExample())| < Minimise.DFA_LABELS_THRESHOLD
  {
    var m := TwinsExample();
    ExampleSteps();
    var used: set<Byte> := {97, 98, 99};
    forall c | c in Minimise.UsedBytes(m)
      ensures c in used
    {
      var s :| 0 <= s < |m.states| && c in UsedSymbols(m, s);
      assert s == 0 || s == 1 || s == 2 || s == 3;
    }
    SubsetSize(Minimise.UsedBytes(m), used);
  }

  /** On the example, the result can have four states where three are enough. */
  method ExampleCost(hash: set<nat> -> nat) returns (d: Fsm, e: Fsm)
    ensures SameOutcomes(TwinsExample(), d) && IsDfa(e) && SameOutcomes(TwinsExample(), e)
    ensures |e.states| < |d.states| && !IsMinimal(d)
  {
    ExampleSteps();
    ExampleReached();
    ExampleDistances();
    ExampleTwins();
    ExampleBytes();
    var sed := new nat[] [1, 0, 0, 0];
    assert sed[..] == [1, 0, 0, 0];
    d, e := TwinsCost(TwinsExample(), sed, hash, {1, 3}, 1, 3);
  }
}
