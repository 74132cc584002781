/** The automata that every stage of libfsm works on.

A state owns a set of labelled edges, kept as groups `(symbols, to)` in strictly
ascending order of destination, a set of epsilon edges, an end flag and a set of
end IDs. A machine in which no two groups of a state share a symbol, and no
state has epsilons, is a DFA.

The meaning of a DFA is given by `Run`, which completes the machine with a dead
state numbered `|states|`, and by `Observe`: what a caller sees after the input,
either "no match" or a match together with its end IDs.
*/
module Automata {

  type Byte = b: int | 0 <= b < 256

  /** The number that stands for no state, no class and no set. */
  const NO_ID: nat := 0xFFFF_FFFF

  datatype Option<+T> = None | Some(value: T)

  /** One `struct edge_group`: all the symbols that lead to one destination. */
  datatype Group = Group(symbols: set<Byte>, to: nat)

  datatype State = State(edges: seq<Group>, epsilons: set<nat>, end: bool, endIds: set<nat>)

  datatype Fsm = Fsm(states: seq<State>, start: Option<nat>)

  /** Groups are sorted by destination, without duplicates. */
  predicate Sorted(es: seq<Group>) {
    forall i, j :: 0 <= i < j < |es| ==> es[i].to < es[j].to
  }

  predicate EdgesWithin(es: seq<Group>, n: nat) {
    forall i :: 0 <= i < |es| ==> es[i].to < n
  }

  /** No symbol appears in two groups. */
  ghost predicate Deterministic(es: seq<Group>) {
    forall i, j :: 0 <= i < j < |es| ==> es[i].symbols !! es[j].symbols
  }

  ghost predicate WellFormed(m: Fsm) {
    && (forall s :: 0 <= s < |m.states| ==>
          && Sorted(m.states[s].edges)
          && EdgesWithin(m.states[s].edges, |m.states|)
          && (forall t :: t in m.states[s].epsilons ==> t < |m.states|))
    && (m.start.Some? ==> m.start.value < |m.states|)
  }

  ghost predicate IsDfa(m: Fsm) {
    && WellFormed(m)
    && (forall s :: 0 <= s < |m.states| ==>
          m.states[s].epsilons == {} && Deterministic(m.states[s].edges))
  }

  /** The destinations of symbol `c`: what the groups denote. */
  function Targets(es: seq<Group>, c: Byte): (r: set<nat>) {
    set i | 0 <= i < |es| && c in es[i].symbols :: es[i].to
  }

  /** The first group holding `c`, or `|es|`: the scan of `edge_set_find`. */
  function FindIndex(es: seq<Group>, c: Byte): (r: nat)
    ensures r <= |es|
    ensures r < |es| ==> c in es[r].symbols
    ensures forall j :: 0 <= j < r ==> c !in es[j].symbols
  {
    if es == [] then 0
    else if c in es[0].symbols then 0
    else
      var k := FindIndex(es[1..], c);
      assert forall j :: 0 < j < 1 + k ==> es[j] == es[1..][j - 1];
      1 + k
  }

  /** `find_dst`: where `c` leads from `s`; `|states|` is the dead state. */
  function Step(m: Fsm, s: nat, c: Byte): (t: nat)
    ensures WellFormed(m) ==> t <= |m.states|
    ensures s >= |m.states| ==> t == |m.states|
  {
    if s >= |m.states| then |m.states|
    else
      var es := m.states[s].edges;
      var i := FindIndex(es, c);
      if i < |es| then es[i].to else |m.states|
  }

  function Run(m: Fsm, s: nat, w: seq<Byte>): (t: nat)
    ensures WellFormed(m) && s <= |m.states| ==> t <= |m.states|
    decreases |w|
  {
    if w == [] then s else Run(m, Step(m, s, w[0]), w[1..])
  }

  /** What a caller learns when the input ends in `s`. */
  function Observe(m: Fsm, s: nat): (o: Option<set<nat>>) {
    if s < |m.states| && m.states[s].end then Some(m.states[s].endIds) else None
  }

  /** No suffix tells `s` and `t` apart, by acceptance or by end IDs. */
  ghost predicate Equivalent(m: Fsm, s: nat, t: nat) {
    forall w: seq<Byte> :: Observe(m, Run(m, s, w)) == Observe(m, Run(m, t, w))
  }

  /** `k` is the length of a shortest word leading from `s` to an end state. */
  ghost predicate IsEndDistance(m: Fsm, s: nat, k: nat) {
    && (exists w: seq<Byte> :: |w| == k && Observe(m, Run(m, s, w)).Some?)
    && (forall w: seq<Byte> :: Observe(m, Run(m, s, w)).Some? ==> k <= |w|)
  }

  lemma {:induction false} RunConcat(m: Fsm, s: nat, u: seq<Byte>, v: seq<Byte>)
    ensures Run(m, s, u + v) == Run(m, Run(m, s, u), v)
    decreases |u|
  {
    if u == [] {
      assert u + v == v;
    } else {
      assert (u + v)[1..] == u[1..] + v;
      RunConcat(m, Step(m, s, u[0]), u[1..], v);
    }
  }

  lemma {:induction false} RunDead(m: Fsm, w: seq<Byte>)
    ensures Run(m, |m.states|, w) == |m.states|
    decreases |w|
  {
    if w != [] {
      RunDead(m, w[1..]);
    }
  }

  /** Equivalent states stay equivalent after one symbol. */
  lemma EquivalentStep(m: Fsm, s: nat, t: nat, c: Byte)
    requires Equivalent(m, s, t)
    ensures Equivalent(m, Step(m, s, c), Step(m, t, c))
  {
    forall w: seq<Byte>
      ensures Observe(m, Run(m, Step(m, s, c), w)) == Observe(m, Run(m, Step(m, t, c), w))
    {
      var cw := [c] + w;
      assert cw[1..] == w && cw[0] == c;
      assert Observe(m, Run(m, s, cw)) == Observe(m, Run(m, t, cw));
    }
  }

  lemma EquivalentObserve(m: Fsm, s: nat, t: nat)
    requires Equivalent(m, s, t)
    ensures Observe(m, s) == Observe(m, t)
  {
    assert Run(m, s, []) == s && Run(m, t, []) == t;
  }

  /** A state that reaches an end is not equivalent to the dead state. */
  lemma LiveNotDead(m: Fsm, s: nat, k: nat)
    requires IsEndDistance(m, s, k)
    ensures !Equivalent(m, s, |m.states|)
    ensures !Equivalent(m, |m.states|, s)
  {
    var w: seq<Byte> :| |w| == k && Observe(m, Run(m, s, w)).Some?;
    RunDead(m, w);
    assert Observe(m, Run(m, |m.states|, w)).None?;
  }

  /** Equivalent states are equally far from an end. */
  lemma EquivalentDistance(m: Fsm, s: nat, t: nat, j: nat, k: nat)
    requires Equivalent(m, s, t) && IsEndDistance(m, s, j) && IsEndDistance(m, t, k)
    ensures j == k
  {
    var u: seq<Byte> :| |u| == j && Observe(m, Run(m, s, u)).Some?;
    assert Observe(m, Run(m, t, u)).Some?;
    var v: seq<Byte> :| |v| == k && Observe(m, Run(m, t, v)).Some?;
    assert Observe(m, Run(m, s, v)).Some?;
  }

  /** The distance classes have no gaps: below every distance there is a state
      one step closer to an end. */
  lemma NextCloser(m: Fsm, s: nat, k: nat) returns (c: Byte)
    requires IsEndDistance(m, s, k) && k > 0
    ensures IsEndDistance(m, Step(m, s, c), k - 1)
  {
    var w: seq<Byte> :| |w| == k && Observe(m, Run(m, s, w)).Some?;
    c := w[0];
    var t := Step(m, s, c);
    assert |w[1..]| == k - 1 && Observe(m, Run(m, t, w[1..])).Some?;
    forall v: seq<Byte> | Observe(m, Run(m, t, v)).Some?
      ensures k - 1 <= |v|
    {
      var cv := [c] + v;
      assert cv[1..] == v && cv[0] == c;
      assert Observe(m, Run(m, s, cv)).Some?;
    }
  }

  lemma DistanceZero(m: Fsm, s: nat, k: nat)
    requires IsEndDistance(m, s, k)
    ensures k == 0 <==> Observe(m, s).Some?
  {
    var w: seq<Byte> :| |w| == k && Observe(m, Run(m, s, w)).Some?;
    var e: seq<Byte> := [];
    assert Run(m, s, e) == s;
  }

  /** In deterministic edges, the group found is the only one with the symbol. */
  lemma FindIndexUnique(es: seq<Group>, c: Byte, i: nat)
    requires Deterministic(es) && i < |es| && c in es[i].symbols
    ensures FindIndex(es, c) == i
  {
  }
}
