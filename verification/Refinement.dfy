/** Why Moore's partition refinement is right, on values: what it means for a
class map to separate only distinguishable states, what one partition step may
conclude from a mismatch, and what a pass without changes proves.

A class map `cls` covers the states and the dead state, whose class is `NO_ID`.
*/
module Refinement {
  import opened Automata
  import opened Classes
  import opened Finite

  /** The class reached from `s` on `c`; the dead state included. */
  function ToEc(m: Fsm, cls: seq<nat>, s: nat, c: Byte): nat
    requires WellFormed(m) && |cls| == |m.states| + 1
  {
    cls[Step(m, s, c)]
  }

  /** All symbols that lead from `s` into class `ec`. */
  function SymbolsInto(m: Fsm, cls: seq<nat>, s: nat, ec: nat): set<Byte>
    requires WellFormed(m) && |cls| == |m.states| + 1
  {
    set c: Byte | ToEc(m, cls, s, c) == ec
  }

  /** The label set `edge_set_check_edges_with_EC_mapping` reports: empty when `c`
      leads nowhere, else every symbol going to the same class as `c`. */
  function CheckedLabels(m: Fsm, cls: seq<nat>, s: nat, c: Byte): set<Byte>
    requires WellFormed(m) && |cls| == |m.states| + 1
  {
    if Step(m, s, c) == |m.states| then {} else SymbolsInto(m, cls, s, ToEc(m, cls, s, c))
  }

  /** The states whose edge set is not allocated at all. For them the C code never writes the
      array that the label set goes to; `junk` is what that array happens to hold for a state
      during the attempt to partition numbered `step`. */
  datatype Unset = Unset(nulls: set<nat>, junk: (nat, nat) -> set<Byte>, step: nat)

  ghost predicate NullsOf(m: Fsm, nulls: set<nat>) {
    forall s :: s in nulls ==> s < |m.states| && m.states[s].edges == []
  }

  /** The label set that the caller finds after the check. */
  function SeenLabels(m: Fsm, cls: seq<nat>, u: Unset, s: nat, c: Byte): set<Byte>
    requires WellFormed(m) && |cls| == |m.states| + 1
  {
    if s in u.nulls then u.junk(u.step, s) else CheckedLabels(m, cls, s, c)
  }

  /** What `try_partition` compares. */
  predicate SameSignature(m: Fsm, cls: seq<nat>, u: Unset, s: nat, t: nat, c: Byte)
    requires WellFormed(m) && |cls| == |m.states| + 1
  {
    ToEc(m, cls, s, c) == ToEc(m, cls, t, c) && SeenLabels(m, cls, u, s, c) == SeenLabels(m, cls, u, t, c)
  }

  /** No state is equivalent to another one whose edge set is not allocated. */
  ghost predicate NullsStandAlone(m: Fsm, nulls: set<nat>) {
    forall s :: s in nulls ==> StandsAlone(m, s)
  }

  ghost predicate StandsAlone(m: Fsm, s: nat) {
    forall t: nat :: t < |m.states| && t != s ==> !Equivalent(m, s, t) && !Equivalent(m, t, s)
  }

  // ----- equivalence, as far as unset arrays allow -----

  /** What is found for a state on which no symbol leads anywhere. */
  function Blank(nulls: set<nat>, junk: (nat, nat) -> set<Byte>, n: nat, s: nat): set<Byte> {
    if s in nulls then junk(n, s) else {}
  }

  /** The arrays of two such states look the same at every step. */
  ghost predicate LooksSame(nulls: set<nat>, junk: (nat, nat) -> set<Byte>, s: nat, t: nat) {
    forall n: nat :: Blank(nulls, junk, n, s) == Blank(nulls, junk, n, t)
  }

  /** Arrays that look different for each state at some step, as if each state without an edge
      set had an end ID of its own. */
  function OwnLabels(): (nat, nat) -> set<Byte> {
    (n, s) => if n == s then {0} else {}
  }

  lemma OwnApart(nulls: set<nat>, s: nat, t: nat)
    requires LooksSame(nulls, OwnLabels(), s, t) && (s in nulls || t in nulls)
    ensures s == t
  {
    assert Blank(nulls, OwnLabels(), s, s) == Blank(nulls, OwnLabels(), s, t);
    assert Blank(nulls, OwnLabels(), t, s) == Blank(nulls, OwnLabels(), t, t);
    assert {0} != {} by {
      assert 0 in {0};
    }
  }

  /** The arrays hold nothing, as if they had been cleared. */
  ghost predicate AllBlank(nulls: set<nat>, junk: (nat, nat) -> set<Byte>) {
    forall n: nat, s: nat :: Blank(nulls, junk, n, s) == {}
  }

  /** After `w`, both show the same, and states without an edge set have arrays that look the same. */
  ghost predicate StrictlyAfter(m: Fsm, nulls: set<nat>, junk: (nat, nat) -> set<Byte>, s: nat, t: nat, w: seq<Byte>) {
    var a, b := Run(m, s, w), Run(m, t, w);
    Observe(m, a) == Observe(m, b) && (a in nulls || b in nulls ==> LooksSame(nulls, junk, a, b))
  }

  /** No word tells `s` and `t` apart, and neither do unset arrays. */
  ghost predicate StrictlyEquivalent(m: Fsm, nulls: set<nat>, junk: (nat, nat) -> set<Byte>, s: nat, t: nat) {
    forall w: seq<Byte> :: StrictlyAfter(m, nulls, junk, s, t, w)
  }

  lemma StrictIsEquivalent(m: Fsm, nulls: set<nat>, junk: (nat, nat) -> set<Byte>, s: nat, t: nat)
    requires StrictlyEquivalent(m, nulls, junk, s, t)
    ensures Equivalent(m, s, t) && (s in nulls || t in nulls ==> LooksSame(nulls, junk, s, t))
  {
    forall w: seq<Byte>
      ensures Observe(m, Run(m, s, w)) == Observe(m, Run(m, t, w))
    {
      assert StrictlyAfter(m, nulls, junk, s, t, w);
    }
    var e: seq<Byte> := [];
    assert StrictlyAfter(m, nulls, junk, s, t, e);
  }

  lemma StrictStep(m: Fsm, nulls: set<nat>, junk: (nat, nat) -> set<Byte>, s: nat, t: nat, c: Byte)
    requires StrictlyEquivalent(m, nulls, junk, s, t)
    ensures StrictlyEquivalent(m, nulls, junk, Step(m, s, c), Step(m, t, c))
  {
    forall w: seq<Byte>
      ensures StrictlyAfter(m, nulls, junk, Step(m, s, c), Step(m, t, c), w)
    {
      var cw := [c] + w;
      assert cw[1..] == w && cw[0] == c;
      assert StrictlyAfter(m, nulls, junk, s, t, cw);
    }
  }

  lemma {:induction false} EquivalentAfter(m: Fsm, s: nat, t: nat, w: seq<Byte>)
    requires Equivalent(m, s, t)
    ensures Equivalent(m, Run(m, s, w), Run(m, t, w))
    decreases |w|
  {
    if w != [] {
      EquivalentStep(m, s, t, w[0]);
      EquivalentAfter(m, Step(m, s, w[0]), Step(m, t, w[0]), w[1..]);
    }
  }

  /** Where the states without an edge set stand alone, the two notions are the same. */
  lemma AloneIsStrict(m: Fsm, nulls: set<nat>, junk: (nat, nat) -> set<Byte>, s: nat, t: nat)
    requires WellFormed(m) && AllLive(m) && NullsOf(m, nulls) && NullsStandAlone(m, nulls)
    requires s < |m.states| && t < |m.states| && Equivalent(m, s, t)
    ensures StrictlyEquivalent(m, nulls, junk, s, t)
  {
    forall w: seq<Byte>
      ensures StrictlyAfter(m, nulls, junk, s, t, w)
    {
      var a, b := Run(m, s, w), Run(m, t, w);
      EquivalentAfter(m, s, t, w);
      assert a in nulls ==> StandsAlone(m, a) && LiveAt(m, a);
      assert b in nulls ==> StandsAlone(m, b) && LiveAt(m, b);
    }
  }

  /** The same if the arrays hold nothing. */
  lemma BlankIsStrict(m: Fsm, nulls: set<nat>, junk: (nat, nat) -> set<Byte>, s: nat, t: nat)
    requires AllBlank(nulls, junk) && Equivalent(m, s, t)
    ensures StrictlyEquivalent(m, nulls, junk, s, t)
  {
  }

  /** A state without an edge set is equivalent only to states without symbols. */
  lemma NullNoSymbols(m: Fsm, nulls: set<nat>, s: nat, t: nat)
    requires WellFormed(m) && AllLive(m) && NullsOf(m, nulls) && s in nulls
    requires Equivalent(m, s, t) || Equivalent(m, t, s)
    ensures NoSymbols(m, s) && NoSymbols(m, t)
  {
    forall c: Byte
      ensures Step(m, t, c) == |m.states|
    {
      assert Step(m, s, c) == |m.states|;
      if Equivalent(m, s, t) {
        EquivalentStep(m, s, t, c);
      } else {
        EquivalentStep(m, t, s, c);
      }
      assert Step(m, t, c) < |m.states| ==> LiveAt(m, Step(m, t, c));
    }
  }

  /** A class map over the states and the dead state. */
  ghost predicate IsClassMap(m: Fsm, cls: seq<nat>) {
    && WellFormed(m)
    && |cls| == |m.states| + 1
    && cls[|m.states|] == NO_ID
    && (forall s :: 0 <= s < |m.states| ==> cls[s] != NO_ID)
  }

  /** Soundness: states in different classes can be told apart by some input, or by what unset
      arrays hold. */
  ghost predicate Separated(m: Fsm, nulls: set<nat>, junk: (nat, nat) -> set<Byte>, cls: seq<nat>) {
    && |cls| == |m.states| + 1
    && (forall s, t :: 0 <= s <= |m.states| && 0 <= t <= |m.states| && cls[s] != cls[t] ==>
          !StrictlyEquivalent(m, nulls, junk, s, t))
  }

  /** All members of `l` agree on where every symbol of `cs` leads. */
  ghost predicate StableOn(m: Fsm, cls: seq<nat>, l: seq<nat>, cs: set<Byte>) {
    && WellFormed(m) && |cls| == |m.states| + 1
    && (forall s, c :: s in l && c in cs ==> ToEc(m, cls, s, c) == ToEc(m, cls, l[0], c))
  }

  /** Members of one class look alike and go to the same classes. */
  ghost predicate Congruent(m: Fsm, cls: seq<nat>) {
    && IsClassMap(m, cls)
    && (forall s, t :: 0 <= s <= |m.states| && 0 <= t <= |m.states| && cls[s] == cls[t] ==>
          Observe(m, s) == Observe(m, t))
    && (forall s, t, c: Byte :: 0 <= s <= |m.states| && 0 <= t <= |m.states| && cls[s] == cls[t] ==>
          ToEc(m, cls, s, c) == ToEc(m, cls, t, c))
  }

  lemma StrictMatch(m: Fsm, nulls: set<nat>, junk: (nat, nat) -> set<Byte>, cls: seq<nat>, s: nat, t: nat, c: Byte)
    requires IsClassMap(m, cls) && Separated(m, nulls, junk, cls)
    requires StrictlyEquivalent(m, nulls, junk, s, t)
    ensures ToEc(m, cls, s, c) == ToEc(m, cls, t, c) && CheckedLabels(m, cls, s, c) == CheckedLabels(m, cls, t, c)
  {
    forall d: Byte
      ensures ToEc(m, cls, s, d) == ToEc(m, cls, t, d)
    {
      StrictStep(m, nulls, junk, s, t, d);
    }
    assert ToEc(m, cls, s, c) == ToEc(m, cls, t, c);
    assert CheckedLabels(m, cls, s, c) == CheckedLabels(m, cls, t, c);
  }

  /** A mismatch in `try_partition` is a proof that the states differ, if only in what their unset
      arrays hold. */
  lemma MismatchDistinguishes(m: Fsm, cls: seq<nat>, u: Unset, s: nat, t: nat, c: Byte)
    requires IsClassMap(m, cls) && Separated(m, u.nulls, u.junk, cls)
    requires AllLive(m) && NullsOf(m, u.nulls)
    requires s < |m.states| && t < |m.states| && !SameSignature(m, cls, u, s, t, c)
    ensures !StrictlyEquivalent(m, u.nulls, u.junk, s, t)
  {
    if StrictlyEquivalent(m, u.nulls, u.junk, s, t) {
      StrictSignature(m, cls, u, s, t, c);
    }
  }

  lemma StrictSignature(m: Fsm, cls: seq<nat>, u: Unset, s: nat, t: nat, c: Byte)
    requires IsClassMap(m, cls) && Separated(m, u.nulls, u.junk, cls) && AllLive(m) && NullsOf(m, u.nulls)
    requires s < |m.states| && t < |m.states| && StrictlyEquivalent(m, u.nulls, u.junk, s, t)
    ensures SameSignature(m, cls, u, s, t, c)
  {
    StrictIsEquivalent(m, u.nulls, u.junk, s, t);
    StrictMatch(m, u.nulls, u.junk, cls, s, t, c);
    if s in u.nulls {
      NullNoSymbols(m, u.nulls, s, t);
    } else if t in u.nulls {
      NullNoSymbols(m, u.nulls, t, s);
    }
    assert s in u.nulls || t in u.nulls ==> Blank(u.nulls, u.junk, u.step, s) == Blank(u.nulls, u.junk, u.step, t);
  }

  /** When no member mismatches, the symbol and all symbols checked with it are settled,
      whatever the unset arrays hold. */
  lemma MatchSettles(m: Fsm, cls: seq<nat>, u: Unset, l: seq<nat>, c: Byte)
    requires IsClassMap(m, cls) && NullsOf(m, u.nulls) && l != []
    requires forall s :: s in l ==> SameSignature(m, cls, u, l[0], s, c)
    ensures StableOn(m, cls, l, {c} + CheckedLabels(m, cls, l[0], c))
  {
    forall s, d: Byte | s in l && d in {c} + CheckedLabels(m, cls, l[0], c)
      ensures ToEc(m, cls, s, d) == ToEc(m, cls, l[0], d)
    {
      assert SameSignature(m, cls, u, l[0], s, c);
      if d != c {
        assert Step(m, l[0], c) != |m.states| && Step(m, s, c) != |m.states|;
        assert l[0] !in u.nulls && s !in u.nulls;
        assert d in CheckedLabels(m, cls, s, c);
      }
    }
  }

  /** Symbols that no member of the class uses cannot split it. */
  lemma UnusedSettled(m: Fsm, cls: seq<nat>, l: seq<nat>, labels: seq<Byte>)
    requires IsClassMap(m, cls) && l != []
    requires StableOn(m, cls, l, set c | c in labels)
    requires forall s :: s in l ==> UsedWithin(m, s, labels)
    ensures StableOn(m, cls, l, AllBytes())
  {
    forall s, c: Byte | s in l && c in AllBytes()
      ensures ToEc(m, cls, s, c) == ToEc(m, cls, l[0], c)
    {
      assert UsedWithin(m, s, labels) && l[0] in l && UsedWithin(m, l[0], labels);
      if c !in labels {
        assert c !in UsedSymbols(m, s) && c !in UsedSymbols(m, l[0]);
      }
    }
  }

  ghost predicate UsedWithin(m: Fsm, s: nat, labels: seq<Byte>) {
    forall c :: c in UsedSymbols(m, s) ==> c in labels
  }

  lemma {:induction false} CongruentRun(m: Fsm, cls: seq<nat>, s: nat, t: nat, w: seq<Byte>)
    requires Congruent(m, cls) && s <= |m.states| && t <= |m.states| && cls[s] == cls[t]
    ensures Observe(m, Run(m, s, w)) == Observe(m, Run(m, t, w))
    decreases |w|
  {
    if w != [] {
      assert ToEc(m, cls, s, w[0]) == ToEc(m, cls, t, w[0]);
      CongruentRun(m, cls, Step(m, s, w[0]), Step(m, t, w[0]), w[1..]);
    }
  }

  /** Completeness: a fixpoint of the refinement never keeps distinguishable states together. */
  lemma CongruentEquivalent(m: Fsm, cls: seq<nat>, s: nat, t: nat)
    requires Congruent(m, cls) && s <= |m.states| && t <= |m.states| && cls[s] == cls[t]
    ensures Equivalent(m, s, t)
  {
    forall w: seq<Byte>
      ensures Observe(m, Run(m, s, w)) == Observe(m, Run(m, t, w))
    {
      CongruentRun(m, cls, s, t, w);
    }
  }

  /** A pass in which every class is settled has reached the fixpoint. */
  lemma StableIsCongruent(m: Fsm, cls: seq<nat>, lists: seq<seq<nat>>)
    requires IsClassMap(m, cls) && IsPartition(lists, |m.states|) && Indexes(cls, lists)
    requires forall i :: 0 <= i < |lists| ==> StableOn(m, cls, lists[i], AllBytes())
    requires forall i, s :: 0 <= i < |lists| && s in lists[i] ==> Observe(m, s) == Observe(m, lists[i][0])
    ensures Congruent(m, cls)
  {
    forall s, t | 0 <= s <= |m.states| && 0 <= t <= |m.states| && cls[s] == cls[t]
      ensures Observe(m, s) == Observe(m, t)
      ensures forall c: Byte :: ToEc(m, cls, s, c) == ToEc(m, cls, t, c)
    {
      if s < |m.states| && t < |m.states| {
        ListOf(lists, |m.states|, cls, s);
        ListOf(lists, |m.states|, cls, t);
        var l := lists[cls[s]];
        assert StableOn(m, cls, l, AllBytes());
      }
    }
  }

  /** The symbols on which `s` has an edge. */
  function UsedSymbols(m: Fsm, s: nat): (r: set<Byte>) {
    set c: Byte | Step(m, s, c) != |m.states|
  }

  function AllBytes(): (r: set<Byte>)
    ensures forall c: Byte :: c in r
  {
    set c: Byte {:trigger IsByte(c)} | IsByte(c)
  }

  predicate IsByte(c: Byte) { true }

  // ----- the same, on the lists that hold the classes -----

  /** Members of one class look alike. */
  ghost predicate Alike(m: Fsm, lists: seq<seq<nat>>) {
    forall i, s, t {:trigger s in lists[i], t in lists[i]} ::
      0 <= i < |lists| && s in lists[i] && t in lists[i] ==> Observe(m, s) == Observe(m, t)
  }

  /** Members of different classes can be told apart. */
  ghost predicate Apart(m: Fsm, nulls: set<nat>, junk: (nat, nat) -> set<Byte>, lists: seq<seq<nat>>) {
    forall i, j, s, t {:trigger s in lists[i], t in lists[j]} ::
      0 <= i < |lists| && 0 <= j < |lists| && i != j && s in lists[i] && t in lists[j] ==> !StrictlyEquivalent(m, nulls, junk, s, t)
  }

  /** What every refinement step keeps. */
  ghost predicate Refined(m: Fsm, nulls: set<nat>, junk: (nat, nat) -> set<Byte>, lists: seq<seq<nat>>) {
    Alike(m, lists) && Apart(m, nulls, junk, lists)
  }

  /** No state is as good as dead: what trimming gives. */
  ghost predicate AllLive(m: Fsm) {
    forall s: nat :: s < |m.states| ==> LiveAt(m, s)
  }

  ghost predicate LiveAt(m: Fsm, s: nat) {
    !Equivalent(m, s, |m.states|) && !Equivalent(m, |m.states|, s)
  }

  lemma ClassMapOfLists(m: Fsm, lists: seq<seq<nat>>, cls: seq<nat>)
    requires WellFormed(m) && IsPartition(lists, |m.states|) && Indexes(cls, lists)
    requires |cls| == |m.states| + 1 && cls[|m.states|] == NO_ID && |m.states| < NO_ID
    ensures IsClassMap(m, cls)
  {
    ClassCount(lists, |m.states|);
    forall s | 0 <= s < |m.states|
      ensures cls[s] != NO_ID
    {
      ListOf(lists, |m.states|, cls, s);
    }
  }

  lemma RefinedSeparates(m: Fsm, nulls: set<nat>, junk: (nat, nat) -> set<Byte>, lists: seq<seq<nat>>, cls: seq<nat>)
    requires IsPartition(lists, |m.states|) && Indexes(cls, lists) && IsClassMap(m, cls)
    requires Apart(m, nulls, junk, lists) && AllLive(m)
    ensures Separated(m, nulls, junk, cls)
  {
    forall s, t | 0 <= s <= |m.states| && 0 <= t <= |m.states| && cls[s] != cls[t]
      ensures !StrictlyEquivalent(m, nulls, junk, s, t)
    {
      if StrictlyEquivalent(m, nulls, junk, s, t) {
        StrictIsEquivalent(m, nulls, junk, s, t);
      }
      if s < |m.states| {
        ListOf(lists, |m.states|, cls, s);
        assert LiveAt(m, s);
      }
      if t < |m.states| {
        ListOf(lists, |m.states|, cls, t);
        assert LiveAt(m, t);
      }
    }
  }

  lemma RefinedSwap(m: Fsm, nulls: set<nat>, junk: (nat, nat) -> set<Byte>, lists: seq<seq<nat>>, i: nat, j: nat)
    requires Refined(m, nulls, junk, lists) && i < |lists| && j < |lists|
    ensures Refined(m, nulls, junk, Swap(lists, i, j))
  {
    var r := Swap(lists, i, j);
    forall a, b, s, t | 0 <= a < |r| && 0 <= b < |r| && s in r[a] && t in r[b]
      ensures a == b ==> Observe(m, s) == Observe(m, t)
      ensures a != b ==> !StrictlyEquivalent(m, nulls, junk, s, t)
    {
      var a' := if a == i then j else if a == j then i else a;
      var b' := if b == i then j else if b == j then i else b;
      assert s in lists[a'] && t in lists[b'];
    }
  }

  lemma RefinedArrange(m: Fsm, nulls: set<nat>, junk: (nat, nat) -> set<Byte>, lists: seq<seq<nat>>, src: nat, done: nat)
    requires Refined(m, nulls, junk, lists) && src < done < |lists|
    ensures Refined(m, nulls, junk, Arrange(lists, src, done))
  {
    var l1 := Promote(lists, done);
    RefinedSwap(m, nulls, junk, lists, |lists| - 1, done);
    if |lists[src]| == 1 {
      RefinedSwap(m, nulls, junk, l1, src, if |lists[|lists| - 1]| != 1 then done else done - 1);
    }
  }

  /** All members of `l` agreed with the first one when `c` was tried. */
  ghost predicate MatchedOn(m: Fsm, cls: seq<nat>, u: Unset, l: seq<nat>, c: Byte)
    requires WellFormed(m) && |cls| == |m.states| + 1 && l != []
  {
    forall s :: s in l ==> SameSignature(m, cls, u, l[0], s, c)
  }

  /** Some symbol was tried on `l` at some step, and all members agreed. */
  ghost predicate Compared(m: Fsm, cls: seq<nat>, nulls: set<nat>, junk: (nat, nat) -> set<Byte>, l: seq<nat>) {
    && WellFormed(m) && |cls| == |m.states| + 1 && l != []
    && exists n: nat, c: Byte :: MatchedOn(m, cls, Unset(nulls, junk, n), l, c)
  }

  ghost predicate NoSymbols(m: Fsm, s: nat) {
    forall c: Byte :: Step(m, s, c) == |m.states|
  }

  /** At some step the arrays of two states look the same. */
  ghost predicate SometimesSame(nulls: set<nat>, junk: (nat, nat) -> set<Byte>, s: nat, t: nat) {
    exists n: nat :: Blank(nulls, junk, n, s) == Blank(nulls, junk, n, t)
  }

  lemma ComparedSame(m: Fsm, cls: seq<nat>, nulls: set<nat>, junk: (nat, nat) -> set<Byte>, l: seq<nat>, s: nat, t: nat)
    requires Compared(m, cls, nulls, junk, l) && s in l && t in l && NoSymbols(m, s) && NoSymbols(m, t)
    ensures SometimesSame(nulls, junk, s, t)
  {
    var n: nat, c: Byte :| MatchedOn(m, cls, Unset(nulls, junk, n), l, c);
    var u := Unset(nulls, junk, n);
    assert SameSignature(m, cls, u, l[0], s, c) && SameSignature(m, cls, u, l[0], t, c);
    assert SeenLabels(m, cls, u, s, c) == Blank(nulls, junk, n, s);
    assert SeenLabels(m, cls, u, t, c) == Blank(nulls, junk, n, t);
  }

  /** Class `src` was split: those that agree with its first member on `c` stayed,
      the others are now a class of their own at the end. */
  ghost predicate SplitOff(m: Fsm, cls: seq<nat>, u: Unset, c: Byte, before: seq<seq<nat>>, after: seq<seq<nat>>, src: nat)
    requires IsClassMap(m, cls)
  {
    && src < |before| && before[src] != [] && |after| == |before| + 1
    && (forall i :: 0 <= i < |before| && i != src ==> after[i] == before[i])
    && (forall s :: s in before[src] <==> s in after[src] || s in after[|before|])
    && (forall s :: s in after[src] ==> SameSignature(m, cls, u, before[src][0], s, c))
    && (forall s :: s in after[|before|] ==> !SameSignature(m, cls, u, before[src][0], s, c))
  }

  /** A split separates only states that some input tells apart, or what unset arrays hold. */
  lemma RefinedSplit(m: Fsm, cls: seq<nat>, u: Unset, c: Byte, before: seq<seq<nat>>, after: seq<seq<nat>>, src: nat)
    requires IsClassMap(m, cls) && IsPartition(before, |m.states|) && Refined(m, u.nulls, u.junk, before)
    requires Separated(m, u.nulls, u.junk, cls) && AllLive(m) && NullsOf(m, u.nulls)
    requires SplitOff(m, cls, u, c, before, after, src)
    ensures Refined(m, u.nulls, u.junk, after)
  {
    var dst := |before|;
    forall s, t | s in after[src] && t in after[dst]
      ensures !StrictlyEquivalent(m, u.nulls, u.junk, s, t) && !StrictlyEquivalent(m, u.nulls, u.junk, t, s)
    {
      assert s in before[src] && t in before[src];
      MismatchDistinguishes(m, cls, u, s, t, c);
      MismatchDistinguishes(m, cls, u, t, s, c);
    }
    forall i, j, s, t | 0 <= i < |after| && 0 <= j < |after| && s in after[i] && t in after[j]
      ensures i == j ==> Observe(m, s) == Observe(m, t)
      ensures i != j ==> !StrictlyEquivalent(m, u.nulls, u.junk, s, t)
    {
      var i', j' := if i == dst then src else i, if j == dst then src else j;
      assert s in before[i'] && t in before[j'];
    }
  }

  // ----- the result -----

  /** `mapping` gives the states the numbers `0..count`, all of them used. */
  ghost predicate IsNumbering(m: Fsm, mapping: seq<nat>, count: nat) {
    && |mapping| == |m.states|
    && (forall s :: 0 <= s < |mapping| ==> mapping[s] < count)
    && (forall k :: 0 <= k < count ==> k in mapping)
  }

  /** `mapping` merges only equivalent states, and does so consistently: a congruence that
      keeps what a caller observes. */
  ghost predicate IsCongruentMapping(m: Fsm, mapping: seq<nat>, count: nat) {
    && IsNumbering(m, mapping, count)
    && (exists cls :: ExtendsTo(m, mapping, cls))
    && (forall s, t :: 0 <= s < |mapping| && 0 <= t < |mapping| && mapping[s] == mapping[t] ==> Equivalent(m, s, t))
  }

  /** States that cannot be told apart, by words or by unset arrays, are merged. */
  ghost predicate KeepsTogether(m: Fsm, nulls: set<nat>, junk: (nat, nat) -> set<Byte>, mapping: seq<nat>) {
    forall s, t :: 0 <= s < |mapping| && 0 <= t < |mapping| && StrictlyEquivalent(m, nulls, junk, s, t) ==> mapping[s] == mapping[t]
  }

  /** `f` has the same number below `c` only for states of `among` that cannot be told apart so. */
  ghost predicate PartsStrictly(m: Fsm, nulls: set<nat>, junk: (nat, nat) -> set<Byte>, among: set<nat>, f: seq<nat>, c: nat) {
    && (forall s :: s in among ==> s < |f| && f[s] < c)
    && (forall s, t :: s in among && t in among && f[s] == f[t] ==> StrictlyEquivalent(m, nulls, junk, s, t))
  }

  /** The states of `among` fall in at least `n` such classes. */
  ghost predicate AtLeast(m: Fsm, nulls: set<nat>, junk: (nat, nat) -> set<Byte>, among: set<nat>, n: nat) {
    forall f: seq<nat>, c: nat :: PartsStrictly(m, nulls, junk, among, f, c) ==> n <= c
  }

  lemma TogetherIsFew(m: Fsm, nulls: set<nat>, junk: (nat, nat) -> set<Byte>, g: seq<nat>, n: nat)
    requires IsNumbering(m, g, n) && KeepsTogether(m, nulls, junk, g)
    ensures AtLeast(m, nulls, junk, Below(|m.states|), n)
  {
    var ss := FirstStates(m, g, n, n);
    forall f: seq<nat>, c: nat | PartsStrictly(m, nulls, junk, Below(|m.states|), f, c)
      ensures n <= c
    {
      var ids := seq(n, i requires 0 <= i < n && ss[i] < |f| => f[ss[i]]);
      forall i, j | 0 <= i < j < n
        ensures ids[i] != ids[j]
      {
        assert g[ss[i]] != g[ss[j]];
      }
      DistinctBelow(ids, c);
    }
  }

  /** Where unset arrays make no difference, exactly the equivalent states are merged. */
  lemma TogetherIsNerode(m: Fsm, nulls: set<nat>, junk: (nat, nat) -> set<Byte>, g: seq<nat>, n: nat)
    requires WellFormed(m) && AllLive(m) && NullsOf(m, nulls)
    requires IsCongruentMapping(m, g, n) && KeepsTogether(m, nulls, junk, g)
    requires NullsStandAlone(m, nulls) || AllBlank(nulls, junk)
    ensures IsNerodeMapping(m, g, n)
  {
    forall s, t | 0 <= s < |g| && 0 <= t < |g| && Equivalent(m, s, t)
      ensures g[s] == g[t]
    {
      if AllBlank(nulls, junk) {
        BlankIsStrict(m, nulls, junk, s, t);
      } else {
        AloneIsStrict(m, nulls, junk, s, t);
      }
    }
  }

  ghost predicate ExtendsTo(m: Fsm, mapping: seq<nat>, cls: seq<nat>) {
    Congruent(m, cls) && |mapping| == |m.states| && forall s :: 0 <= s < |mapping| ==> mapping[s] == cls[s]
  }

  /** `mapping` numbers the equivalence classes of the states `0..count`, all numbers used. */
  ghost predicate IsNerodeMapping(m: Fsm, mapping: seq<nat>, count: nat) {
    && IsNumbering(m, mapping, count)
    && (forall s, t :: 0 <= s < |mapping| && 0 <= t < |mapping| ==> (mapping[s] == mapping[t] <==> Equivalent(m, s, t)))
  }

  lemma {:induction false} FirstStates(m: Fsm, mapping: seq<nat>, count: nat, k: nat) returns (ss: seq<nat>)
    requires IsNumbering(m, mapping, count) && k <= count
    ensures |ss| == k && forall i :: 0 <= i < k ==> ss[i] < |mapping| && mapping[ss[i]] == i
  {
    if k == 0 {
      ss := [];
    } else {
      var ss0 := FirstStates(m, mapping, count, k - 1);
      assert k - 1 in mapping;
      var s :| 0 <= s < |mapping| && mapping[s] == k - 1;
      ss := ss0 + [s];
    }
  }

  /** A numbering that merges nothing but equivalent states needs at least as many numbers
      as there are equivalence classes. */
  lemma NerodeCountAtMost(m: Fsm, f: seq<nat>, c: nat, g: seq<nat>, d: nat)
    requires IsNerodeMapping(m, f, c) && IsNumbering(m, g, d)
    requires forall s, t :: 0 <= s < |g| && 0 <= t < |g| && g[s] == g[t] ==> Equivalent(m, s, t)
    ensures c <= d
  {
    var ss := FirstStates(m, f, c, c);
    var ids := seq(c, i requires 0 <= i < c => g[ss[i]]);
    forall i, j | 0 <= i < j < c
      ensures ids[i] != ids[j]
    {
      assert f[ss[i]] != f[ss[j]];
    }
    DistinctBelow(ids, d);
  }

  /** If it keeps two equivalent states apart, it needs more. */
  lemma NerodeCountBelow(m: Fsm, f: seq<nat>, c: nat, g: seq<nat>, d: nat, s: nat, t: nat)
    requires IsNerodeMapping(m, f, c) && IsNumbering(m, g, d)
    requires forall s, t :: 0 <= s < |g| && 0 <= t < |g| && g[s] == g[t] ==> Equivalent(m, s, t)
    requires s < |g| && t < |g| && Equivalent(m, s, t) && g[s] != g[t]
    ensures c < d
  {
    var ss := FirstStates(m, f, c, c);
    assert f[s] == f[t] && f[s] < c;
    var other := if g[ss[f[s]]] == g[s] then t else s;
    var ids := seq(c, i requires 0 <= i < c => g[ss[i]]) + [g[other]];
    forall i, j | 0 <= i < j < |ids|
      ensures ids[i] != ids[j]
    {
      if j < c {
        assert f[ss[i]] != f[ss[j]];
      } else if i != f[s] {
        assert f[ss[i]] != f[other];
      }
    }
    DistinctBelow(ids, d);
  }

  /** Any two algorithms that number the equivalence classes agree on which states to merge
      and on how many classes there are. */
  lemma NerodeMappingUnique(m: Fsm, f: seq<nat>, c: nat, g: seq<nat>, d: nat)
    requires IsNerodeMapping(m, f, c) && IsNerodeMapping(m, g, d)
    ensures c == d
    ensures forall s, t :: 0 <= s < |f| && 0 <= t < |f| ==> (f[s] == f[t] <==> g[s] == g[t])
  {
    NerodeCountAtMost(m, f, c, g, d);
    NerodeCountAtMost(m, g, d, f, c);
    forall s, t | 0 <= s < |f| && 0 <= t < |f|
      ensures f[s] == f[t] <==> g[s] == g[t]
    {
      assert f[s] == f[t] <==> Equivalent(m, s, t);
    }
  }
}
