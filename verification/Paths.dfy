/** State paths through a DFA, the words that spell them, and loop erasure. */
module Paths {
  import opened Automata
  import opened Finite

  /** The symbols on which `u` leads to `v`. */
  function Between(m: Fsm, u: nat, v: nat): (r: set<Byte>) {
    if u < |m.states| then Labels(m.states[u].edges, v) else {}
  }

  function Labels(es: seq<Group>, v: nat): (r: set<Byte>) {
    set i, c | 0 <= i < |es| && es[i].to == v && c in es[i].symbols :: c
  }

  /** Groups are sorted, so the labels to one destination are one group's. */
  lemma LabelsOfGroup(es: seq<Group>, i: nat)
    requires Sorted(es) && i < |es|
    ensures Labels(es, es[i].to) == es[i].symbols
  {
  }

  ghost predicate Joined(m: Fsm, u: nat, v: nat) {
    Between(m, u, v) != {}
  }

  /** The group that joins two states. */
  lemma JoiningGroup(m: Fsm, u: nat, v: nat) returns (i: nat)
    requires WellFormed(m) && Joined(m, u, v)
    ensures u < |m.states| && i < |m.states[u].edges| && v < |m.states|
    ensures m.states[u].edges[i].to == v && m.states[u].edges[i].symbols == Between(m, u, v)
  {
    var es := m.states[u].edges;
    var c :| c in Between(m, u, v);
    i :| 0 <= i < |es| && es[i].to == v && c in es[i].symbols;
    LabelsOfGroup(es, i);
  }

  ghost predicate IsPath(m: Fsm, p: seq<nat>) {
    && p != [] && (forall k :: 0 <= k < |p| ==> p[k] < |m.states|)
    && (forall k :: 0 <= k < |p| - 1 ==> JoinedAt(m, p, k))
  }

  ghost predicate JoinedAt(m: Fsm, p: seq<nat>, k: nat)
    requires k + 1 < |p|
  {
    Joined(m, p[k], p[k + 1])
  }

  ghost predicate Spells(m: Fsm, p: seq<nat>, w: seq<Byte>) {
    |p| == |w| + 1 && forall k :: 0 <= k < |w| ==> SpellsAt(m, p, w, k)
  }

  ghost predicate SpellsAt(m: Fsm, p: seq<nat>, w: seq<Byte>, k: nat)
    requires k < |w| && k + 1 < |p|
  {
    w[k] in Between(m, p[k], p[k + 1])
  }

  lemma BetweenStep(m: Fsm, u: nat, v: nat, c: Byte)
    requires IsDfa(m) && u < |m.states|
    ensures c in Between(m, u, v) <==> Step(m, u, c) == v && v < |m.states|
  {
    var es := m.states[u].edges;
    if c in Between(m, u, v) {
      var i :| 0 <= i < |es| && es[i].to == v && c in es[i].symbols;
      FindIndexUnique(es, c, i);
    }
  }

  /** A word that spells a path runs along it. */
  lemma {:induction false} SpellsRun(m: Fsm, p: seq<nat>, w: seq<Byte>)
    requires IsDfa(m) && IsPath(m, p) && Spells(m, p, w)
    ensures Run(m, p[0], w) == p[|w|]
    decreases |w|
  {
    if w != [] {
      assert SpellsAt(m, p, w, 0);
      BetweenStep(m, p[0], p[1], w[0]);
      assert forall k :: 0 <= k < |w| - 1 ==> SpellsAt(m, p, w, k + 1) ==> SpellsAt(m, p[1..], w[1..], k);
      assert forall k :: 0 <= k < |p| - 2 ==> JoinedAt(m, p, k + 1) ==> JoinedAt(m, p[1..], k);
      SpellsRun(m, p[1..], w[1..]);
    }
  }

  /** A run that does not die leaves a path. */
  lemma {:induction false} RunPath(m: Fsm, s: nat, w: seq<Byte>) returns (p: seq<nat>)
    requires IsDfa(m) && s < |m.states| && Run(m, s, w) < |m.states|
    ensures IsPath(m, p) && Spells(m, p, w) && p[0] == s && p[|w|] == Run(m, s, w)
    decreases |w|
  {
    if w == [] {
      p := [s];
    } else {
      var t := Step(m, s, w[0]);
      if t == |m.states| {
        RunDead(m, w[1..]);
      }
      var q := RunPath(m, t, w[1..]);
      p := [s] + q;
      BetweenStep(m, s, t, w[0]);
      forall k | 0 <= k < |w|
        ensures SpellsAt(m, p, w, k) && JoinedAt(m, p, k)
      {
        if k > 0 {
          assert SpellsAt(m, q, w[1..], k - 1);
        }
      }
    }
  }

  // ----- loop erasure -----

  ghost predicate UsesPair(p: seq<nat>, u: nat, v: nat) {
    exists k :: 0 <= k < |p| - 1 && p[k] == u && p[k + 1] == v
  }

  ghost predicate PairsWithin(q: seq<nat>, p: seq<nat>) {
    forall k :: 0 <= k < |q| - 1 ==> PairUsed(q, k, p)
  }

  ghost predicate PairUsed(q: seq<nat>, k: nat, p: seq<nat>)
    requires k + 1 < |q|
  {
    UsesPair(p, q[k], q[k + 1])
  }

  lemma CutLoop(p: seq<nat>, i: nat, j: nat)
    requires i < j < |p| && p[i] == p[j]
    ensures PairsWithin(p[..i] + p[j..], p)
  {
    var q := p[..i] + p[j..];
    forall k | 0 <= k < |q| - 1
      ensures PairUsed(q, k, p)
    {
      if k + 1 < i {
        assert p[k] == q[k] && p[k + 1] == q[k + 1];
      } else if k + 1 == i {
        assert p[k] == q[k] && p[k + 1] == q[k + 1];
      } else {
        var x := k + j - i;
        assert p[x] == q[k] && p[x + 1] == q[k + 1];
      }
    }
  }

  lemma PairsTrans(r: seq<nat>, q: seq<nat>, p: seq<nat>)
    requires PairsWithin(r, q) && PairsWithin(q, p)
    ensures PairsWithin(r, p)
  {
    forall k | 0 <= k < |r| - 1
      ensures PairUsed(r, k, p)
    {
      assert PairUsed(r, k, q);
      var l :| 0 <= l < |q| - 1 && q[l] == r[k] && q[l + 1] == r[k + 1];
      assert PairUsed(q, l, p);
    }
  }

  lemma PairsJoined(m: Fsm, q: seq<nat>, p: seq<nat>)
    requires IsPath(m, p) && PairsWithin(q, p)
    ensures forall k :: 0 <= k < |q| - 1 ==> JoinedAt(m, q, k)
  {
    forall k | 0 <= k < |q| - 1
      ensures JoinedAt(m, q, k)
    {
      assert PairUsed(q, k, p);
      var l :| 0 <= l < |p| - 1 && p[l] == q[k] && p[l + 1] == q[k + 1];
      assert JoinedAt(m, p, l);
    }
  }

  /** Every path contains a simple one with the same ends that takes only its steps. */
  lemma {:induction false} EraseLoops(m: Fsm, p: seq<nat>) returns (q: seq<nat>)
    requires IsPath(m, p)
    ensures IsPath(m, q) && Distinct(q) && q[0] == p[0] && q[|q| - 1] == p[|p| - 1]
    ensures PairsWithin(q, p)
    decreases |p|
  {
    if Distinct(p) {
      q := p;
      forall k | 0 <= k < |q| - 1
        ensures PairUsed(q, k, p)
      {
        assert p[k] == q[k];
      }
    } else {
      var i, j :| 0 <= i < j < |p| && p[i] == p[j];
      var r := p[..i] + p[j..];
      CutLoop(p, i, j);
      PairsJoined(m, r, p);
      q := EraseLoops(m, r);
      PairsTrans(q, r, p);
    }
  }

  // ----- symbols a path cannot avoid -----

  /** Every path is spelled by some word. */
  lemma {:induction false} AnyWord(m: Fsm, p: seq<nat>) returns (w: seq<Byte>)
    requires IsPath(m, p)
    ensures Spells(m, p, w)
    decreases |p|
  {
    if |p| == 1 {
      w := [];
    } else {
      var l := |p| - 2;
      var q := p[..l + 1];
      assert forall k :: 0 <= k < l ==> JoinedAt(m, p, k) ==> JoinedAt(m, q, k);
      var v := AnyWord(m, q);
      assert JoinedAt(m, p, l);
      var b :| b in Between(m, p[l], p[l + 1]);
      w := v + [b];
      forall k | 0 <= k < |w|
        ensures SpellsAt(m, p, w, k)
      {
        if k < l {
          assert SpellsAt(m, q, v, k);
        }
      }
    }
  }

  /** Some step of `p` can only be taken with `c`. */
  ghost predicate Needs(m: Fsm, p: seq<nat>, c: Byte) {
    exists k :: 0 <= k < |p| - 1 && OnlyAt(m, p, k, c)
  }

  ghost predicate OnlyAt(m: Fsm, p: seq<nat>, k: nat, c: Byte)
    requires k + 1 < |p|
  {
    Between(m, p[k], p[k + 1]) == {c}
  }

  /** What a loop-free part of a path needs, the word of the whole path has. */
  lemma NeededOccurs(m: Fsm, p: seq<nat>, w: seq<Byte>, q: seq<nat>, c: Byte)
    requires Spells(m, p, w) && PairsWithin(q, p) && Needs(m, q, c)
    ensures c in w
  {
    var k :| 0 <= k < |q| - 1 && OnlyAt(m, q, k, c);
    assert PairUsed(q, k, p);
    var l :| 0 <= l < |p| - 1 && p[l] == q[k] && p[l + 1] == q[k + 1];
    assert SpellsAt(m, p, w, l);
    assert w[l] == c;
  }

  /** A path that does not need `c` is spelled by a word without it. */
  lemma {:induction false} AvoidingWord(m: Fsm, p: seq<nat>, c: Byte) returns (w: seq<Byte>)
    requires IsPath(m, p) && !Needs(m, p, c)
    ensures Spells(m, p, w) && c !in w
    decreases |p|
  {
    if |p| == 1 {
      w := [];
    } else {
      var l := |p| - 2;
      var q := p[..l + 1];
      assert forall k :: 0 <= k < l ==> JoinedAt(m, p, k) ==> JoinedAt(m, q, k);
      assert forall k :: 0 <= k < l ==> OnlyAt(m, q, k, c) ==> OnlyAt(m, p, k, c);
      var v := AvoidingWord(m, q, c);
      assert JoinedAt(m, p, l) && !OnlyAt(m, p, l, c);
      var b := OtherThan(Between(m, p[l], p[l + 1]), c);
      w := v + [b];
      forall k | 0 <= k < |w|
        ensures SpellsAt(m, p, w, k)
      {
        if k < l {
          assert SpellsAt(m, q, v, k);
        }
      }
    }
  }

  lemma OtherThan(s: set<Byte>, c: Byte) returns (b: Byte)
    requires s != {} && s != {c}
    ensures b in s && b != c
  {
    var a :| a in s;
    assert a == c ==> exists d :: d in s && d !in {c};
    b :| b in s && b != c;
  }

  // ----- going through the groups of a state -----

  /** Some group from `next` on leads to `v`. */
  ghost predicate Untried(es: seq<Group>, next: nat, v: nat) {
    exists g :: next <= g < |es| && es[g].to == v && es[g].symbols != {}
  }

  ghost predicate NoEdges(es: seq<Group>, i: nat, j: nat) {
    j <= |es| && forall g :: i <= g < j ==> es[g].symbols == {}
  }

  /** Untried groups before and after taking group `j`. */
  lemma UntriedStep(es: seq<Group>, i: nat, j: nat)
    requires i <= j < |es| && NoEdges(es, i, j) && es[j].symbols != {}
    ensures forall v :: Untried(es, i, v) <==> Untried(es, j + 1, v) || v == es[j].to
  {
    forall v
      ensures Untried(es, i, v) <==> Untried(es, j + 1, v) || v == es[j].to
    {
      if Untried(es, i, v) {
        var g :| i <= g < |es| && es[g].to == v && es[g].symbols != {};
        assert g >= j;
      }
      if Untried(es, j + 1, v) {
        var g :| j + 1 <= g < |es| && es[g].to == v && es[g].symbols != {};
      }
    }
  }

  /** An upper bound on the number of groups of any state. */
  function MaxGroups(states: seq<State>): (n: nat)
    ensures forall s :: 0 <= s < |states| ==> |states[s].edges| <= n
  {
    if states == [] then 0
    else
      var t := |states| - 1;
      var n := MaxGroups(states[..t]);
      if |states[t].edges| > n then |states[t].edges| else n
  }

  /** The next group with a symbol, from `i` on. */
  method NextGroup(es: seq<Group>, i: nat) returns (found: bool, j: nat)
    requires i <= |es|
    ensures i <= j <= |es| && NoEdges(es, i, j)
    ensures found <==> j < |es|
    ensures found ==> es[j].symbols != {}
  {
    j := i;
    while j < |es| && es[j].symbols == {}
      invariant i <= j <= |es| && NoEdges(es, i, j)
    {
      j := j + 1;
    }
    found := j < |es|;
  }

  /** The index of the first group with a symbol, from `i` on. */
  function FirstGroup(es: seq<Group>, i: nat): (j: nat)
    requires i <= |es|
    ensures i <= j <= |es| && NoEdges(es, i, j) && (j < |es| ==> es[j].symbols != {})
    decreases |es| - i
  {
    if i == |es| || es[i].symbols != {} then i else FirstGroup(es, i + 1)
  }

  lemma PrefixPath(m: Fsm, q: seq<nat>, k: nat)
    requires IsPath(m, q) && k < |q|
    ensures IsPath(m, q[..k + 1])
  {
    var r := q[..k + 1];
    forall i | 0 <= i < |r| - 1
      ensures JoinedAt(m, r, i)
    {
      assert JoinedAt(m, q, i);
    }
  }

  lemma SuffixPath(m: Fsm, q: seq<nat>, k: nat)
    requires IsPath(m, q) && k < |q|
    ensures IsPath(m, q[k..])
  {
    var r := q[k..];
    forall i | 0 <= i < |r| - 1
      ensures JoinedAt(m, r, i)
    {
      assert JoinedAt(m, q, k + i);
    }
  }

  /** The rest of a path leads to its last state. */
  lemma RestLeads(m: Fsm, q: seq<nat>, k: nat) returns (w: seq<Byte>)
    requires IsDfa(m) && IsPath(m, q) && k < |q|
    ensures |w| == |q| - 1 - k && Run(m, q[k], w) == q[|q| - 1]
  {
    SuffixPath(m, q, k);
    w := AnyWord(m, q[k..]);
    SpellsRun(m, q[k..], w);
  }

  /** The path so far leads to state `k` of it. */
  lemma PathLeads(m: Fsm, q: seq<nat>, k: nat) returns (w: seq<Byte>)
    requires IsDfa(m) && IsPath(m, q) && k < |q|
    ensures |w| == k && Run(m, q[0], w) == q[k]
  {
    PrefixPath(m, q, k);
    w := AnyWord(m, q[..k + 1]);
    SpellsRun(m, q[..k + 1], w);
  }
}
