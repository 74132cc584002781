/** The epsilon closure of every state, by a breadth-first walk per state that reuses the
closures already finished. */
module Closure {
  import opened Automata
  import opened Finite
  import opened Guard
  import opened Nfa
  import opened Queue

  /** `cl` is exactly what epsilons reach from `s`. */
  ghost predicate IsClosure(m: Fsm, s: nat, cl: set<nat>) {
    forall t: nat :: t in cl <==> EpsReaches(m, s, t)
  }

  ghost predicate IsClosureAt(m: Fsm, closures: seq<Option<set<nat>>>, s: nat)
    requires s < |closures|
  {
    closures[s].Some? ==> IsClosure(m, s, closures[s].value)
  }

  ghost predicate Finished(m: Fsm, closures: seq<Option<set<nat>>>, but: nat) {
    forall s: nat :: s < |closures| && s != but ==> IsClosureAt(m, closures, s)
  }

  /** The walk from `s`. The visited states are those popped or queued, all of them reachable.
      The popped ones are in the closure so far, and what they lead to is visited; for `p` this
      holds of successors below `e` only. */
  ghost predicate Walking(m: Fsm, s: nat, visited: seq<bool>, queued: seq<nat>, cl: set<nat>, popped: set<nat>, p: nat, e: nat) {
    && |visited| == |m.states| && s < |visited|
    && (forall b {:trigger Look(b)} :: Look(b) ==>
          && (forall t: nat :: t < |visited| ==> (visited[t] <==> t in popped || t in queued))
          && (forall t: nat :: t in popped || t in queued ==> t < |visited| && EpsReaches(m, s, t))
          && Distinct(queued) && (forall t :: t in queued ==> t !in popped)
          && popped <= cl && (forall t :: t in cl ==> EpsReaches(m, s, t))
          && (s in popped || s in queued)
          && (forall u, v: nat :: u in popped && EpsStep(m, u, v) && (u == p ==> v < e) ==> v < |visited| && visited[v]))
  }

  lemma WalkBegins(m: Fsm, s: nat, visited: seq<bool>)
    requires WellFormed(m) && |visited| == |m.states| && s < |visited| && forall t :: 0 <= t < |visited| ==> !visited[t]
    ensures Walking(m, s, visited[s := true], [s], {}, {}, s, |m.states|)
  {
    EpsReflexive(m, s);
  }

  /** Popping `p`, with the closure of `p` taken in if it is known. */
  lemma WalkPop(m: Fsm, s: nat, visited: seq<bool>, p: nat, rest: seq<nat>, cl: set<nat>, popped: set<nat>, more: set<nat>, o: nat)
    requires WellFormed(m) && Walking(m, s, visited, [p] + rest, cl, popped, o, |m.states|)
    requires forall t :: t in more ==> EpsReaches(m, p, t)
    ensures p < |visited| && p !in popped && Walking(m, s, visited, rest, cl + more + {p}, popped + {p}, p, 0)
  {
    assert Look(true);
    var q := [p] + rest;
    assert q[0] == p;
    assert forall i :: 0 <= i < |rest| ==> rest[i] == q[i + 1];
    forall t | t in more
      ensures EpsReaches(m, s, t)
    {
      EpsTransitive(m, s, p, t);
    }
    assert forall t: nat :: t in q <==> t == p || t in rest;
  }

  lemma PoppedBelow(m: Fsm, s: nat, visited: seq<bool>, queued: seq<nat>, cl: set<nat>, popped: set<nat>, p: nat, e: nat)
    requires Walking(m, s, visited, queued, cl, popped, p, e)
    ensures |popped| <= |visited|
  {
    assert Look(true);
    SubsetSize(popped, Below(|visited|));
  }

  /** One epsilon successor of a popped state is queued unless it is visited. There is always
      room for it. */
  lemma WalkPush(m: Fsm, s: nat, visited: seq<bool>, queued: seq<nat>, cl: set<nat>, popped: set<nat>, p: nat, e: nat)
    requires Walking(m, s, visited, queued, cl, popped, p, e) && p in popped && e < |visited|
    ensures EpsStep(m, p, e) && !visited[e] ==>
              |queued| < |visited| && Walking(m, s, visited[e := true], queued + [e], cl, popped, p, e + 1)
    ensures !EpsStep(m, p, e) || visited[e] ==> Walking(m, s, visited, queued, cl, popped, p, e + 1)
  {
    assert Look(true);
    if EpsStep(m, p, e) && !visited[e] {
      EpsExtend(m, s, p, e);
      var q := queued + [e];
      assert forall i :: 0 <= i < |queued| ==> queued[i] in queued;
      DistinctBelow(q, |visited|);
    }
  }

  /** When the queue is empty, the closure is complete. */
  lemma WalkEnds(m: Fsm, s: nat, visited: seq<bool>, cl: set<nat>, popped: set<nat>, p: nat)
    requires WellFormed(m) && Walking(m, s, visited, [], cl, popped, p, |m.states|)
    ensures IsClosure(m, s, cl)
    ensures forall t: nat :: t < |visited| && visited[t] ==> t in cl
  {
    assert Look(true);
    forall t: nat | EpsReaches(m, s, t)
      ensures t in cl
    {
      ClosedHoldsClosure(m, popped, s, t);
    }
  }

  /** Queue the unvisited epsilon successors of `p`. The queue never overflows. */
  method PushSuccessors(m: Fsm, s: nat, p: nat, visited: array<bool>, q: StateQueue, ghost cl: set<nat>, ghost popped: set<nat>)
    requires WellFormed(m) && q.Valid() && q.q.Length == |m.states| && p in popped && p < |m.states|
    requires Walking(m, s, visited[..], q.Contents(), cl, popped, p, 0)
    modifies visited, q, q.q
    ensures q.Valid() && Walking(m, s, visited[..], q.Contents(), cl, popped, p, |m.states|)
  {
    for e := 0 to |m.states|
      invariant q.Valid() && Walking(m, s, visited[..], q.Contents(), cl, popped, p, e)
    {
      WalkPush(m, s, visited[..], q.Contents(), cl, popped, p, e);
      if e in m.states[p].epsilons && !visited[e] {
        var ok := q.Push(e);
        assert ok;
        visited[e] := true;
      }
    }
  }

  method EpsilonClosureSingle(m: Fsm, closures: array<Option<set<nat>>>, s: nat, visited: array<bool>)
    requires WellFormed(m) && closures.Length == visited.Length == |m.states| && s < |m.states|
    requires closures[s].None? && Finished(m, closures[..], s)
    requires forall t :: 0 <= t < visited.Length ==> !visited[t]
    modifies closures, visited
    ensures closures[s].Some? && Finished(m, closures[..], |m.states|)
    ensures forall t :: 0 <= t < closures.Length && t != s ==> closures[t] == old(closures[t])
    ensures forall t :: 0 <= t < visited.Length ==> !visited[t]
  {
    var q := new StateQueue(|m.states|);
    WalkBegins(m, s, visited[..]);
    visited[s] := true;
    ghost var done := closures[..];
    var cl := WalkFrom(m, closures, s, visited, q);
    closures[s] := Some(cl);
    ClearVisited(cl, visited);
    assert forall t: nat :: t < closures.Length && t != s ==> IsClosureAt(m, done, t) && closures[..][t] == done[t];
  }

  /** The states in a closure are unvisited again. */
  method ClearVisited(cl: set<nat>, visited: array<bool>)
    requires forall t: nat :: t < visited.Length && visited[t] ==> t in cl
    modifies visited
    ensures forall t :: 0 <= t < visited.Length ==> !visited[t]
  {
    for t := 0 to visited.Length
      invariant forall u :: 0 <= u < t ==> !visited[u]
      invariant forall u: nat :: u < visited.Length && visited[u] ==> u in cl
    {
      if t in cl {
        visited[t] := false;
      }
    }
  }

  /** Take `p` in, together with its closure if that is known, and queue what it leads to. */
  method Visit(m: Fsm, closures: array<Option<set<nat>>>, s: nat, p: nat, visited: array<bool>, q: StateQueue, cl: set<nat>,
               ghost popped: set<nat>, ghost o: nat)
    returns (cl': set<nat>)
    requires WellFormed(m) && closures.Length == |m.states| && Finished(m, closures[..], s)
    requires q.Valid() && q.q.Length == |m.states|
    requires Walking(m, s, visited[..], [p] + q.Contents(), cl, popped, o, |m.states|)
    modifies visited, q, q.q
    ensures q.Valid() && |popped| < |m.states| && p !in popped && p < |m.states|
    ensures Walking(m, s, visited[..], q.Contents(), cl', popped + {p}, p, |m.states|)
  {
    WalkPop(m, s, visited[..], p, q.Contents(), cl, popped, {}, o);
    var known := if p != s && closures[p].Some? then closures[p].value else {};
    assert p != s ==> IsClosureAt(m, closures[..], p);
    WalkPop(m, s, visited[..], p, q.Contents(), cl, popped, known, o);
    cl' := cl + known + {p};
    PoppedBelow(m, s, visited[..], q.Contents(), cl', popped + {p}, p, 0);
    PushSuccessors(m, s, p, visited, q, cl', popped + {p});
  }

  method WalkFrom(m: Fsm, closures: array<Option<set<nat>>>, s: nat, visited: array<bool>, q: StateQueue) returns (cl: set<nat>)
    requires WellFormed(m) && closures.Length == |m.states| && s < |m.states| && Finished(m, closures[..], s)
    requires q.Valid() && q.q.Length == |m.states| && q.Contents() == []
    requires Walking(m, s, visited[..], [s], {}, {}, s, |m.states|)
    modifies visited, q, q.q
    ensures IsClosure(m, s, cl)
    ensures forall t: nat :: t < visited.Length && visited[t] ==> t in cl
  {
    ghost var popped: set<nat>, last := {}, s;
    var p, more := s, true;
    cl := {};
    assert [p] + q.Contents() == [s];
    while more
      invariant q.Valid()
      invariant Walking(m, s, visited[..], if more then [p] + q.Contents() else [], cl, popped, last, |m.states|)
      decreases |m.states| - |popped|, more
    {
      cl := Visit(m, closures, s, p, visited, q, cl, popped, last);
      popped, last := popped + {p}, p;
      more, p := q.Pop();
    }
    WalkEnds(m, s, visited[..], cl, popped, last);
  }

  /** The closure of every state, whatever cycles there are; the visited flags are left clear. */
  method EpsilonClosure(m: Fsm, visited: array<bool>) returns (closures: array<Option<set<nat>>>)
    requires WellFormed(m) && 0 < |m.states| == visited.Length
    modifies visited
    ensures fresh(closures) && closures.Length == |m.states|
    ensures forall s :: 0 <= s < closures.Length ==> closures[s].Some? && IsClosure(m, s, closures[s].value)
    ensures forall t :: 0 <= t < visited.Length ==> !visited[t]
  {
    closures := new Option<set<nat>>[|m.states|](_ => None);
    for s := 0 to |m.states|
      invariant forall t :: 0 <= t < s ==> !visited[t]
      invariant Finished(m, closures[..], |m.states|)
      invariant forall t :: s <= t < |m.states| ==> closures[t].None?
    {
      visited[s] := false;
      if m.states[s].epsilons == {} {
        OwnClosure(m, s);
        ghost var done := closures[..];
        closures[s] := Some({s});
        assert forall t: nat :: t < closures.Length && t != s ==> IsClosureAt(m, done, t) && closures[..][t] == done[t];
      }
    }
    for s := 0 to |m.states|
      invariant Finished(m, closures[..], |m.states|)
      invariant forall t :: 0 <= t < s ==> closures[t].Some?
      invariant forall t :: 0 <= t < visited.Length ==> !visited[t]
    {
      if closures[s].None? {
        EpsilonClosureSingle(m, closures, s, visited);
      }
    }
    forall s: nat | s < closures.Length
      ensures IsClosure(m, s, closures[s].value)
    {
      assert IsClosureAt(m, closures[..], s);
    }
  }

  lemma OwnClosure(m: Fsm, s: nat)
    requires s < |m.states| && m.states[s].epsilons == {}
    ensures IsClosure(m, s, {s})
  {
    EpsReflexive(m, s);
    forall t: nat | EpsReaches(m, s, t)
      ensures t == s
    {
      ClosedHoldsClosure(m, {s}, s, t);
    }
  }
}
