/** Trimming a DFA: a walk from the start collects the edges and the end states, and a second
walk, against the edges and breadth first from the ends, marks the states that reach an end and
measures how far they are from one. The other states are removed. */
module Trim {
  import opened Automata
  import opened Finite
  import opened Guard
  import opened Paths
  import opened Queue
  import opened Refinement
  import opened Minimality
  import opened InitialClasses
  import opened EdgeSets
  import opened ReverseIndex

  const NO_END_DISTANCE: int := -1

  /** An end can be reached from `s`. */
  ghost predicate Live(m: Fsm, s: nat) {
    exists k: nat :: IsEndDistance(m, s, k)
  }

  /** Where some word leads to an end, there is a shortest one. */
  lemma {:induction false} HasDistance(m: Fsm, s: nat, w: seq<Byte>) returns (k: nat)
    requires Observe(m, Run(m, s, w)).Some?
    ensures k <= |w| && IsEndDistance(m, s, k)
    decreases |w|
  {
    if v: seq<Byte> :| |v| < |w| && Observe(m, Run(m, s, v)).Some? {
      k := HasDistance(m, s, v);
    } else {
      k := |w|;
    }
  }

  /** An edge brings an end nearer by one step at most. */
  lemma JoinedDistance(m: Fsm, u: nat, v: nat, k: nat) returns (j: nat)
    requires IsDfa(m) && u < |m.states| && Joined(m, u, v) && IsEndDistance(m, v, k)
    ensures j <= k + 1 && IsEndDistance(m, u, j)
  {
    var c :| c in Between(m, u, v);
    BetweenStep(m, u, v, c);
    var w: seq<Byte> :| |w| == k && Observe(m, Run(m, v, w)).Some?;
    var cw := [c] + w;
    assert cw[0] == c && cw[1..] == w;
    j := HasDistance(m, u, cw);
  }

  /** From a state at distance `k > 0`, some edge leads to one at distance `k - 1`. */
  lemma CloserNeighbour(m: Fsm, s: nat, k: nat) returns (t: nat)
    requires IsDfa(m) && s < |m.states| && IsEndDistance(m, s, k) && k > 0
    ensures t < |m.states| && Joined(m, s, t) && IsEndDistance(m, t, k - 1)
  {
    var c := NextCloser(m, s, k);
    t := Step(m, s, c);
    if t == |m.states| {
      DeadNotLive(m, k - 1);
    }
    BetweenStep(m, s, t, c);
  }

  lemma DeadNotLive(m: Fsm, k: nat)
    ensures !IsEndDistance(m, |m.states|, k)
  {
    forall w: seq<Byte>
      ensures Observe(m, Run(m, |m.states|, w)).None?
    {
      RunDead(m, w);
    }
  }

  // ----- reachable states -----

  lemma ReachableJoined(m: Fsm, u: nat, v: nat)
    requires IsDfa(m) && u < |m.states| && IsReachable(m, u) && Joined(m, u, v)
    ensures v < |m.states| && IsReachable(m, v)
  {
    var c :| c in Between(m, u, v);
    BetweenStep(m, u, v, c);
    var w: seq<Byte> :| ReachedOn(m, u, w);
    RunConcat(m, m.start.value, w, [c]);
    assert Run(m, u, [c]) == v by {
      assert [c][1..] == [];
    }
    assert ReachedOn(m, v, w + [c]);
  }

  /** A set that holds the start and is closed under edges holds all reachable states. */
  lemma {:induction false} ClosedUnderJoined(m: Fsm, x: set<nat>, s: nat, w: seq<Byte>)
    requires IsDfa(m) && s in x && s < |m.states|
    requires forall u, v: nat :: u in x && Joined(m, u, v) ==> v in x
    ensures Run(m, s, w) < |m.states| ==> Run(m, s, w) in x
    decreases |w|
  {
    if w != [] {
      var t := Step(m, s, w[0]);
      if t < |m.states| {
        BetweenStep(m, s, t, w[0]);
        assert Joined(m, s, t);
        ClosedUnderJoined(m, x, t, w[1..]);
      } else {
        RunDead(m, w[1..]);
      }
    }
  }

  // ----- the walk from the start -----

  /** Some group of `u` before index `e` leads to `v`. */
  ghost predicate JoinedBefore(m: Fsm, u: nat, v: nat, e: nat) {
    && u < |m.states|
    && (exists g :: 0 <= g < e && g < |m.states[u].edges| && m.states[u].edges[g].to == v && m.states[u].edges[g].symbols != {})
  }

  lemma JoinedBeforeAll(m: Fsm, u: nat, v: nat)
    requires WellFormed(m) && u < |m.states|
    ensures Joined(m, u, v) <==> JoinedBefore(m, u, v, |m.states[u].edges|)
  {
    var es := m.states[u].edges;
    if Joined(m, u, v) {
      var i := JoiningGroup(m, u, v);
    }
    if JoinedBefore(m, u, v, |es|) {
      var g :| 0 <= g < |es| && es[g].to == v && es[g].symbols != {};
      LabelsOfGroup(es, g);
    }
  }

  /** The edges followed so far: all those of the popped states, and those of `p` before `e`. */
  ghost predicate Followed(m: Fsm, popped: set<nat>, p: nat, e: nat, u: nat, v: nat) {
    u in popped && u < |m.states| && JoinedBefore(m, u, v, if u == p then e else |m.states[u].edges|)
  }

  /** The visited states are those popped or queued. */
  ghost predicate Tracked(n: nat, visited: seq<bool>, queued: seq<nat>, popped: set<nat>) {
    && |visited| == n
    && (forall b {:trigger Look(b)} :: Look(b) ==>
          && (forall t: nat :: t < n ==> (visited[t] <==> t in popped || t in queued))
          && (forall t: nat :: t in popped || t in queued ==> t < n)
          && Distinct(queued) && (forall t :: t in queued ==> t !in popped))
  }

  lemma TrackedPop(n: nat, visited: seq<bool>, p: nat, rest: seq<nat>, popped: set<nat>)
    requires Tracked(n, visited, [p] + rest, popped)
    ensures p < n && visited[p] && p !in popped && Tracked(n, visited, rest, popped + {p})
  {
    assert Look(true);
    var q := [p] + rest;
    assert q[0] == p && p in q;
    assert forall i :: 0 <= i < |rest| ==> rest[i] == q[i + 1];
    assert forall t: nat :: t in q <==> t == p || t in rest;
  }

  /** There is always room in the queue for an unvisited state. */
  lemma TrackedPush(n: nat, visited: seq<bool>, queued: seq<nat>, popped: set<nat>, v: nat)
    requires Tracked(n, visited, queued, popped) && v < n && !visited[v]
    ensures |queued| < n && v !in queued && Tracked(n, visited[v := true], queued + [v], popped)
  {
    assert Look(true);
    var q := queued + [v];
    assert forall i :: 0 <= i < |queued| ==> queued[i] in queued;
    DistinctBelow(q, n);
  }

  lemma TrackedSize(n: nat, visited: seq<bool>, queued: seq<nat>, popped: set<nat>)
    requires Tracked(n, visited, queued, popped)
    ensures |popped| <= n
  {
    assert Look(true);
    SubsetSize(popped, Below(n));
  }

  /** Only reachable states are visited, and the start is. */
  ghost predicate OnlyReachable(m: Fsm, visited: seq<bool>) {
    && |visited| == |m.states| && m.start.Some? && m.start.value < |m.states|
    && (forall b {:trigger Look(b)} :: Look(b) ==>
          visited[m.start.value] && forall t: nat :: t < |visited| && visited[t] ==> IsReachable(m, t))
  }

  /** The edges noted are those followed, and the ends noted are those popped. */
  ghost predicate Noted(m: Fsm, visited: seq<bool>, popped: set<nat>, edges: seq<Edge>, ends: seq<nat>, p: nat, e: nat) {
    forall b {:trigger Look(b)} :: Look(b) ==>
      && (forall u: nat, v: nat :: Followed(m, popped, p, e, u, v) ==> v < |visited| && visited[v])
      && (forall u: nat, v: nat :: Edge(u, v) in edges <==> Followed(m, popped, p, e, u, v))
      && Distinct(ends) && (forall t :: t in ends <==> t in popped && t < |m.states| && m.states[t].end)
  }

  /** The forward walk, with the groups of `p` before `e` followed. */
  ghost predicate Walking(m: Fsm, visited: seq<bool>, queued: seq<nat>, popped: set<nat>, edges: seq<Edge>, ends: seq<nat>,
                          p: nat, e: nat)
  {
    Tracked(|m.states|, visited, queued, popped) && OnlyReachable(m, visited) && Noted(m, visited, popped, edges, ends, p, e)
  }

  lemma WalkBegins(m: Fsm, visited: seq<bool>)
    requires WellFormed(m) && m.start.Some? && |visited| == |m.states| && forall t :: 0 <= t < |visited| ==> !visited[t]
    ensures Walking(m, visited[m.start.value := true], [m.start.value], {}, [], [], 0, 0)
  {
    var w: seq<Byte> := [];
    assert ReachedOn(m, m.start.value, w);
  }

  lemma NotedPop(m: Fsm, visited: seq<bool>, popped: set<nat>, edges: seq<Edge>, ends: seq<nat>, o: nat, p: nat)
    requires Noted(m, visited, popped, edges, ends, o, if o < |m.states| then |m.states[o].edges| else 0)
    requires p < |m.states| && p !in popped
    ensures Noted(m, visited, popped + {p}, edges, if m.states[p].end then ends + [p] else ends, p, 0)
  {
    assert Look(true);
    var full := if o < |m.states| then |m.states[o].edges| else 0;
    forall u: nat, v: nat
      ensures Followed(m, popped + {p}, p, 0, u, v) <==> Followed(m, popped, o, full, u, v)
    {
    }
  }

  lemma NotedFollow(m: Fsm, visited: seq<bool>, visited': seq<bool>, popped: set<nat>, edges: seq<Edge>, ends: seq<nat>, p: nat,
                    e: nat, edges': seq<Edge>, e': nat)
    requires Noted(m, visited, popped, edges, ends, p, e) && p in popped && p < |m.states| && e < |m.states[p].edges| && e' == e + 1
    requires |visited'| == |visited| && forall t :: 0 <= t < |visited| && visited[t] ==> visited'[t]
    requires var g := m.states[p].edges[e]; g.symbols != {} ==> g.to < |visited'| && visited'[g.to]
    requires edges' == if m.states[p].edges[e].symbols != {} then edges + [Edge(p, m.states[p].edges[e].to)] else edges
    ensures Noted(m, visited', popped, edges', ends, p, e')
  {
    assert Look(true);
    var g := m.states[p].edges[e];
    EdgesMore(edges, Edge(p, g.to));
    forall u: nat, v: nat
      ensures Followed(m, popped, p, e', u, v) ==> v < |visited'| && visited'[v]
      ensures Edge(u, v) in edges' <==> Followed(m, popped, p, e', u, v)
    {
      FollowedMore(m, popped, p, e, u, v);
      assert Followed(m, popped, p, e, u, v) ==> v < |visited| && visited[v];
      assert Edge(u, v) in edges <==> Followed(m, popped, p, e, u, v);
    }
  }

  lemma WalkReaches(m: Fsm, visited: seq<bool>, p: nat, e: nat)
    requires IsDfa(m) && OnlyReachable(m, visited) && p < |m.states| && visited[p] && e < |m.states[p].edges|
    requires m.states[p].edges[e].symbols != {}
    ensures var v := m.states[p].edges[e].to; v < |m.states| && OnlyReachable(m, visited[v := true])
  {
    assert Look(true);
    LabelsOfGroup(m.states[p].edges, e);
    ReachableJoined(m, p, m.states[p].edges[e].to);
  }

  lemma EdgesMore(edges: seq<Edge>, x: Edge)
    ensures forall y :: y in edges + [x] <==> y in edges || y == x
  {
  }

  lemma FollowedMore(m: Fsm, popped: set<nat>, p: nat, e: nat, u: nat, v: nat)
    requires p in popped && p < |m.states| && e < |m.states[p].edges|
    ensures var g := m.states[p].edges[e];
            Followed(m, popped, p, e + 1, u, v) <==>
            Followed(m, popped, p, e, u, v) || (u == p && v == g.to && g.symbols != {})
  {
    var es := m.states[p].edges;
    if u == p && JoinedBefore(m, p, v, e) {
      var k :| 0 <= k < e && es[k].to == v && es[k].symbols != {};
      assert k < e + 1;
    }
  }

  /** What the walk is for: exactly the reachable states, the edges between them, and the ends
      among them. */
  ghost predicate Collected(m: Fsm, reached: set<nat>, edges: seq<Edge>, ends: seq<nat>) {
    forall b {:trigger Look(b)} :: Look(b) ==>
      && (forall s: nat :: s in reached <==> s < |m.states| && IsReachable(m, s))
      && (forall u: nat, v: nat :: Edge(u, v) in edges <==> u in reached && Joined(m, u, v))
      && Distinct(ends) && (forall t :: t in ends <==> t in reached && t < |m.states| && m.states[t].end)
  }

  lemma CollectedEdge(m: Fsm, reached: set<nat>, edges: seq<Edge>, ends: seq<nat>, u: nat, v: nat)
    requires Collected(m, reached, edges, ends)
    ensures u in reached <==> u < |m.states| && IsReachable(m, u)
    ensures Edge(u, v) in edges <==> u in reached && Joined(m, u, v)
  {
    assert Look(true);
  }

  lemma CollectedEnds(m: Fsm, reached: set<nat>, edges: seq<Edge>, ends: seq<nat>)
    requires Collected(m, reached, edges, ends)
    ensures Distinct(ends) && (forall t :: t in ends <==> t in reached && t < |m.states| && m.states[t].end)
  {
    assert Look(true);
  }

  lemma WalkEnds(m: Fsm, visited: seq<bool>, popped: set<nat>, edges: seq<Edge>, ends: seq<nat>, p: nat)
    requires IsDfa(m) && Walking(m, visited, [], popped, edges, ends, p, if p < |m.states| then |m.states[p].edges| else 0)
    ensures Collected(m, popped, edges, ends)
  {
    assert Look(true);
    var full := if p < |m.states| then |m.states[p].edges| else 0;
    forall u: nat, v: nat
      ensures Followed(m, popped, p, full, u, v) <==> u in popped && Joined(m, u, v)
    {
      if u in popped {
        JoinedBeforeAll(m, u, v);
      }
    }
    forall s: nat | s < |m.states| && IsReachable(m, s)
      ensures s in popped
    {
      var w: seq<Byte> :| ReachedOn(m, s, w);
      ClosedUnderJoined(m, popped, m.start.value, w);
    }
  }

  /** Follow the groups of `p`. */
  method FollowGroups(m: Fsm, visited: array<bool>, q: StateQueue, edges0: seq<Edge>, p: nat,
                      ghost popped: set<nat>, ghost ends: seq<nat>)
    returns (edges: seq<Edge>)
    requires IsDfa(m) && q.Valid() && q.q.Length == |m.states| && p in popped && p < |m.states|
    requires Walking(m, visited[..], q.Contents(), popped, edges0, ends, p, 0) && visited[p]
    modifies visited, q, q.q
    ensures q.Valid() && Walking(m, visited[..], q.Contents(), popped, edges, ends, p, |m.states[p].edges|)
  {
    var es := m.states[p].edges;
    edges := edges0;
    for e := 0 to |es|
      invariant q.Valid() && Walking(m, visited[..], q.Contents(), popped, edges, ends, p, e) && visited[p]
    {
      ghost var before := visited[..];
      if es[e].symbols != {} {
        var next := es[e].to;
        WalkReaches(m, visited[..], p, e);
        if !visited[next] {
          TrackedPush(|m.states|, visited[..], q.Contents(), popped, next);
          var ok := q.Push(next);
          assert ok;
          visited[next] := true;
        }
      }
      ghost var noted := edges;
      if es[e].symbols != {} {
        edges := edges + [Edge(p, es[e].to)];
      }
      NotedFollow(m, before, visited[..], popped, noted, ends, p, e, edges, e + 1);
    }
  }

  method WalkFromStart(m: Fsm, visited: array<bool>, q: StateQueue) returns (edges: seq<Edge>, ends: seq<nat>, ghost reached: set<nat>)
    requires IsDfa(m) && m.start.Some? && visited.Length == |m.states| && forall t :: 0 <= t < visited.Length ==> !visited[t]
    requires q.Valid() && q.q.Length == |m.states| && q.Contents() == []
    modifies visited, q, q.q
    ensures Collected(m, reached, edges, ends) && q.Valid() && q.Contents() == []
  {
    WalkBegins(m, visited[..]);
    visited[m.start.value] := true;
    var ok := q.Push(m.start.value);
    ghost var last: nat := |m.states|;
    edges, ends, reached := [], [], {};
    NothingFollowed(m, visited[..], q.Contents());
    var more, p := q.Pop();
    assert more ==> [p] + q.Contents() == [m.start.value];
    while more
      invariant q.Valid()
      invariant Walking(m, visited[..], if more then [p] + q.Contents() else [], reached, edges, ends, last,
                        if last < |m.states| then |m.states[last].edges| else 0)
      invariant !more ==> q.Contents() == []
      invariant |reached| <= |m.states|
      decreases |m.states| - |reached|, more
    {
      TrackedPop(|m.states|, visited[..], p, q.Contents(), reached);
      NotedPop(m, visited[..], reached, edges, ends, last, p);
      if m.states[p].end {
        ends := ends + [p];
      }
      reached := reached + {p};
      TrackedSize(|m.states|, visited[..], q.Contents(), reached);
      edges := FollowGroups(m, visited, q, edges, p, reached, ends);
      last := p;
      more, p := q.Pop();
    }
    WalkEnds(m, visited[..], reached, edges, ends, last);
  }

  lemma NothingFollowed(m: Fsm, visited: seq<bool>, queued: seq<nat>)
    requires Walking(m, visited, queued, {}, [], [], 0, 0)
    ensures Walking(m, visited, queued, {}, [], [], |m.states|, 0)
  {
    assert Look(true);
  }

  // ----- the walk from the ends -----

  /** The visited states have their exact distances; the others have none. */
  ghost predicate Exactly(m: Fsm, reached: set<nat>, visited: seq<bool>, sed: seq<int>) {
    && |visited| == |sed| == |m.states|
    && (forall b {:trigger Look(b)} :: Look(b) ==>
          forall t: nat :: t < |visited| ==>
            if visited[t] then t in reached && ExactFor(m, sed, t) else sed[t] == NO_END_DISTANCE)
  }

  ghost predicate Measured(m: Fsm, reached: set<nat>, visited: seq<bool>, sed: seq<int>, queued: seq<nat>, popped: set<nat>) {
    Tracked(|m.states|, visited, queued, popped) && Exactly(m, reached, visited, sed)
  }

  ghost predicate IsFar(m: Fsm, v: nat, d: nat) {
    forall b {:trigger Look(b)} :: Look(b) ==> IsEndDistance(m, v, d)
  }

  ghost predicate ExactFor(m: Fsm, sed: seq<int>, t: nat)
    requires t < |sed|
  {
    sed[t] >= 0 && IsEndDistance(m, t, sed[t])
  }

  ghost predicate EndsVisited(m: Fsm, reached: set<nat>, visited: seq<bool>) {
    forall t: nat :: t in reached && t < |m.states| && m.states[t].end ==> t < |visited| && visited[t]
  }

  /** The queue is in order of distance, none less than `lo` or more than one beyond it. */
  ghost predicate InOrder(sed: seq<int>, queued: seq<nat>, lo: int) {
    && (forall i :: 0 <= i < |queued| ==> queued[i] < |sed| && lo <= sed[queued[i]] <= lo + 1)
    && (forall i, j :: 0 <= i < j < |queued| ==> sed[queued[i]] <= sed[queued[j]])
  }

  /** All edges to popped states come from visited ones; those to `s`, up to index `k`. */
  ghost predicate Complete(edges: seq<Edge>, visited: seq<bool>, popped: set<nat>, s: nat, k: nat) {
    forall i :: 0 <= i < |edges| ==> CompleteAt(edges, visited, popped, s, k, i)
  }

  ghost predicate CompleteAt(edges: seq<Edge>, visited: seq<bool>, popped: set<nat>, s: nat, k: nat, i: nat)
    requires i < |edges|
  {
    edges[i].to in popped && (edges[i].to == s ==> i < k) ==> edges[i].from < |visited| && visited[edges[i].from]
  }

  /** All states no further from an end than `s` have been visited when `s` is being looked at. */
  lemma {:induction false} CloserVisited(m: Fsm, reached: set<nat>, edges: seq<Edge>, ends: seq<nat>, visited: seq<bool>,
                                         sed: seq<int>, queued: seq<nat>, popped: set<nat>, s: nat, k: nat, v: nat, d: nat)
    requires IsDfa(m) && Collected(m, reached, edges, ends) && Measured(m, reached, visited, sed, queued, popped)
    requires EndsVisited(m, reached, visited) && Complete(edges, visited, popped, s, k)
    requires s < |sed| && InOrder(sed, queued, sed[s])
    requires v in reached && IsEndDistance(m, v, d) && d <= sed[s]
    ensures v < |visited| && visited[v]
    decreases d
  {
    CollectedEdge(m, reached, edges, ends, v, v);
    if d == 0 {
      DistanceZero(m, v, 0);
    } else {
      var u := CloserNeighbour(m, v, d);
      ReachableJoined(m, v, u);
      CollectedEdge(m, reached, edges, ends, u, v);
      CollectedEdge(m, reached, edges, ends, v, u);
      CloserVisited(m, reached, edges, ends, visited, sed, queued, popped, s, k, u, d - 1);
      ExactAtVisited(m, reached, visited, sed, u);
      DistanceUnique(m, u, d - 1, sed[u]);
      CloserPopped(|m.states|, visited, sed, queued, popped, s, u);
      var i :| 0 <= i < |edges| && edges[i] == Edge(v, u);
      assert CompleteAt(edges, visited, popped, s, k, i);
    }
  }

  /** A visited state nearer than all that is queued has been popped. */
  lemma CloserPopped(n: nat, visited: seq<bool>, sed: seq<int>, queued: seq<nat>, popped: set<nat>, s: nat, u: nat)
    requires Tracked(n, visited, queued, popped) && |sed| == n && s < n && u < n
    requires InOrder(sed, queued, sed[s]) && visited[u] && sed[u] < sed[s]
    ensures u in popped
  {
    assert Look(true);
    if u in queued {
      QueuedFar(sed, queued, sed[s], u);
    }
  }

  lemma QueuedFar(sed: seq<int>, queued: seq<nat>, lo: int, u: nat)
    requires InOrder(sed, queued, lo) && u in queued
    ensures u < |sed| && sed[u] >= lo
  {
    var i :| 0 <= i < |queued| && queued[i] == u;
  }

  /** So an unvisited state with an edge to `s` is exactly one step further. */
  lemma OneFurther(m: Fsm, reached: set<nat>, edges: seq<Edge>, ends: seq<nat>, visited: seq<bool>,
                   sed: seq<int>, queued: seq<nat>, popped: set<nat>, s: nat, k: nat, v: nat)
    requires IsDfa(m) && Collected(m, reached, edges, ends) && Measured(m, reached, visited, sed, queued, popped)
    requires EndsVisited(m, reached, visited) && Complete(edges, visited, popped, s, k)
    requires s < |sed| && ExactFor(m, sed, s) && InOrder(sed, queued, sed[s])
    requires Edge(v, s) in edges
    ensures v in reached && v < |visited|
    ensures !visited[v] ==> IsEndDistance(m, v, sed[s] + 1)
    ensures visited[v] && sed[s] < sed[v] ==> sed[v] == sed[s] + 1
    ensures visited[v] ==> sed[v] != NO_END_DISTANCE
  {
    CollectedEdge(m, reached, edges, ends, v, s);
    var j := JoinedDistance(m, v, s, sed[s]);
    ExactAtVisited(m, reached, visited, sed, v);
    if visited[v] {
      DistanceUnique(m, v, j, sed[v]);
    } else if j <= sed[s] {
      CloserVisited(m, reached, edges, ends, visited, sed, queued, popped, s, k, v, j);
    }
  }

  lemma ExactMore(m: Fsm, reached: set<nat>, visited: seq<bool>, sed: seq<int>, v: nat, d: nat)
    requires Exactly(m, reached, visited, sed) && v < |m.states| && v in reached && IsEndDistance(m, v, d)
    ensures Exactly(m, reached, visited[v := true], sed[v := d])
  {
    assert Look(true);
    forall t: nat | t < |visited| && t != v && visited[t]
      ensures ExactFor(m, sed[v := d], t)
    {
      assert ExactFor(m, sed, t);
    }
  }

  lemma ExactAtVisited(m: Fsm, reached: set<nat>, visited: seq<bool>, sed: seq<int>, t: nat)
    requires Exactly(m, reached, visited, sed) && t < |visited|
    ensures if visited[t] then t in reached && ExactFor(m, sed, t) else sed[t] == NO_END_DISTANCE
  {
    assert Look(true);
  }

  lemma OrderPop(sed: seq<int>, s: nat, rest: seq<nat>, lo: int)
    requires InOrder(sed, [s] + rest, lo)
    ensures s < |sed| && InOrder(sed, rest, sed[s])
  {
    var q := [s] + rest;
    assert q[0] == s;
    assert forall i :: 0 <= i < |rest| ==> rest[i] == q[i + 1];
  }

  lemma OrderPush(sed: seq<int>, queued: seq<nat>, lo: int, v: nat)
    requires InOrder(sed, queued, lo) && v < |sed| && v !in queued
    ensures InOrder(sed[v := lo + 1], queued + [v], lo)
  {
    assert forall i :: 0 <= i < |queued| ==> queued[i] in queued;
  }

  lemma CompletePop(edges: seq<Edge>, visited: seq<bool>, popped: set<nat>, o: nat, s: nat)
    requires Complete(edges, visited, popped, o, |edges|) && s !in popped
    ensures Complete(edges, visited, popped + {s}, s, 0)
  {
    var more := popped + {s};
    forall i | 0 <= i < |edges|
      ensures CompleteAt(edges, visited, more, s, 0, i)
    {
      assert CompleteAt(edges, visited, popped, o, |edges|, i);
    }
  }

  lemma CompleteStep(edges: seq<Edge>, visited: seq<bool>, visited': seq<bool>, popped: set<nat>, s: nat, k: nat, k': nat)
    requires Complete(edges, visited, popped, s, k) && k < |edges| && |visited'| == |visited| && k' == k + 1
    requires forall t :: 0 <= t < |visited| && visited[t] ==> visited'[t]
    requires edges[k].to == s ==> edges[k].from < |visited'| && visited'[edges[k].from]
    ensures Complete(edges, visited', popped, s, k')
  {
    forall i | 0 <= i < |edges|
      ensures CompleteAt(edges, visited', popped, s, k', i)
    {
      assert CompleteAt(edges, visited, popped, s, k, i);
    }
  }

  /** The backward walk while the edges to `s` are looked at, those before index `k` done. */
  ghost predicate Backing(m: Fsm, reached: set<nat>, edges: seq<Edge>, ends: seq<nat>, visited: seq<bool>, sed: seq<int>,
                          queued: seq<nat>, popped: set<nat>, s: nat, k: nat)
  {
    && |visited| == |sed| == |m.states| && s < |m.states| && s in popped
    && (forall b {:trigger Peek(b)} :: Peek(b) ==>
          && Collected(m, reached, edges, ends) && Measured(m, reached, visited, sed, queued, popped)
          && EndsVisited(m, reached, visited) && Complete(edges, visited, popped, s, k) && InOrder(sed, queued, sed[s]))
  }

  /** The state being looked at has its distance. */
  lemma BackExact(m: Fsm, reached: set<nat>, visited: seq<bool>, sed: seq<int>, queued: seq<nat>, popped: set<nat>, s: nat)
    requires Measured(m, reached, visited, sed, queued, popped) && s in popped
    ensures s < |sed| && visited[s] && ExactFor(m, sed, s)
  {
    PoppedVisited(|m.states|, visited, queued, popped, s);
    ExactAtVisited(m, reached, visited, sed, s);
  }

  lemma BackSkip(m: Fsm, reached: set<nat>, edges: seq<Edge>, ends: seq<nat>, visited: seq<bool>, sed: seq<int>,
                 queued: seq<nat>, popped: set<nat>, s: nat, k: nat, k': nat)
    requires Backing(m, reached, edges, ends, visited, sed, queued, popped, s, k)
    requires forall i :: k <= i < k' && i < |edges| ==> edges[i].to != s
    ensures Backing(m, reached, edges, ends, visited, sed, queued, popped, s, k')
  {
    assert Peek(true);
    forall i | 0 <= i < |edges|
      ensures CompleteAt(edges, visited, popped, s, k', i)
    {
      assert CompleteAt(edges, visited, popped, s, k, i);
    }
  }

  /** An edge from a state that is visited changes nothing. */
  lemma BackSeen(m: Fsm, reached: set<nat>, edges: seq<Edge>, ends: seq<nat>, visited: seq<bool>, sed: seq<int>,
                 queued: seq<nat>, popped: set<nat>, s: nat, k: nat, k': nat)
    requires IsDfa(m) && Backing(m, reached, edges, ends, visited, sed, queued, popped, s, k) && k < |edges| && edges[k].to == s
    requires k' == k + 1
    ensures edges[k].from < |visited|
    ensures visited[edges[k].from] ==>
              var v := sed[edges[k].from]; v != NO_END_DISTANCE && (sed[s] < v ==> v == sed[s] + 1)
    ensures visited[edges[k].from] ==> Backing(m, reached, edges, ends, visited, sed, queued, popped, s, k')
  {
    assert Peek(true);
    BackExact(m, reached, visited, sed, queued, popped, s);
    var from := edges[k].from;
    assert edges[k] == Edge(from, s) && Edge(from, s) in edges;
    OneFurther(m, reached, edges, ends, visited, sed, queued, popped, s, k, from);
    if visited[from] {
      CompleteStep(edges, visited, visited, popped, s, k, k');
    }
  }

  /** What an edge from an unvisited state to `s` says. */
  lemma BackFresh(m: Fsm, reached: set<nat>, edges: seq<Edge>, ends: seq<nat>, visited: seq<bool>, sed: seq<int>,
                  queued: seq<nat>, popped: set<nat>, s: nat, k: nat)
    requires IsDfa(m) && Backing(m, reached, edges, ends, visited, sed, queued, popped, s, k) && k < |edges| && edges[k].to == s
    requires edges[k].from < |visited| && !visited[edges[k].from]
    ensures edges[k].from in reached && sed[s] >= 0 && IsFar(m, edges[k].from, sed[s] + 1)
    ensures Collected(m, reached, edges, ends) && EndsVisited(m, reached, visited)
    ensures Measured(m, reached, visited, sed, queued, popped) && InOrder(sed, queued, sed[s])
    ensures Complete(edges, visited, popped, s, k)
  {
    assert Peek(true);
    BackExact(m, reached, visited, sed, queued, popped, s);
    var from := edges[k].from;
    assert edges[k] == Edge(from, s) && Edge(from, s) in edges;
    OneFurther(m, reached, edges, ends, visited, sed, queued, popped, s, k, from);
  }

  lemma PoppedVisited(n: nat, visited: seq<bool>, queued: seq<nat>, popped: set<nat>, s: nat)
    requires Tracked(n, visited, queued, popped) && s in popped
    ensures s < n && visited[s]
  {
    assert Look(true);
  }

  /** All parts of the invariant with one more state visited. */
  lemma BackMore(m: Fsm, reached: set<nat>, edges: seq<Edge>, ends: seq<nat>, visited: seq<bool>, sed: seq<int>,
                 queued: seq<nat>, popped: set<nat>, s: nat, k: nat, k': nat, v: nat)
    requires Collected(m, reached, edges, ends) && EndsVisited(m, reached, visited) && s in popped && s < |m.states|
    requires Measured(m, reached, visited, sed, queued, popped) && InOrder(sed, queued, sed[s])
    requires Complete(edges, visited, popped, s, k) && sed[s] >= 0
    requires k < |edges| && edges[k] == Edge(v, s) && k' == k + 1
    requires v < |visited| && !visited[v] && v in reached && IsFar(m, v, sed[s] + 1)
    ensures |queued| < |m.states| && v != s && sed[v] == NO_END_DISTANCE
    ensures Backing(m, reached, edges, ends, visited[v := true], sed[v := sed[s] + 1], queued + [v], popped, s, k')
  {
    PoppedVisited(|m.states|, visited, queued, popped, s);
    MeasuredMore(m, reached, visited, sed, queued, popped, s, v);
    OrderPush(sed, queued, sed[s], v);
    CompleteStep(edges, visited, visited[v := true], popped, s, k, k');
    EndsStillVisited(m, reached, visited, v);
    assert sed[v := sed[s] + 1][s] == sed[s];
    BackingOf(m, reached, edges, ends, visited[v := true], sed[v := sed[s] + 1], queued + [v], popped, s, k');
  }

  lemma EndsStillVisited(m: Fsm, reached: set<nat>, visited: seq<bool>, v: nat)
    requires EndsVisited(m, reached, visited) && v < |visited|
    ensures EndsVisited(m, reached, visited[v := true])
  {
  }

  lemma BackingOf(m: Fsm, reached: set<nat>, edges: seq<Edge>, ends: seq<nat>, visited: seq<bool>, sed: seq<int>,
                  queued: seq<nat>, popped: set<nat>, s: nat, k: nat)
    requires |visited| == |sed| == |m.states| && s < |m.states| && s in popped
    requires Collected(m, reached, edges, ends) && Measured(m, reached, visited, sed, queued, popped)
    requires EndsVisited(m, reached, visited) && Complete(edges, visited, popped, s, k) && InOrder(sed, queued, sed[s])
    ensures Backing(m, reached, edges, ends, visited, sed, queued, popped, s, k)
  {
  }

  lemma MeasuredMore(m: Fsm, reached: set<nat>, visited: seq<bool>, sed: seq<int>, queued: seq<nat>, popped: set<nat>, s: nat, v: nat)
    requires Measured(m, reached, visited, sed, queued, popped) && s < |sed| && sed[s] >= 0
    requires v < |visited| && !visited[v] && v in reached && IsFar(m, v, sed[s] + 1)
    ensures |queued| < |m.states| && v < |sed| && sed[v] == NO_END_DISTANCE && v !in queued
    ensures Measured(m, reached, visited[v := true], sed[v := sed[s] + 1], queued + [v], popped)
  {
    assert Look(true);
    ExactAtVisited(m, reached, visited, sed, v);
    TrackedPush(|m.states|, visited, queued, popped, v);
    ExactMore(m, reached, visited, sed, v, sed[s] + 1);
  }

  /** An edge from an unvisited state gives it its distance. */
  lemma BackNew(m: Fsm, reached: set<nat>, edges: seq<Edge>, ends: seq<nat>, visited: seq<bool>, sed: seq<int>,
                queued: seq<nat>, popped: set<nat>, s: nat, k: nat, k': nat)
    requires IsDfa(m) && Backing(m, reached, edges, ends, visited, sed, queued, popped, s, k) && k < |edges| && edges[k].to == s
    requires k' == k + 1 && edges[k].from < |visited| && !visited[edges[k].from]
    ensures sed[edges[k].from] == NO_END_DISTANCE && edges[k].from != s && |queued| < |m.states|
    ensures Backing(m, reached, edges, ends, visited[edges[k].from := true], sed[edges[k].from := sed[s] + 1],
                    queued + [edges[k].from], popped, s, k')
  {
    BackFresh(m, reached, edges, ends, visited, sed, queued, popped, s, k);
    BackMore(m, reached, edges, ends, visited, sed, queued, popped, s, k, k', edges[k].from);
  }

  lemma BackBegins(m: Fsm, reached: set<nat>, edges: seq<Edge>, ends: seq<nat>, visited: seq<bool>, sed: seq<int>,
                   queued: seq<nat>, popped: set<nat>, s: nat, last: nat, lo: int)
    requires Collected(m, reached, edges, ends) && Measured(m, reached, visited, sed, [s] + queued, popped)
    requires EndsVisited(m, reached, visited) && Complete(edges, visited, popped, last, |edges|) && InOrder(sed, [s] + queued, lo)
    ensures s !in popped && |popped + {s}| <= |m.states|
    ensures Backing(m, reached, edges, ends, visited, sed, queued, popped + {s}, s, 0)
  {
    TrackedPop(|m.states|, visited, s, queued, popped);
    TrackedSize(|m.states|, visited, queued, popped + {s});
    OrderPop(sed, s, queued, lo);
    CompletePop(edges, visited, popped, last, s);
  }

  /** Look at one edge to `s`. */
  method BackStep(m: Fsm, edge: Edge, visited: array<bool>, sed: array<int>, q: StateQueue, s: nat,
                  ghost edges: seq<Edge>, ghost ends: seq<nat>, ghost reached: set<nat>, ghost popped: set<nat>, ghost k: nat)
    requires IsDfa(m) && k < |edges| && edge == edges[k] && edge.to == s && q.Valid() && q.q.Length == |m.states|
    requires Backing(m, reached, edges, ends, visited[..], sed[..], q.Contents(), popped, s, k)
    modifies visited, sed, q, q.q
    ensures q.Valid() && Backing(m, reached, edges, ends, visited[..], sed[..], q.Contents(), popped, s, k + 1)
  {
    var from := edge.from;
    ghost var v, d := visited[..], sed[..];
    BackSeen(m, reached, edges, ends, v, d, q.Contents(), popped, s, k, k + 1);
    if !visited[from] {
      BackNew(m, reached, edges, ends, v, d, q.Contents(), popped, s, k, k + 1);
    }
    if sed[from] == NO_END_DISTANCE || sed[s] < sed[from] {
      sed[from] := sed[s] + 1;
    }
    if visited[from] {
      assert sed[..] == d;
    } else {
      visited[from] := true;
      var ok := q.Push(from);
    }
  }

  /** Whatever leads to a visited state is visited. */
  ghost predicate ClosedBack(edges: seq<Edge>, visited: seq<bool>) {
    forall i :: 0 <= i < |edges| && edges[i].to < |visited| && visited[edges[i].to] ==>
      edges[i].from < |visited| && visited[edges[i].from]
  }

  lemma BackEnds(n: nat, edges: seq<Edge>, visited: seq<bool>, popped: set<nat>, s: nat)
    requires Tracked(n, visited, [], popped) && Complete(edges, visited, popped, s, |edges|)
    ensures ClosedBack(edges, visited)
  {
    assert Look(true);
    forall i | 0 <= i < |edges| && edges[i].to < |visited| && visited[edges[i].to]
      ensures edges[i].from < |visited| && visited[edges[i].from]
    {
      assert CompleteAt(edges, visited, popped, s, |edges|, i);
    }
  }

  /** Then every reachable state that reaches an end is visited. */
  lemma {:induction false} AllLiveVisited(m: Fsm, reached: set<nat>, edges: seq<Edge>, ends: seq<nat>, visited: seq<bool>, v: nat, d: nat)
    requires IsDfa(m) && Collected(m, reached, edges, ends) && |visited| == |m.states|
    requires EndsVisited(m, reached, visited) && ClosedBack(edges, visited)
    requires v in reached && IsEndDistance(m, v, d)
    ensures v < |visited| && visited[v]
    decreases d
  {
    CollectedEdge(m, reached, edges, ends, v, v);
    if d == 0 {
      DistanceZero(m, v, 0);
    } else {
      var u := CloserNeighbour(m, v, d);
      ReachableJoined(m, v, u);
      CollectedEdge(m, reached, edges, ends, u, v);
      CollectedEdge(m, reached, edges, ends, v, u);
      AllLiveVisited(m, reached, edges, ends, visited, u, d - 1);
    }
  }

  /** The ends, at distance 0, start the walk. */
  ghost predicate Seeding(m: Fsm, reached: set<nat>, ends: seq<nat>, visited: seq<bool>, sed: seq<int>, i: nat) {
    && |visited| == |sed| == |m.states| && i <= |ends|
    && (forall b {:trigger Peek(b)} :: Peek(b) ==>
          && Distinct(ends) && (forall t :: t in ends <==> t in reached && t < |m.states| && m.states[t].end)
          && Measured(m, reached, visited, sed, ends[..i], {})
          && (forall t: nat :: t < |m.states| ==> (visited[t] <==> t in ends[..i]))
          && (forall t: nat :: t < |m.states| && visited[t] ==> sed[t] == 0))
  }

  lemma SeedBegins(m: Fsm, reached: set<nat>, ends: seq<nat>, visited: seq<bool>, sed: seq<int>)
    requires |visited| == |sed| == |m.states|
    requires forall t :: 0 <= t < |m.states| ==> !visited[t] && sed[t] == NO_END_DISTANCE
    requires Distinct(ends) && forall t :: t in ends <==> t in reached && t < |m.states| && m.states[t].end
    ensures Seeding(m, reached, ends, visited, sed, 0)
  {
    assert ends[..0] == [];
  }

  lemma SeedStep(m: Fsm, reached: set<nat>, ends: seq<nat>, visited: seq<bool>, sed: seq<int>, i: nat, i': nat)
    requires Seeding(m, reached, ends, visited, sed, i) && i < |ends| && i' == i + 1
    ensures ends[i] < |m.states| && i < |m.states|
    ensures Seeding(m, reached, ends, visited[ends[i] := true], sed[ends[i] := 0], i')
  {
    assert Peek(true);
    var e := ends[i];
    assert e in ends;
    assert e !in ends[..i] by {
      assert forall k :: 0 <= k < i ==> ends[..i][k] == ends[k];
    }
    var w: seq<Byte> := [];
    assert Run(m, e, w) == e;
    assert IsEndDistance(m, e, 0);
    TrackedPush(|m.states|, visited, ends[..i], {}, e);
    ExactMore(m, reached, visited, sed, e, 0);
    assert ends[..i'] == ends[..i] + [e];
  }

  lemma SeedsDone(m: Fsm, reached: set<nat>, ends: seq<nat>, visited: seq<bool>, sed: seq<int>)
    requires Seeding(m, reached, ends, visited, sed, |ends|)
    ensures Measured(m, reached, visited, sed, ends, {}) && EndsVisited(m, reached, visited) && InOrder(sed, ends, 0)
  {
    assert Peek(true);
    assert ends[..|ends|] == ends;
    forall i | 0 <= i < |ends|
      ensures ends[i] < |sed| && sed[ends[i]] == 0
    {
      assert ends[i] in ends;
    }
  }

  method SeedEnds(m: Fsm, ends: seq<nat>, visited: array<bool>, sed: array<int>, q: StateQueue, ghost reached: set<nat>)
    requires visited.Length == sed.Length == |m.states| && q.Valid() && q.q.Length == |m.states| && q.Contents() == []
    requires forall t :: 0 <= t < |m.states| ==> !visited[t] && sed[t] == NO_END_DISTANCE
    requires Distinct(ends) && forall t :: t in ends <==> t in reached && t < |m.states| && m.states[t].end
    modifies visited, sed, q, q.q
    ensures q.Valid() && Measured(m, reached, visited[..], sed[..], q.Contents(), {}) && EndsVisited(m, reached, visited[..])
    ensures InOrder(sed[..], q.Contents(), 0)
  {
    SeedBegins(m, reached, ends, visited[..], sed[..]);
    for i := 0 to |ends|
      invariant q.Valid() && q.Contents() == ends[..i] && Seeding(m, reached, ends, visited[..], sed[..], i)
    {
      SeedStep(m, reached, ends, visited[..], sed[..], i, i + 1);
      var ok := q.Push(ends[i]);
      visited[ends[i]] := true;
      sed[ends[i]] := 0;
      assert ends[..i + 1] == ends[..i] + [ends[i]];
    }
    assert ends[..|ends|] == ends;
    SeedsDone(m, reached, ends, visited[..], sed[..]);
  }

  /** The backward walk between two states, `queued` to be looked at. */
  ghost predicate Retreating(m: Fsm, reached: set<nat>, edges: seq<Edge>, ends: seq<nat>, visited: seq<bool>, sed: seq<int>,
                          queued: seq<nat>, popped: set<nat>)
  {
    && |visited| == |sed| == |m.states| && |popped| <= |m.states|
    && (forall b {:trigger Peek(b)} :: Peek(b) ==>
          && Collected(m, reached, edges, ends) && Measured(m, reached, visited, sed, queued, popped)
          && EndsVisited(m, reached, visited)
          && (exists last: nat :: Complete(edges, visited, popped, last, |edges|))
          && (exists lo: int :: InOrder(sed, queued, lo)))
  }

  lemma RetreatBegins(m: Fsm, reached: set<nat>, edges: seq<Edge>, ends: seq<nat>, visited: seq<bool>, sed: seq<int>, queued: seq<nat>)
    requires Collected(m, reached, edges, ends) && Measured(m, reached, visited, sed, queued, {})
    requires EndsVisited(m, reached, visited) && InOrder(sed, queued, 0)
    ensures Retreating(m, reached, edges, ends, visited, sed, queued, {})
  {
    assert Complete(edges, visited, {}, 0, |edges|);
  }

  lemma RetreatPop(m: Fsm, reached: set<nat>, edges: seq<Edge>, ends: seq<nat>, visited: seq<bool>, sed: seq<int>,
                   s: nat, queued: seq<nat>, popped: set<nat>)
    requires Retreating(m, reached, edges, ends, visited, sed, [s] + queued, popped)
    ensures s !in popped && |popped + {s}| <= |m.states|
    ensures Backing(m, reached, edges, ends, visited, sed, queued, popped + {s}, s, 0)
  {
    assert Peek(true);
    var last: nat :| Complete(edges, visited, popped, last, |edges|);
    var lo: int :| InOrder(sed, [s] + queued, lo);
    BackBegins(m, reached, edges, ends, visited, sed, queued, popped, s, last, lo);
  }

  lemma RetreatAgain(m: Fsm, reached: set<nat>, edges: seq<Edge>, ends: seq<nat>, visited: seq<bool>, sed: seq<int>,
                     queued: seq<nat>, popped: set<nat>, s: nat)
    requires Backing(m, reached, edges, ends, visited, sed, queued, popped, s, |edges|) && |popped| <= |m.states|
    ensures Retreating(m, reached, edges, ends, visited, sed, queued, popped)
  {
    assert Peek(true);
  }

  lemma RetreatEnds(m: Fsm, reached: set<nat>, edges: seq<Edge>, ends: seq<nat>, visited: seq<bool>, sed: seq<int>, popped: set<nat>)
    requires Retreating(m, reached, edges, ends, visited, sed, [], popped)
    ensures Exactly(m, reached, visited, sed) && EndsVisited(m, reached, visited) && ClosedBack(edges, visited)
  {
    assert Peek(true);
    var last: nat :| Complete(edges, visited, popped, last, |edges|);
    BackEnds(|m.states|, edges, visited, popped, last);
  }

  method WalkFromEnds(m: Fsm, edges: seq<Edge>, visited: array<bool>, sed: array<int>, q: StateQueue,
                      ghost ends: seq<nat>, ghost reached: set<nat>)
    requires IsDfa(m) && q.Valid() && q.q.Length == |m.states| && ByTarget(edges)
    requires Retreating(m, reached, edges, ends, visited[..], sed[..], q.Contents(), {})
    modifies visited, sed, q, q.q
    ensures Exactly(m, reached, visited[..], sed[..]) && EndsVisited(m, reached, visited[..]) && ClosedBack(edges, visited[..])
  {
    if edges == [] {
      RetreatOpen(m, reached, edges, ends, visited[..], sed[..], q.Contents(), {});
      return;
    }
    RetreatWithin(m, reached, edges, ends, visited[..], sed[..], q.Contents(), {});
    var offsets := BuildOffsets(edges, |m.states|);
    ghost var popped: set<nat> := {};
    var more, s := q.Pop();
    while more
      invariant q.Valid() && Indexed(edges, offsets[..])
      invariant Retreating(m, reached, edges, ends, visited[..], sed[..], if more then [s] + q.Contents() else [], popped)
      decreases |m.states| - |popped|, more
    {
      RetreatPop(m, reached, edges, ends, visited[..], sed[..], s, q.Contents(), popped);
      popped := popped + {s};
      LookAtEdges(m, edges, offsets, visited, sed, q, s, ends, reached, popped);
      RetreatAgain(m, reached, edges, ends, visited[..], sed[..], q.Contents(), popped, s);
      more, s := q.Pop();
    }
    RetreatEnds(m, reached, edges, ends, visited[..], sed[..], popped);
  }

  lemma RetreatOpen(m: Fsm, reached: set<nat>, edges: seq<Edge>, ends: seq<nat>, visited: seq<bool>, sed: seq<int>,
                    queued: seq<nat>, popped: set<nat>)
    requires Retreating(m, reached, edges, ends, visited, sed, queued, popped)
    ensures Exactly(m, reached, visited, sed) && EndsVisited(m, reached, visited)
  {
    assert Peek(true);
  }

  lemma RetreatWithin(m: Fsm, reached: set<nat>, edges: seq<Edge>, ends: seq<nat>, visited: seq<bool>, sed: seq<int>,
                      queued: seq<nat>, popped: set<nat>)
    requires IsDfa(m) && Retreating(m, reached, edges, ends, visited, sed, queued, popped)
    ensures forall e :: e in edges ==> e.to < |m.states|
  {
    assert Peek(true);
    forall e | e in edges
      ensures e.to < |m.states|
    {
      CollectedEdge(m, reached, edges, ends, e.from, e.to);
    }
  }

  /** Look at the edges to a popped state, which the index has in one place. */
  method LookAtEdges(m: Fsm, edges: seq<Edge>, offsets: array<nat>, visited: array<bool>, sed: array<int>, q: StateQueue, s: nat,
                     ghost ends: seq<nat>, ghost reached: set<nat>, ghost popped: set<nat>)
    requires IsDfa(m) && q.Valid() && q.q.Length == |m.states|
    requires offsets.Length == |m.states| && Indexed(edges, offsets[..])
    requires offsets != q.q
    requires Backing(m, reached, edges, ends, visited[..], sed[..], q.Contents(), popped, s, 0)
    modifies visited, sed, q, q.q
    ensures q.Valid() && Backing(m, reached, edges, ends, visited[..], sed[..], q.Contents(), popped, s, |edges|)
  {
    var base := if s == 0 then 0 else offsets[s - 1];
    var limit := offsets[s];
    assert base == Base(offsets[..], s);
    BackSkip(m, reached, edges, ends, visited[..], sed[..], q.Contents(), popped, s, 0, base);
    var k := base;
    while k < limit
      invariant base <= k && q.Valid()
      invariant Backing(m, reached, edges, ends, visited[..], sed[..], q.Contents(), popped, s, k)
    {
      BackStep(m, edges[k], visited, sed, q, s, edges, ends, reached, popped, k);
      k := k + 1;
    }
    BackSkip(m, reached, edges, ends, visited[..], sed[..], q.Contents(), popped, s, k, |edges|);
  }

  // ----- marking -----

  /** The states worth keeping. */
  ghost predicate Kept(m: Fsm, s: nat) {
    s < |m.states| && IsReachable(m, s) && Live(m, s)
  }

  /** The marks are on the states to keep, which have their exact distances. */
  ghost predicate MarkedExactly(m: Fsm, visited: seq<bool>, sed: seq<int>) {
    && |visited| == |sed| == |m.states|
    && (forall s: nat :: s < |visited| ==> (visited[s] <==> Kept(m, s)))
    && (forall s: nat :: s < |visited| ==> if visited[s] then ExactFor(m, sed, s) else sed[s] == NO_END_DISTANCE)
  }

  lemma MarkedAll(m: Fsm, reached: set<nat>, edges: seq<Edge>, ends: seq<nat>, visited: seq<bool>, sed: seq<int>)
    requires IsDfa(m) && Collected(m, reached, edges, ends) && Exactly(m, reached, visited, sed)
    requires EndsVisited(m, reached, visited) && ClosedBack(edges, visited)
    ensures MarkedExactly(m, visited, sed)
  {
    forall s: nat | s < |visited|
      ensures visited[s] <==> Kept(m, s)
      ensures if visited[s] then ExactFor(m, sed, s) else sed[s] == NO_END_DISTANCE
    {
      ExactAtVisited(m, reached, visited, sed, s);
      CollectedEdge(m, reached, edges, ends, s, s);
      if Kept(m, s) {
        var d: nat :| IsEndDistance(m, s, d);
        AllLiveVisited(m, reached, edges, ends, visited, s, d);
      }
    }
  }

  lemma CollectedSame(m: Fsm, reached: set<nat>, edges: seq<Edge>, edges': seq<Edge>, ends: seq<nat>)
    requires Collected(m, reached, edges, ends) && forall e :: e in edges' <==> e in edges
    ensures Collected(m, reached, edges', ends)
  {
    assert Look(true);
  }

  method MarkStates(m: Fsm, visited: array<bool>, sed: array<int>)
    requires IsDfa(m) && 0 < |m.states| == visited.Length == sed.Length
    requires forall t :: 0 <= t < |m.states| ==> !visited[t] && sed[t] == NO_END_DISTANCE
    modifies visited, sed
    ensures MarkedExactly(m, visited[..], sed[..])
  {
    if m.start.None? {
      return;
    }
    var q := new StateQueue(|m.states|);
    var edges, ends;
    ghost var reached;
    edges, ends, reached := WalkFromStart(m, visited, q);
    CollectedEnds(m, reached, edges, ends);
    ClearMarks(visited);
    var sorted := SortByTarget(edges);
    CollectedSame(m, reached, edges, sorted, ends);
    edges := sorted;
    SeedEnds(m, ends, visited, sed, q, reached);
    RetreatBegins(m, reached, edges, ends, visited[..], sed[..], q.Contents());
    WalkFromEnds(m, edges, visited, sed, q, ends, reached);
    MarkedAll(m, reached, edges, ends, visited[..], sed[..]);
  }

  method ClearMarks(visited: array<bool>)
    modifies visited
    ensures forall t :: 0 <= t < visited.Length ==> !visited[t]
  {
    for t := 0 to visited.Length
      invariant forall u :: 0 <= u < t ==> !visited[u]
    {
      visited[t] := false;
    }
  }

  // ----- sweeping -----

  /** How many states below `i` are kept. */
  function Rank(visited: seq<bool>, i: nat): (r: nat)
    requires i <= |visited|
    ensures r <= i
  {
    if i == 0 then 0 else Rank(visited, i - 1) + if visited[i - 1] then 1 else 0
  }

  lemma {:induction false} RankMonotone(visited: seq<bool>, i: nat, j: nat)
    requires i <= j <= |visited|
    ensures Rank(visited, i) <= Rank(visited, j)
    ensures i < j && visited[i] ==> Rank(visited, i) < Rank(visited, j)
    decreases j
  {
    if i < j {
      RankMonotone(visited, i, j - 1);
    }
  }

  lemma {:induction false} RankOnto(visited: seq<bool>, i: nat, r: nat) returns (s: nat)
    requires i <= |visited| && r < Rank(visited, i)
    ensures s < i && visited[s] && Rank(visited, s) == r
  {
    if visited[i - 1] && Rank(visited, i - 1) == r {
      s := i - 1;
    } else {
      s := RankOnto(visited, i - 1, r);
    }
  }

  /** The new number of a state. */
  function NewId(visited: seq<bool>, s: nat): nat {
    if s < |visited| && visited[s] then Rank(visited, s) else NO_STATE
  }

  function Renumbering(visited: seq<bool>): (f: nat -> nat) {
    (s: nat) => NewId(visited, s)
  }

  /** `st` is `s` with its edges renumbered; those to states that go are dropped. */
  ghost predicate Swept(m: Fsm, visited: seq<bool>, s: nat, st: State, n: nat)
    requires s < |m.states|
  {
    && Sorted(st.edges) && EdgesWithin(st.edges, n)
    && Edges(st.edges) == Remapped(Edges(m.states[s].edges), Renumbering(visited))
    && st.epsilons == {} && st.end == m.states[s].end && st.endIds == m.states[s].endIds
    && (m.states[s].edges == [] ==> st.edges == [])
  }

  /** `d` has the kept states of `m`, in order. */
  ghost predicate IsSwept(m: Fsm, visited: seq<bool>, d: Fsm) {
    && |visited| == |m.states| && |d.states| == Rank(visited, |visited|)
    && (forall s: nat :: s < |m.states| && visited[s] ==> Rank(visited, s) < |d.states| && Swept(m, visited, s, d.states[Rank(visited, s)], |d.states|))
    && d.start == if m.start.Some? && m.start.value < |visited| && visited[m.start.value] then Some(Rank(visited, m.start.value)) else None
  }

  method SweepState(m: Fsm, visited: seq<bool>, s: nat, n: nat) returns (st: State)
    requires IsDfa(m) && |visited| == |m.states| < NO_STATE && s < |m.states| && visited[s] && n == Rank(visited, |visited|)
    requires Tidy(m.states[s].edges)
    ensures Swept(m, visited, s, st, n)
  {
    RankMonotone(visited, s, |visited|);
    var es := new EdgeSet.FromGroups(m.states[s].edges);
    forall t: nat
      ensures NewId(visited, t) <= NO_STATE
    {
    }
    es.Compact(Renumbering(visited));
    var gs := es.groups[..es.count];
    assert m.states[s].edges == [] ==> Edges(m.states[s].edges) == {};
    SweptWithin(m.states[s].edges, visited, gs, n);
    st := State(gs, {}, m.states[s].end, m.states[s].endIds);
  }

  lemma TidyHasEdges(es: seq<Group>)
    requires Tidy(es) && es != []
    ensures Edges(es) != {}
  {
    var c :| c in es[0].symbols;
    assert (c, es[0].to) in Edges(es);
  }

  lemma SweptWithin(old': seq<Group>, visited: seq<bool>, gs: seq<Group>, n: nat)
    requires Tidy(old') && n == Rank(visited, |visited|) && n > 0
    requires if Edges(old') == {} then gs == old' else KeptAll(old', Renumbering(visited), gs)
    ensures EdgesWithin(gs, n)
  {
    if old' != [] {
      TidyHasEdges(old');
    }
    if Edges(old') != {} {
      forall i | 0 <= i < |gs|
        ensures gs[i].to < n
      {
        assert KeptTo(old', Renumbering(visited), gs[i].to);
        if gs[i].to != 0 {
          var j :| 0 <= j < |old'| && Renumbering(visited)(old'[j].to) == gs[i].to != NO_STATE;
          RankMonotone(visited, old'[j].to, |visited|);
        }
      }
    }
  }

  /** Build the swept machine. */
  method SweepStates(m: Fsm, visited: seq<bool>) returns (d: Fsm)
    requires IsDfa(m) && |visited| == |m.states| < NO_STATE && forall s :: 0 <= s < |m.states| ==> Tidy(m.states[s].edges)
    ensures IsSwept(m, visited, d)
  {
    var n := CountKept(visited);
    var states: seq<State> := [];
    for s := 0 to |m.states|
      invariant |states| == Rank(visited, s)
      invariant forall t: nat :: t < s && visited[t] ==> Rank(visited, t) < |states| && Swept(m, visited, t, states[Rank(visited, t)], n)
    {
      if visited[s] {
        var st := SweepState(m, visited, s, n);
        states := states + [st];
      }
    }
    var start := None;
    if m.start.Some? && visited[m.start.value] {
      var r := RankOf(visited, m.start.value);
      start := Some(r);
    }
    d := Fsm(states, start);
  }

  method CountKept(visited: seq<bool>) returns (n: nat)
    ensures n == Rank(visited, |visited|)
  {
    n := RankOf(visited, |visited|);
  }

  method RankOf(visited: seq<bool>, s: nat) returns (r: nat)
    requires s <= |visited|
    ensures r == Rank(visited, s)
  {
    r := 0;
    for i := 0 to s
      invariant r == Rank(visited, i)
    {
      if visited[i] {
        r := r + 1;
      }
    }
  }

  // ----- what trimming keeps -----

  /** Where state `t` of `m` is in `d`. */
  function Place(visited: seq<bool>, d: Fsm, t: nat): nat {
    if t < |visited| && visited[t] then Rank(visited, t) else |d.states|
  }

  lemma RenumberedEdge(m: Fsm, visited: seq<bool>, r: set<(Byte, nat)>, c: Byte, k: nat)
    requires |visited| < NO_STATE
    ensures (c, k) in Remapped(r, Renumbering(visited)) <==>
            exists t: nat :: t < |visited| && visited[t] && Rank(visited, t) == k && (c, t) in r
  {
    if (c, k) in Remapped(r, Renumbering(visited)) {
      var e :| e in r && Renumbering(visited)(e.1) != NO_STATE && (c, k) == (e.0, Renumbering(visited)(e.1));
      assert e == (c, e.1);
    }
    if t: nat :| t < |visited| && visited[t] && Rank(visited, t) == k && (c, t) in r {
      assert Renumbering(visited)((c, t).1) != NO_STATE;
    }
  }

  lemma SweptEdges(m: Fsm, visited: seq<bool>, d: Fsm, s: nat, c: Byte, k: nat)
    requires IsDfa(m) && IsSwept(m, visited, d) && |visited| < NO_STATE && s < |m.states| && visited[s]
    ensures (c, k) in Edges(d.states[Rank(visited, s)].edges) <==>
            var t := Step(m, s, c); t < |m.states| && visited[t] && k == Rank(visited, t)
  {
    assert Swept(m, visited, s, d.states[Rank(visited, s)], |d.states|);
    RenumberedEdge(m, visited, Edges(m.states[s].edges), c, k);
    StepFollows(m, s, c);
  }

  lemma SweptIsDfa(m: Fsm, visited: seq<bool>, d: Fsm)
    requires IsDfa(m) && IsSwept(m, visited, d) && |visited| < NO_STATE
    ensures IsDfa(d)
  {
    forall k | 0 <= k < |d.states|
      ensures Sorted(d.states[k].edges) && EdgesWithin(d.states[k].edges, |d.states|)
      ensures d.states[k].epsilons == {} && Deterministic(d.states[k].edges)
    {
      var s := RankOnto(visited, |visited|, k);
      assert Swept(m, visited, s, d.states[k], |d.states|);
      var r := Edges(d.states[k].edges);
      forall c: Byte, t: nat, u: nat | (c, t) in r && (c, u) in r
        ensures t == u
      {
        SweptEdges(m, visited, d, s, c, t);
        SweptEdges(m, visited, d, s, c, u);
      }
      FunctionalGroups(d.states[k].edges);
    }
  }

  lemma SweptStep(m: Fsm, visited: seq<bool>, d: Fsm, s: nat, c: Byte)
    requires IsDfa(m) && IsDfa(d) && IsSwept(m, visited, d) && |visited| < NO_STATE && s < |m.states| && visited[s]
    ensures Step(d, Rank(visited, s), c) == Place(visited, d, Step(m, s, c))
  {
    var k := Rank(visited, s);
    StepFollows(d, k, c);
    SweptEdges(m, visited, d, s, c, Step(d, k, c));
    SweptEdges(m, visited, d, s, c, Place(visited, d, Step(m, s, c)));
  }

  /** From a state that no end can be reached from, no state to keep can be reached. */
  lemma DeadEnd(m: Fsm, visited: seq<bool>, sed: seq<int>, t: nat, w: seq<Byte>)
    requires IsDfa(m) && MarkedExactly(m, visited, sed) && t <= |m.states| && (t < |m.states| ==> IsReachable(m, t) && !visited[t])
    ensures var u := Run(m, t, w); u == |m.states| || !visited[u]
  {
    var u := Run(m, t, w);
    if t == |m.states| {
      RunDead(m, w);
    } else if u < |m.states| && visited[u] {
      var v: seq<Byte> :| |v| == sed[u] && Observe(m, Run(m, u, v)).Some?;
      RunConcat(m, t, w, v);
      var k := HasDistance(m, t, w + v);
    }
  }

  lemma {:induction false} SweptRun(m: Fsm, visited: seq<bool>, sed: seq<int>, d: Fsm, s: nat, w: seq<Byte>)
    requires IsDfa(m) && IsDfa(d) && IsSwept(m, visited, d) && |visited| < NO_STATE && MarkedExactly(m, visited, sed)
    requires s < |m.states| && visited[s]
    ensures Run(d, Rank(visited, s), w) == Place(visited, d, Run(m, s, w))
    decreases |w|
  {
    if w != [] {
      SweptStep(m, visited, d, s, w[0]);
      var t := Step(m, s, w[0]);
      if t < |m.states| && visited[t] {
        SweptRun(m, visited, sed, d, t, w[1..]);
      } else {
        if t < |m.states| {
          BetweenStep(m, s, t, w[0]);
          ReachableJoined(m, s, t);
        }
        DeadEnd(m, visited, sed, t, w[1..]);
        RunDead(d, w[1..]);
      }
    }
  }

  lemma SweptObserves(m: Fsm, visited: seq<bool>, sed: seq<int>, d: Fsm, s: nat, w: seq<Byte>)
    requires IsDfa(m) && IsDfa(d) && IsSwept(m, visited, d) && |visited| < NO_STATE && MarkedExactly(m, visited, sed)
    requires s < |m.states| && visited[s]
    ensures Observe(d, Run(d, Rank(visited, s), w)) == Observe(m, Run(m, s, w))
  {
    SweptRun(m, visited, sed, d, s, w);
    var t := Run(m, s, w);
    if t < |m.states| {
      if visited[t] {
        assert Swept(m, visited, t, d.states[Rank(visited, t)], |d.states|);
      } else {
        UnmarkedIsNoEnd(m, visited, sed, s, w);
      }
    }
  }

  lemma UnmarkedIsNoEnd(m: Fsm, visited: seq<bool>, sed: seq<int>, s: nat, w: seq<Byte>)
    requires IsDfa(m) && MarkedExactly(m, visited, sed) && s < |m.states| && visited[s]
    requires Run(m, s, w) < |m.states| && !visited[Run(m, s, w)]
    ensures Observe(m, Run(m, s, w)).None?
  {
    var t := Run(m, s, w);
    if Observe(m, t).Some? {
      var u: seq<Byte> :| ReachedOn(m, s, u);
      RunConcat(m, m.start.value, u, w);
      assert ReachedOn(m, t, u + w);
      var e: seq<Byte> := [];
      assert Run(m, t, e) == t;
      var k := HasDistance(m, t, e);
    }
  }

  /** Outcomes are the same, all states are reachable, and the distances carry over. */
  lemma SweptTrimmed(m: Fsm, visited: seq<bool>, sed: seq<int>, d: Fsm, dist: seq<nat>)
    requires IsDfa(m) && IsSwept(m, visited, d) && |visited| < NO_STATE && MarkedExactly(m, visited, sed)
    requires |dist| == |d.states| && forall s: nat :: s < |m.states| && visited[s] ==> Rank(visited, s) < |dist| && dist[Rank(visited, s)] == sed[s]
    ensures IsDfa(d) && SameOutcomes(m, d) && AllReachable(d) && ExactDistances(d, dist)
  {
    SweptIsDfa(m, visited, d);
    forall w: seq<Byte>
      ensures Outcome(m, w) == Outcome(d, w)
    {
      SweptOutcome(m, visited, sed, d, w);
    }
    forall k: nat | k < |d.states|
      ensures IsReachable(d, k) && ExactAt(d, dist, k)
    {
      SweptState(m, visited, sed, d, dist, k);
    }
  }

  lemma SweptOutcome(m: Fsm, visited: seq<bool>, sed: seq<int>, d: Fsm, w: seq<Byte>)
    requires IsDfa(m) && IsDfa(d) && IsSwept(m, visited, d) && |visited| < NO_STATE && MarkedExactly(m, visited, sed)
    ensures Outcome(m, w) == Outcome(d, w)
  {
    if m.start.Some? {
      var s := m.start.value;
      if visited[s] {
        SweptObserves(m, visited, sed, d, s, w);
      } else if Observe(m, Run(m, s, w)).Some? {
        var e: seq<Byte> := [];
        assert ReachedOn(m, s, e);
        var k := HasDistance(m, s, w);
      }
    }
  }

  lemma SweptState(m: Fsm, visited: seq<bool>, sed: seq<int>, d: Fsm, dist: seq<nat>, k: nat)
    requires IsDfa(m) && IsDfa(d) && IsSwept(m, visited, d) && |visited| < NO_STATE && MarkedExactly(m, visited, sed)
    requires |dist| == |d.states| && forall s: nat :: s < |m.states| && visited[s] ==> Rank(visited, s) < |dist| && dist[Rank(visited, s)] == sed[s]
    requires k < |d.states|
    ensures IsReachable(d, k) && ExactAt(d, dist, k)
  {
    var s := RankOnto(visited, |visited|, k);
    var w: seq<Byte> :| ReachedOn(m, s, w);
    StartMarked(m, visited, sed, s, w);
    SweptRun(m, visited, sed, d, m.start.value, w);
    assert ReachedOn(d, k, w);
    forall v: seq<Byte>
      ensures Observe(d, Run(d, k, v)) == Observe(m, Run(m, s, v))
    {
      SweptObserves(m, visited, sed, d, s, v);
    }
    SameDistance(m, s, d, k, dist[k]);
  }

  lemma SameDistance(m: Fsm, s: nat, d: Fsm, k: nat, n: nat)
    requires IsEndDistance(m, s, n) && forall v: seq<Byte> :: Observe(d, Run(d, k, v)) == Observe(m, Run(m, s, v))
    ensures IsEndDistance(d, k, n)
  {
    var w: seq<Byte> :| |w| == n && Observe(m, Run(m, s, w)).Some?;
    assert Observe(d, Run(d, k, w)).Some?;
  }

  /** Where a state is kept, the start is. */
  lemma StartMarked(m: Fsm, visited: seq<bool>, sed: seq<int>, s: nat, w: seq<Byte>)
    requires IsDfa(m) && MarkedExactly(m, visited, sed) && s < |m.states| && visited[s] && ReachedOn(m, s, w)
    ensures visited[m.start.value]
  {
    var b := m.start.value;
    var v: seq<Byte> :| |v| == sed[s] && Observe(m, Run(m, s, v)).Some?;
    RunConcat(m, b, w, v);
    var k := HasDistance(m, b, w + v);
    var e: seq<Byte> := [];
    assert ReachedOn(m, b, e);
  }

  /** The distances of the kept states, moved down to their new places. */
  method CompactDistances(visited: seq<bool>, sed: array<int>, n: nat) returns (dist: array<nat>)
    requires |visited| == sed.Length && n == Rank(visited, |visited|)
    requires forall s :: 0 <= s < |visited| && visited[s] ==> sed[s] >= 0
    ensures fresh(dist) && dist.Length == n
    ensures forall s: nat :: s < |visited| && visited[s] ==> Rank(visited, s) < n && dist[Rank(visited, s)] == sed[s]
  {
    dist := new nat[n](_ => 0);
    var dst := 0;
    for src := 0 to |visited|
      invariant dst == Rank(visited, src) && dst <= n
      invariant forall s: nat :: s < src && visited[s] ==> Rank(visited, s) < dst && dist[Rank(visited, s)] == sed[s]
    {
      RankMonotone(visited, src + 1, |visited|);
      if visited[src] {
        dist[dst] := sed[src];
        dst := dst + 1;
      }
    }
  }

  /** `d` is what is left of `m`; the marks are on the states that were kept. */
  ghost predicate IsTrimmed(m: Fsm, visited: seq<bool>, d: Fsm) {
    IsSwept(m, visited, d) && exists sed :: MarkedExactly(m, visited, sed)
  }

  /** The states without an edge set, under their new numbers. */
  function KeptNulls(visited: seq<bool>, nulls: set<nat>): set<nat> {
    set s | s in nulls && s < |visited| && visited[s] :: Rank(visited, s)
  }

  /** Trimming makes no twins. */
  lemma TrimmedTwins(m: Fsm, visited: seq<bool>, sed: seq<int>, d: Fsm, nulls: set<nat>, x: nat, y: nat)
    requires IsDfa(m) && IsDfa(d) && IsSwept(m, visited, d) && |visited| < NO_STATE && MarkedExactly(m, visited, sed)
    requires AreTwins(d, KeptNulls(visited, nulls), x, y)
    ensures exists s, t: nat :: AreTwins(m, nulls, s, t)
  {
    var s :| s in nulls && s < |visited| && visited[s] && Rank(visited, s) == x;
    var t := RankOnto(visited, |visited|, y);
    assert Swept(m, visited, s, d.states[x], |d.states|) && Swept(m, visited, t, d.states[y], |d.states|);
    if LeadsOn(m, t) {
      var w: seq<Byte> :| w != [] && Observe(m, Run(m, t, w)).Some?;
      SweptObserves(m, visited, sed, d, t, w);
    }
    assert AreTwins(m, nulls, s, t);
  }

  lemma TrimmedNulls(m: Fsm, visited: seq<bool>, sed: seq<int>, d: Fsm, nulls: set<nat>)
    requires IsDfa(m) && IsDfa(d) && IsSwept(m, visited, d) && |visited| < NO_STATE && MarkedExactly(m, visited, sed)
    requires NullsOf(m, nulls)
    ensures NullsOf(d, KeptNulls(visited, nulls))
    ensures NoTwins(m, nulls) ==> NoTwins(d, KeptNulls(visited, nulls))
  {
    forall k | k in KeptNulls(visited, nulls)
      ensures k < |d.states| && d.states[k].edges == []
    {
      var s :| s in nulls && s < |visited| && visited[s] && Rank(visited, s) == k;
      assert Swept(m, visited, s, d.states[k], |d.states|);
    }
    if x, y: nat :| AreTwins(d, KeptNulls(visited, nulls), x, y) {
      TrimmedTwins(m, visited, sed, d, nulls, x, y);
    }
  }

  /** Trim a DFA and measure how far its states are from an end. */
  /** The states worth keeping. */
  ghost function KeptStates(m: Fsm): (r: set<nat>) {
    set s: nat | s < |m.states| && Kept(m, s)
  }

  /** States that cannot be told apart before trimming, even if each without an edge set were
      different, cannot be told apart afterwards. */
  lemma StrictCarries(m: Fsm, visited: seq<bool>, sed: seq<int>, d: Fsm, nulls: set<nat>, junk: (nat, nat) -> set<Byte>,
                      s: nat, t: nat)
    requires IsDfa(m) && IsDfa(d) && IsSwept(m, visited, d) && |visited| < NO_STATE && MarkedExactly(m, visited, sed)
    requires s < |m.states| && t < |m.states| && visited[s] && visited[t] && StrictlyEquivalent(m, nulls, OwnLabels(), s, t)
    ensures StrictlyEquivalent(d, KeptNulls(visited, nulls), junk, Rank(visited, s), Rank(visited, t))
  {
    var x, y := Rank(visited, s), Rank(visited, t);
    forall w: seq<Byte>
      ensures StrictlyAfter(d, KeptNulls(visited, nulls), junk, x, y, w)
    {
      assert StrictlyAfter(m, nulls, OwnLabels(), s, t, w);
      var a, b := Run(m, s, w), Run(m, t, w);
      if a in nulls || b in nulls {
        OwnApart(nulls, a, b);
      }
      SweptObserves(m, visited, sed, d, s, w);
      SweptObserves(m, visited, sed, d, t, w);
      SweptRun(m, visited, sed, d, s, w);
      SweptRun(m, visited, sed, d, t, w);
      PlacedSame(m, visited, d, nulls, a, b);
    }
  }

  lemma PlacedSame(m: Fsm, visited: seq<bool>, d: Fsm, nulls: set<nat>, a: nat, b: nat)
    requires IsSwept(m, visited, d) && (a in nulls || b in nulls ==> a == b)
    ensures Place(visited, d, a) in KeptNulls(visited, nulls) || Place(visited, d, b) in KeptNulls(visited, nulls) ==>
              Place(visited, d, a) == Place(visited, d, b)
  {
    if Place(visited, d, a) in KeptNulls(visited, nulls) {
      PlacedNull(m, visited, d, nulls, a);
    } else if Place(visited, d, b) in KeptNulls(visited, nulls) {
      PlacedNull(m, visited, d, nulls, b);
    }
  }

  /** A state without an edge set after trimming was one before. */
  lemma PlacedNull(m: Fsm, visited: seq<bool>, d: Fsm, nulls: set<nat>, a: nat)
    requires IsSwept(m, visited, d) && Place(visited, d, a) in KeptNulls(visited, nulls)
    ensures a in nulls
  {
    var s :| s in nulls && s < |visited| && visited[s] && Rank(visited, s) == Place(visited, d, a);
    RankMonotone(visited, s, |visited|);
    if a < s {
      RankMonotone(visited, a, s);
    } else if a < |visited| {
      RankMonotone(visited, s, a);
    }
  }

  ghost function Unranked(visited: seq<bool>, r: nat): (s: nat)
    requires r < Rank(visited, |visited|)
    ensures s < |visited| && visited[s] && Rank(visited, s) == r
  {
    assert exists s :: 0 <= s < |visited| && visited[s] && Rank(visited, s) == r by {
      var s := RankOnto(visited, |visited|, r);
    }
    var s :| 0 <= s < |visited| && visited[s] && Rank(visited, s) == r;
    s
  }

  /** There are no more classes in the trimmed machine than among the states that are kept. */
  lemma AtLeastCarries(m: Fsm, visited: seq<bool>, d: Fsm, nulls: set<nat>, junk: (nat, nat) -> set<Byte>, n: nat)
    requires IsDfa(m) && IsDfa(d) && IsTrimmed(m, visited, d) && |visited| < NO_STATE
    requires AtLeast(d, KeptNulls(visited, nulls), junk, Below(|d.states|), n)
    ensures AtLeast(m, nulls, OwnLabels(), KeptStates(m), n)
  {
    var sed :| MarkedExactly(m, visited, sed);
    forall f: seq<nat>, c: nat | PartsStrictly(m, nulls, OwnLabels(), KeptStates(m), f, c)
      ensures n <= c
    {
      var h := KeptNumbers(m, visited, sed, d, f, c);
      PartsCarry(m, visited, sed, d, nulls, junk, f, c, h);
    }
  }

  lemma PartsCarry(m: Fsm, visited: seq<bool>, sed: seq<int>, d: Fsm, nulls: set<nat>, junk: (nat, nat) -> set<Byte>,
                   f: seq<nat>, c: nat, h: seq<nat>)
    requires IsDfa(m) && IsDfa(d) && IsSwept(m, visited, d) && |visited| < NO_STATE && MarkedExactly(m, visited, sed)
    requires PartsStrictly(m, nulls, OwnLabels(), KeptStates(m), f, c) && |h| == |d.states|
    requires forall x :: 0 <= x < |h| ==> Unranked(visited, x) < |f| && h[x] == f[Unranked(visited, x)] < c
    ensures PartsStrictly(d, KeptNulls(visited, nulls), junk, Below(|d.states|), h, c)
  {
    forall x, y | x in Below(|d.states|) && y in Below(|d.states|) && h[x] == h[y]
      ensures StrictlyEquivalent(d, KeptNulls(visited, nulls), junk, x, y)
    {
      PartCarries(m, visited, sed, d, nulls, junk, f, c, x, y);
    }
  }

  lemma PartCarries(m: Fsm, visited: seq<bool>, sed: seq<int>, d: Fsm, nulls: set<nat>, junk: (nat, nat) -> set<Byte>,
                    f: seq<nat>, c: nat, x: nat, y: nat)
    requires IsDfa(m) && IsDfa(d) && IsSwept(m, visited, d) && |visited| < NO_STATE && MarkedExactly(m, visited, sed)
    requires PartsStrictly(m, nulls, OwnLabels(), KeptStates(m), f, c) && x < |d.states| && y < |d.states|
    requires var s, t := Unranked(visited, x), Unranked(visited, y); s < |f| && t < |f| && f[s] == f[t]
    ensures StrictlyEquivalent(d, KeptNulls(visited, nulls), junk, x, y)
  {
    var s, t := Unranked(visited, x), Unranked(visited, y);
    assert s in KeptStates(m) && t in KeptStates(m);
    StrictCarries(m, visited, sed, d, nulls, junk, s, t);
  }

  /** The numbers of the kept states, in the order of their new numbers. */
  lemma KeptNumbers(m: Fsm, visited: seq<bool>, sed: seq<int>, d: Fsm, f: seq<nat>, c: nat) returns (h: seq<nat>)
    requires IsSwept(m, visited, d) && MarkedExactly(m, visited, sed)
    requires forall s :: s in KeptStates(m) ==> s < |f| && f[s] < c
    ensures |h| == |d.states|
    ensures forall x :: 0 <= x < |h| ==> Unranked(visited, x) < |f| && h[x] == f[Unranked(visited, x)] < c
  {
    forall x: nat | x < |d.states|
      ensures Unranked(visited, x) in KeptStates(m)
    {
    }
    h := seq(|d.states|, x requires 0 <= x < |d.states| && Unranked(visited, x) < |f| => f[Unranked(visited, x)]);
  }

  method FsmTrim(m: Fsm, nulls: set<nat>) returns (d: Fsm, dist: array<nat>, nulls': set<nat>, ghost marks: seq<bool>)
    requires IsDfa(m) && |m.states| < NO_STATE && forall s :: 0 <= s < |m.states| ==> Tidy(m.states[s].edges)
    requires NullsOf(m, nulls)
    ensures IsDfa(d) && SameOutcomes(m, d) && AllReachable(d) && ExactDistances(d, dist[..])
    ensures |d.states| <= |m.states| && IsTrimmed(m, marks, d)
    ensures nulls' == KeptNulls(marks, nulls) && NullsOf(d, nulls') && (NoTwins(m, nulls) ==> NoTwins(d, nulls'))
  {
    if |m.states| == 0 {
      dist := new nat[0];
      assert MarkedExactly(m, [], []);
      return m, dist, {}, [];
    }
    var visited := new bool[|m.states|](_ => false);
    var sed := new int[|m.states|](_ => NO_END_DISTANCE);
    MarkStates(m, visited, sed);
    var kept := visited[..];
    marks := kept;
    ghost var far := sed[..];
    var n := CountKept(kept);
    dist := CompactDistances(kept, sed, n);
    d := SweepStates(m, kept);
    SweptTrimmed(m, kept, far, d, dist[..]);
    nulls' := KeptNulls(kept, nulls);
    TrimmedNulls(m, kept, far, d, nulls);
  }
}
