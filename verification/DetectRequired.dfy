/** Finding the characters that every match must contain: a backtracking search over the
simple paths from the start, which intersects what the paths to end states need. */
module DetectRequired {
  import opened Automata
  import opened Finite
  import opened Guard
  import opened Paths
  import opened Effort
  import opened Tour

  datatype Frame = Frame(state: nat, lbl: Option<Byte>, next: nat)

  datatype Result = Misuse | StepLimitReached | Written(charmap: set<Byte>, count: nat)

  // ----- what is to be found -----

  ghost predicate Accepted(m: Fsm, w: seq<Byte>) {
    m.start.Some? && Observe(m, Run(m, m.start.value, w)).Some?
  }

  /** `c` occurs in every accepted string. */
  ghost predicate Required(m: Fsm, c: Byte) {
    forall w: seq<Byte> :: Accepted(m, w) ==> c in w
  }

  ghost predicate AllNeed(m: Fsm, c: Byte) {
    forall q :: Accepting(m, q) ==> Needs(m, q, c)
  }

  /** Loop erasure: every accepted string follows a simple accepting path. */
  lemma AcceptedFollows(m: Fsm, w: seq<Byte>) returns (q: seq<nat>)
    requires IsDfa(m) && Accepted(m, w)
    ensures Accepting(m, q)
    ensures forall c :: Needs(m, q, c) ==> c in w
  {
    var p := RunPath(m, m.start.value, w);
    q := EraseLoops(m, p);
    forall c | Needs(m, q, c)
      ensures c in w
    {
      NeededOccurs(m, p, w, q, c);
    }
  }

  /** A simple accepting path that can do without `c` gives an accepted string without it. */
  lemma AcceptingSpelled(m: Fsm, q: seq<nat>, c: Byte) returns (w: seq<Byte>)
    requires IsDfa(m) && Accepting(m, q) && !Needs(m, q, c)
    ensures Accepted(m, w) && c !in w
  {
    w := AvoidingWord(m, q, c);
    SpellsRun(m, q, w);
  }

  lemma AcceptingExists(m: Fsm, q: seq<nat>) returns (w: seq<Byte>)
    requires IsDfa(m) && Accepting(m, q)
    ensures Accepted(m, w)
  {
    w := AnyWord(m, q);
    SpellsRun(m, q, w);
  }

  /** The symbols needed by all simple accepting paths are those of all accepted strings. */
  lemma NeededIsRequired(m: Fsm, c: Byte)
    requires IsDfa(m)
    ensures AllNeed(m, c) <==> Required(m, c)
  {
    if AllNeed(m, c) {
      forall w: seq<Byte> | Accepted(m, w)
        ensures c in w
      {
        var q := AcceptedFollows(m, w);
      }
    } else {
      var q :| Accepting(m, q) && !Needs(m, q, c);
      var w := AcceptingSpelled(m, q, c);
    }
  }

  // ----- the stack -----

  function PathOf(stack: seq<Frame>): (p: seq<nat>)
    ensures |p| == |stack| && forall k :: 0 <= k < |p| ==> p[k] == stack[k].state
  {
    seq(|stack|, k requires 0 <= k < |stack| => stack[k].state)
  }

  ghost predicate IsOnly(s: set<Byte>, o: Option<Byte>) {
    match o
    case Some(c) => s == {c}
    case None => forall c :: s != {c}
  }

  ghost predicate StackOk(m: Fsm, stack: seq<Frame>) {
    && m.start.Some? && Distinct(PathOf(stack))
    && (forall k :: 0 <= k < |stack| ==> FrameOk(m, stack, k))
  }

  /** Each frame but the first was entered over the last edge tried from the one below it. */
  ghost predicate FrameOk(m: Fsm, stack: seq<Frame>, k: nat)
    requires k < |stack| && m.start.Some?
  {
    var f := stack[k];
    && f.state < |m.states| && f.next <= |m.states[f.state].edges|
    && (k == 0 ==> f.state == m.start.value && f.lbl == None)
    && (k > 0 ==> Joined(m, stack[k - 1].state, f.state) && IsOnly(Between(m, stack[k - 1].state, f.state), f.lbl))
    && (k > 0 ==> LastTried(m, stack[k - 1], f.state))
  }

  ghost predicate LastTried(m: Fsm, f: Frame, v: nat) {
    f.state < |m.states| && 0 < f.next <= |m.states[f.state].edges| && m.states[f.state].edges[f.next - 1].to == v
  }

  lemma StackIsPath(m: Fsm, stack: seq<Frame>)
    requires StackOk(m, stack) && stack != []
    ensures IsPath(m, PathOf(stack)) && PathOf(stack)[0] == m.start.value
    ensures |stack| <= |m.states|
  {
    var p := PathOf(stack);
    forall k | 0 <= k < |p|
      ensures p[k] < |m.states|
    {
      assert FrameOk(m, stack, k);
    }
    assert FrameOk(m, stack, 0);
    forall k | 0 <= k < |p| - 1
      ensures JoinedAt(m, p, k)
    {
      assert FrameOk(m, stack, k + 1);
    }
    DistinctBelow(p, |m.states|);
  }

  function Count(stack: seq<Frame>, c: Byte): (n: nat) {
    if stack == [] then 0
    else Count(stack[..|stack| - 1], c) + if stack[|stack| - 1].lbl == Some(c) then 1 else 0
  }

  /** `counts` and `current` record the single labels on the stack. */
  ghost predicate Tallied(stack: seq<Frame>, counts: seq<nat>, current: set<Byte>) {
    && |counts| == 256
    && (forall c: Byte :: counts[c] == Count(stack, c))
    && (forall c: Byte :: c in current <==> counts[c] > 0)
  }

  ghost predicate Visiting(stack: seq<Frame>, visited: seq<bool>) {
    forall s :: 0 <= s < |visited| ==> (visited[s] <==> s in PathOf(stack))
  }

  lemma {:induction false} CountLabel(stack: seq<Frame>, c: Byte)
    ensures Count(stack, c) > 0 <==> exists k :: 0 <= k < |stack| && stack[k].lbl == Some(c)
    decreases |stack|
  {
    if stack != [] {
      CountLabel(stack[..|stack| - 1], c);
    }
  }

  /** What is tallied is what the path on the stack needs. */
  lemma CurrentNeeds(m: Fsm, stack: seq<Frame>, c: Byte)
    requires StackOk(m, stack)
    ensures Count(stack, c) > 0 <==> Needs(m, PathOf(stack), c)
  {
    CountLabel(stack, c);
    var p := PathOf(stack);
    if Count(stack, c) > 0 {
      var k :| 0 <= k < |stack| && stack[k].lbl == Some(c);
      assert FrameOk(m, stack, k);
      assert OnlyAt(m, p, k - 1, c);
    }
    if Needs(m, p, c) {
      var k :| 0 <= k < |p| - 1 && OnlyAt(m, p, k, c);
      assert FrameOk(m, stack, k + 1);
    }
  }

  lemma {:induction false} CountRetop(stack: seq<Frame>, next: nat, c: Byte)
    requires stack != []
    ensures Count(Retop(stack, next), c) == Count(stack, c)
  {
    var t := |stack| - 1;
    assert Retop(stack, next)[..t] == stack[..t];
  }

  /** The stack with the iterator of its top frame moved on. */
  function Retop(stack: seq<Frame>, next: nat): (r: seq<Frame>)
    requires stack != []
    ensures |r| == |stack| && PathOf(r) == PathOf(stack)
  {
    stack[|stack| - 1 := stack[|stack| - 1].(next := next)]
  }

  lemma RetopOk(m: Fsm, stack: seq<Frame>, next: nat)
    requires StackOk(m, stack) && stack != []
    requires stack[|stack| - 1].state < |m.states| && next <= |m.states[stack[|stack| - 1].state].edges|
    ensures StackOk(m, Retop(stack, next))
  {
    var r := Retop(stack, next);
    forall k | 0 <= k < |r|
      ensures FrameOk(m, r, k)
    {
      assert FrameOk(m, stack, k);
    }
  }

  lemma PushOk(m: Fsm, stack: seq<Frame>, f: Frame)
    requires StackOk(m, stack) && stack != [] && f.state !in PathOf(stack)
    requires f.state < |m.states| && f.next <= |m.states[f.state].edges|
    requires var u := stack[|stack| - 1].state; Joined(m, u, f.state) && IsOnly(Between(m, u, f.state), f.lbl)
    requires LastTried(m, stack[|stack| - 1], f.state)
    ensures StackOk(m, stack + [f])
    ensures PathOf(stack + [f]) == PathOf(stack) + [f.state]
  {
    var r := stack + [f];
    assert PathOf(r) == PathOf(stack) + [f.state];
    forall k | 0 <= k < |r|
      ensures FrameOk(m, r, k)
    {
      if k < |stack| {
        assert FrameOk(m, stack, k);
      }
    }
  }

  lemma PopOk(m: Fsm, stack: seq<Frame>)
    requires StackOk(m, stack) && stack != []
    ensures StackOk(m, stack[..|stack| - 1])
    ensures PathOf(stack) == PathOf(stack[..|stack| - 1]) + [stack[|stack| - 1].state]
  {
    var r := stack[..|stack| - 1];
    assert PathOf(stack) == PathOf(r) + [stack[|stack| - 1].state];
    forall k | 0 <= k < |r|
      ensures FrameOk(m, r, k)
    {
      assert FrameOk(m, stack, k);
    }
    forall i, j | 0 <= i < j < |r|
      ensures PathOf(r)[i] != PathOf(r)[j]
    {
      assert PathOf(stack)[i] != PathOf(stack)[j];
    }
  }

  // ----- what is still to be searched -----

  /** `q` leaves the path on the stack at level `k` over an edge not tried yet. */
  ghost predicate PendingAt(m: Fsm, stack: seq<Frame>, q: seq<nat>, k: nat) {
    && k < |stack| && k + 1 < |q| && stack[k].state < |m.states|
    && q[..k + 1] == PathOf(stack)[..k + 1]
    && Untried(m.states[stack[k].state].edges, stack[k].next, q[k + 1])
  }

  ghost predicate Pending(m: Fsm, stack: seq<Frame>, q: seq<nat>) {
    exists k: nat :: PendingAt(m, stack, q, k)
  }

  /** Below the top, edges not tried yet lead to larger states than the one on the stack. */
  lemma UntriedLarger(m: Fsm, stack: seq<Frame>, k: nat)
    requires WellFormed(m) && StackOk(m, stack) && k + 1 < |stack|
    ensures stack[k].state < |m.states|
    ensures forall v: nat :: Untried(m.states[stack[k].state].edges, stack[k].next, v) <==>
                        Joined(m, stack[k].state, v) && stack[k + 1].state < v
  {
    assert FrameOk(m, stack, k) && FrameOk(m, stack, k + 1);
    var f, es := stack[k], m.states[stack[k].state].edges;
    forall v: nat
      ensures Untried(es, f.next, v) <==> Joined(m, f.state, v) && stack[k + 1].state < v
    {
      if Untried(es, f.next, v) {
        var g :| f.next <= g < |es| && es[g].to == v && es[g].symbols != {};
        LabelsOfGroup(es, g);
      }
      if Joined(m, f.state, v) && stack[k + 1].state < v {
        var g := JoiningGroup(m, f.state, v);
        assert f.next <= g;
      }
    }
  }

  /** Where only levels below the top matter, moving the top's iterator changes nothing. */
  lemma PendingBelow(m: Fsm, stack: seq<Frame>, r: seq<Frame>, q: seq<nat>, k: nat)
    requires PendingAt(m, stack, q, k) && k < |r| && r[k] == stack[k]
    requires PathOf(r)[..k + 1] == PathOf(stack)[..k + 1]
    ensures Pending(m, r, q)
  {
    assert PendingAt(m, r, q, k);
  }

  /** `q` goes on from the path on the stack to `v`. */
  ghost predicate GoesTo(stack: seq<Frame>, q: seq<nat>, v: nat) {
    |stack| < |q| && q[..|stack|] == PathOf(stack) && q[|stack|] == v
  }

  /** Of what was pending, moving past group `j` takes away what goes on over it. */
  lemma RetopPending(m: Fsm, stack: seq<Frame>, j: nat, q: seq<nat>)
    requires WellFormed(m) && StackOk(m, stack) && stack != []
    requires var f := stack[|stack| - 1]; f.state < |m.states| && f.next <= j < |m.states[f.state].edges|
    requires var f := stack[|stack| - 1]; NoEdges(m.states[f.state].edges, f.next, j)
    requires m.states[stack[|stack| - 1].state].edges[j].symbols != {}
    ensures Pending(m, stack, q) <==>
            Pending(m, Retop(stack, j + 1), q) || GoesTo(stack, q, m.states[stack[|stack| - 1].state].edges[j].to)
  {
    var t, r := |stack| - 1, Retop(stack, j + 1);
    var es := m.states[stack[t].state].edges;
    assert PathOf(stack)[..t + 1] == PathOf(stack);
    UntriedStep(es, stack[t].next, j);
    if Pending(m, stack, q) {
      var k: nat :| PendingAt(m, stack, q, k);
      if k < t {
        PendingBelow(m, stack, r, q, k);
      } else if q[t + 1] != es[j].to {
        assert PendingAt(m, r, q, t);
      }
    }
    if Pending(m, r, q) || GoesTo(stack, q, es[j].to) {
      RetopAddsNothing(m, stack, j, q);
    }
  }

  lemma RetopAddsNothing(m: Fsm, stack: seq<Frame>, j: nat, q: seq<nat>)
    requires stack != []
    requires var f := stack[|stack| - 1]; f.state < |m.states| && f.next <= j < |m.states[f.state].edges|
    requires m.states[stack[|stack| - 1].state].edges[j].symbols != {}
    requires Pending(m, Retop(stack, j + 1), q) || GoesTo(stack, q, m.states[stack[|stack| - 1].state].edges[j].to)
    ensures Pending(m, stack, q)
  {
    var t, r := |stack| - 1, Retop(stack, j + 1);
    assert PathOf(stack)[..t + 1] == PathOf(stack);
    if Pending(m, r, q) {
      var k: nat :| PendingAt(m, r, q, k);
      if k < t {
        PendingBelow(m, r, stack, q, k);
      } else {
        assert PendingAt(m, stack, q, t);
      }
    } else {
      assert PendingAt(m, stack, q, t);
    }
  }

  /** What goes on over group `j` is not pending beside it. */
  lemma RetopTaken(m: Fsm, stack: seq<Frame>, j: nat, q: seq<nat>)
    requires WellFormed(m) && StackOk(m, stack) && stack != []
    requires var f := stack[|stack| - 1]; f.state < |m.states| && f.next <= j < |m.states[f.state].edges|
    requires GoesTo(stack, q, m.states[stack[|stack| - 1].state].edges[j].to)
    ensures !Pending(m, Retop(stack, j + 1), q)
  {
    var t, r := |stack| - 1, Retop(stack, j + 1);
    forall k: nat
      ensures !PendingAt(m, r, q, k)
    {
      if k < t {
        UntriedLarger(m, stack, k);
        assert q[k + 1] == q[..|stack|][k + 1];
      }
    }
  }

  /** A longer path through the top state has to leave it over some edge. */
  lemma PendingOnTop(m: Fsm, stack: seq<Frame>, q: seq<nat>)
    requires WellFormed(m) && IsPath(m, q) && stack != [] && stack[|stack| - 1].next == 0
    requires |stack| < |q| && q[..|stack|] == PathOf(stack)
    ensures Pending(m, stack, q)
  {
    var t := |stack| - 1;
    assert q[t] == q[..|stack|][t] && PathOf(stack)[..t + 1] == PathOf(stack);
    assert JoinedAt(m, q, t);
    var g := JoiningGroup(m, q[t], q[t + 1]);
    assert PendingAt(m, stack, q, t);
  }

  /** Entering a state adds what goes on from there. */
  lemma PushPending(m: Fsm, stack: seq<Frame>, f: Frame, q: seq<nat>)
    requires WellFormed(m) && IsPath(m, q) && f.next == 0
    ensures Pending(m, stack + [f], q) <==> Pending(m, stack, q) || PathOf(stack) + [f.state] < q
  {
    var r, n := stack + [f], |stack|;
    assert PathOf(r) == PathOf(stack) + [f.state];
    if Pending(m, r, q) {
      var k: nat :| PendingAt(m, r, q, k);
      if k < n {
        assert PathOf(r)[..k + 1] == PathOf(stack)[..k + 1];
        PendingBelow(m, r, stack, q, k);
      } else {
        assert PathOf(r)[..k + 1] == PathOf(r);
      }
    }
    if Pending(m, stack, q) {
      var k: nat :| PendingAt(m, stack, q, k);
      assert PathOf(r)[..k + 1] == PathOf(stack)[..k + 1];
      PendingBelow(m, stack, r, q, k);
    }
    if PathOf(r) < q {
      PendingOnTop(m, r, q);
    }
  }

  /** Leaving a state without untried edges takes nothing away. */
  lemma PopPending(m: Fsm, stack: seq<Frame>, q: seq<nat>)
    requires stack != []
    requires var t := stack[|stack| - 1]; t.state < |m.states| && NoEdges(m.states[t.state].edges, t.next, |m.states[t.state].edges|)
    ensures Pending(m, stack, q) <==> Pending(m, stack[..|stack| - 1], q)
  {
    var r := stack[..|stack| - 1];
    assert PathOf(r) == PathOf(stack)[..|r|];
    if Pending(m, stack, q) {
      var k: nat :| PendingAt(m, stack, q, k);
      assert PathOf(r)[..k + 1] == PathOf(stack)[..k + 1];
      PendingBelow(m, stack, r, q, k);
    }
    if Pending(m, r, q) {
      var k: nat :| PendingAt(m, r, q, k);
      assert PathOf(r)[..k + 1] == PathOf(stack)[..k + 1];
      PendingBelow(m, r, stack, q, k);
    }
  }

  /** The path on the stack is not pending. */
  lemma StackNotPending(m: Fsm, stack: seq<Frame>)
    requires WellFormed(m) && StackOk(m, stack)
    ensures !Pending(m, stack, PathOf(stack))
  {
    forall k: nat
      ensures !PendingAt(m, stack, PathOf(stack), k)
    {
      if k + 1 < |stack| {
        UntriedLarger(m, stack, k);
      }
    }
  }

  // ----- what the search knows -----

  ghost predicate Covered(m: Fsm, overall: set<Byte>, q: seq<nat>) {
    forall c :: c in overall ==> Needs(m, q, c)
  }

  /** An accepting path that is not ahead any more. */
  ghost predicate Met(m: Fsm, stack: seq<Frame>, q: seq<nat>) {
    Accepting(m, q) && !Pending(m, stack, q)
  }

  ghost predicate SomeAvoids(m: Fsm, stack: seq<Frame>, c: Byte) {
    exists q :: Met(m, stack, q) && !Needs(m, q, c)
  }

  /** No accepting path was met yet, or `overall` is what is needed by all that were. */
  ghost predicate Witnessed(m: Fsm, stack: seq<Frame>, overall: set<Byte>, first: bool) {
    if first then overall == {}
    else (exists q :: Met(m, stack, q)) && forall c: Byte :: c !in overall ==> SomeAvoids(m, stack, c)
  }

  /** Every accepting path is either still ahead or needs all of `overall`. */
  ghost predicate Searched(m: Fsm, stack: seq<Frame>, overall: set<Byte>, first: bool) {
    forall b {:trigger Look(b)} :: Look(b) ==>
      && Witnessed(m, stack, overall, first)
      && (forall q :: Accepting(m, q) ==> Pending(m, stack, q) || (!first && Covered(m, overall, q)))
  }

  /** What was met stays met. */
  lemma StillWitnessed(m: Fsm, stack: seq<Frame>, r: seq<Frame>, overall: set<Byte>, first: bool)
    requires Witnessed(m, stack, overall, first)
    requires forall q :: Met(m, stack, q) ==> Met(m, r, q)
    ensures Witnessed(m, r, overall, first)
  {
    forall c: Byte | SomeAvoids(m, stack, c)
      ensures SomeAvoids(m, r, c)
    {
      var q :| Met(m, stack, q) && !Needs(m, q, c);
      assert Met(m, r, q);
    }
    if !first {
      var q :| Met(m, stack, q);
      assert Met(m, r, q);
    }
  }

  lemma SearchBegins(m: Fsm, f: Frame)
    requires WellFormed(m) && m.start.Some? && f == Frame(m.start.value, None, 0) && !m.states[m.start.value].end
    ensures StackOk(m, [f]) && Searched(m, [f], {}, true)
  {
    forall q | Accepting(m, q)
      ensures Pending(m, [f], q)
    {
      assert |q| > 1 && q[..1] == PathOf([f]);
      PendingOnTop(m, [f], q);
    }
  }

  /** Passing over an edge into a state on the path loses no simple path. */
  lemma SkipSearched(m: Fsm, stack: seq<Frame>, overall: set<Byte>, first: bool, j: nat)
    requires WellFormed(m) && StackOk(m, stack) && stack != [] && Searched(m, stack, overall, first)
    requires var f := stack[|stack| - 1]; f.state < |m.states| && f.next <= j < |m.states[f.state].edges|
    requires var f := stack[|stack| - 1]; NoEdges(m.states[f.state].edges, f.next, j)
    requires m.states[stack[|stack| - 1].state].edges[j].symbols != {}
    requires m.states[stack[|stack| - 1].state].edges[j].to in PathOf(stack)
    ensures Searched(m, Retop(stack, j + 1), overall, first)
  {
    assert Look(true);
    var r, v := Retop(stack, j + 1), m.states[stack[|stack| - 1].state].edges[j].to;
    forall q | Accepting(m, q)
      ensures Pending(m, r, q) <==> Pending(m, stack, q)
    {
      RetopPending(m, stack, j, q);
      NotThrough(stack, q, v);
    }
    StillWitnessed(m, stack, r, overall, first);
  }

  lemma RevisitNotSimple(q: seq<nat>, p: seq<nat>, v: nat)
    requires |p| < |q| && q[..|p|] == p && q[|p|] == v && v in p
    ensures !Distinct(q)
  {
    var i :| 0 <= i < |p| && p[i] == v;
    assert q[i] == q[..|p|][i];
  }

  /** Entering a state: just the path now on the stack is no longer pending. */
  lemma EnterPending(m: Fsm, stack: seq<Frame>, j: nat, f: Frame, q: seq<nat>)
    requires WellFormed(m) && StackOk(m, stack) && stack != [] && IsPath(m, q)
    requires var t := stack[|stack| - 1]; t.state < |m.states| && t.next <= j < |m.states[t.state].edges|
    requires var t := stack[|stack| - 1]; NoEdges(m.states[t.state].edges, t.next, j) && f.state == m.states[t.state].edges[j].to
    requires m.states[stack[|stack| - 1].state].edges[j].symbols != {} && f.next == 0
    ensures Pending(m, Retop(stack, j + 1) + [f], q) <==> Pending(m, stack, q) && q != PathOf(stack) + [f.state]
  {
    var r, p, n := Retop(stack, j + 1), PathOf(stack), |stack|;
    RetopPending(m, stack, j, q);
    PushPending(m, r, f, q);
    if GoesTo(stack, q, f.state) {
      assert q[..n + 1] == q[..n] + [q[n]];
      assert |q| == n + 1 ==> q == q[..n + 1];
      RetopTaken(m, stack, j, q);
    }
    if p + [f.state] < q {
      assert q[..n] == (p + [f.state])[..n] == p;
      assert GoesTo(stack, q, f.state);
    }
    if q == p + [f.state] {
      assert q[..n] == p;
      assert GoesTo(stack, q, f.state);
    }
  }

  /** What `overall` becomes when the path on the stack has reached an end state. */
  function Intersected(overall: set<Byte>, first: bool, current: set<Byte>): (r: set<Byte>) {
    if first then current else overall * current
  }

  ghost predicate CurrentOf(m: Fsm, p: seq<nat>, current: set<Byte>) {
    forall c: Byte :: c in current <==> Needs(m, p, c)
  }

  lemma MetEnd(m: Fsm, r: seq<Frame>, p: seq<nat>, overall: set<Byte>, first: bool, current: set<Byte>)
    requires Witnessed(m, r, overall, first) && Met(m, r, p) && CurrentOf(m, p, current)
    ensures Witnessed(m, r, Intersected(overall, first, current), false)
    ensures Covered(m, Intersected(overall, first, current), p)
    ensures forall q :: !first && Covered(m, overall, q) ==> Covered(m, Intersected(overall, first, current), q)
  {
    forall c: Byte | c !in current
      ensures SomeAvoids(m, r, c)
    {
      assert Met(m, r, p) && !Needs(m, p, c);
    }
  }

  /** Entering a state, and taking the path into account if it is an end state. */
  lemma EnterSearched(m: Fsm, stack: seq<Frame>, overall: set<Byte>, first: bool, j: nat, f: Frame, current: set<Byte>)
    requires WellFormed(m) && StackOk(m, stack) && stack != [] && Searched(m, stack, overall, first)
    requires var t := stack[|stack| - 1]; t.state < |m.states| && t.next <= j < |m.states[t.state].edges|
    requires var t := stack[|stack| - 1]; NoEdges(m.states[t.state].edges, t.next, j) && f.state == m.states[t.state].edges[j].to
    requires m.states[stack[|stack| - 1].state].edges[j].symbols != {}
    requires f.next == 0 && StackOk(m, Retop(stack, j + 1) + [f])
    requires CurrentOf(m, PathOf(Retop(stack, j + 1) + [f]), current)
    ensures f.state < |m.states|
    ensures m.states[f.state].end ==>
              Searched(m, Retop(stack, j + 1) + [f], Intersected(overall, first, current), false)
    ensures !m.states[f.state].end ==> Searched(m, Retop(stack, j + 1) + [f], overall, first)
  {
    assert Look(true);
    var r := Retop(stack, j + 1) + [f];
    var p := PathOf(r);
    assert p == PathOf(stack) + [f.state];
    StackIsPath(m, r);
    forall q | Accepting(m, q)
      ensures Pending(m, r, q) <==> Pending(m, stack, q) && q != p
    {
      EnterPending(m, stack, j, f, q);
    }
    StillWitnessed(m, stack, r, overall, first);
    if m.states[f.state].end {
      assert Met(m, r, p);
      MetEnd(m, r, p, overall, first, current);
    }
  }

  /** A state without untried edges is done. */
  lemma LeaveSearched(m: Fsm, stack: seq<Frame>, overall: set<Byte>, first: bool)
    requires StackOk(m, stack) && stack != [] && Searched(m, stack, overall, first)
    requires var t := stack[|stack| - 1]; t.state < |m.states| && NoEdges(m.states[t.state].edges, t.next, |m.states[t.state].edges|)
    ensures Searched(m, stack[..|stack| - 1], overall, first)
  {
    assert Look(true);
    var r := stack[..|stack| - 1];
    forall q | Accepting(m, q)
      ensures Pending(m, r, q) <==> Pending(m, stack, q)
    {
      PopPending(m, stack, q);
    }
    StillWitnessed(m, stack, r, overall, first);
  }

  /** What the search has established when it ends, either way. */
  ghost predicate Finished(m: Fsm, overall: set<Byte>) {
    && ((exists w: seq<Byte> :: Accepted(m, w)) ==> forall c: Byte :: c in overall <==> Required(m, c))
    && ((forall w: seq<Byte> :: !Accepted(m, w)) ==> overall == {})
  }

  ghost predicate Done(m: Fsm, overall: set<Byte>) {
    forall b {:trigger Look(b)} :: Look(b) ==> Finished(m, overall)
  }

  lemma DoneFinished(m: Fsm, overall: set<Byte>)
    requires Done(m, overall)
    ensures Finished(m, overall)
  {
    assert Look(true);
  }

  lemma WitnessedFinishes(m: Fsm, stack: seq<Frame>, overall: set<Byte>, first: bool)
    requires IsDfa(m) && Witnessed(m, stack, overall, first)
    requires forall q :: Accepting(m, q) ==> !first && Covered(m, overall, q)
    ensures Finished(m, overall)
  {
    if w0: seq<Byte> :| Accepted(m, w0) {
      var q0 := AcceptedFollows(m, w0);
      forall c: Byte
        ensures c in overall <==> Required(m, c)
      {
        NeededIsRequired(m, c);
        if c !in overall {
          assert SomeAvoids(m, stack, c);
        }
      }
    } else if !first {
      var q :| Met(m, stack, q);
      var w := AcceptingExists(m, q);
    }
  }

  lemma ExhaustedFinishes(m: Fsm, overall: set<Byte>, first: bool)
    requires IsDfa(m) && Searched(m, [], overall, first)
    ensures Done(m, overall)
  {
    assert Look(true);
    WitnessedFinishes(m, [], overall, first);
  }

  lemma EmptyFinishes(m: Fsm, stack: seq<Frame>, first: bool)
    requires IsDfa(m) && Searched(m, stack, {}, first) && !first
    ensures Done(m, {})
  {
    assert Look(true);
    WitnessedFinishes(m, stack, {}, first);
  }

  // ----- how long it can take -----

  /** What a frame still has to do: its untried groups, and leaving. */
  function Unit(m: Fsm, f: Frame): (u: nat) {
    if f.state < |m.states| && f.next <= |m.states[f.state].edges| then |m.states[f.state].edges| - f.next + 1 else 0
  }

  function Units(m: Fsm, stack: seq<Frame>): (us: seq<nat>)
    ensures |us| == |stack|
  {
    seq(|stack|, k requires 0 <= k < |stack| => Unit(m, stack[k]))
  }

  function Work(m: Fsm, stack: seq<Frame>): (w: nat) {
    Weight(Units(m, stack), MaxGroups(m.states) + 2, |m.states|)
  }

  function WorkBound(m: Fsm): (w: nat) {
    Pow(MaxGroups(m.states) + 2, |m.states|)
  }

  lemma WorkRetop(m: Fsm, stack: seq<Frame>, next: nat)
    requires stack != [] && |stack| <= |m.states|
    requires var f := stack[|stack| - 1]; f.state < |m.states| && f.next < next <= |m.states[f.state].edges|
    ensures Work(m, Retop(stack, next)) + LevelWeight(MaxGroups(m.states) + 2, |m.states|, |stack|) <= Work(m, stack)
    ensures Work(m, Retop(stack, next)) < Work(m, stack)
  {
    var t, us := |stack| - 1, Units(m, stack);
    var u := Unit(m, Retop(stack, next)[t]);
    assert Units(m, Retop(stack, next)) == us[t := u];
    WeightLower(us, u, MaxGroups(m.states) + 2, |m.states|);
  }

  lemma WorkPush(m: Fsm, stack: seq<Frame>, f: Frame)
    requires |stack| < |m.states| && f.state < |m.states| && f.next == 0
    ensures Work(m, stack + [f]) < Work(m, stack) + LevelWeight(MaxGroups(m.states) + 2, |m.states|, |stack|)
  {
    assert Units(m, stack + [f]) == Units(m, stack) + [Unit(m, f)];
    WeightPush(Units(m, stack), Unit(m, f), MaxGroups(m.states) + 2, |m.states|);
  }

  lemma WorkPop(m: Fsm, stack: seq<Frame>)
    requires stack != [] && |stack| <= |m.states|
    requires var f := stack[|stack| - 1]; f.state < |m.states| && f.next <= |m.states[f.state].edges|
    ensures Work(m, stack[..|stack| - 1]) < Work(m, stack)
  {
    assert Units(m, stack[..|stack| - 1]) == Units(m, stack)[..|stack| - 1];
    WeightPop(Units(m, stack), MaxGroups(m.states) + 2, |m.states|);
  }

  lemma WorkBegins(m: Fsm, f: Frame)
    requires f.state < |m.states| && f.next == 0
    ensures Work(m, [f]) < WorkBound(m)
  {
    WorkPush(m, [], f);
    assert [] + [f] == [f];
  }

  /** Less is left to do with the stack `a` than with `b`. */
  ghost predicate Lighter(m: Fsm, a: seq<Frame>, b: seq<Frame>) {
    forall x {:trigger Peek(x)} :: Peek(x) ==> Work(m, a) < Work(m, b)
  }

  /** So much less that one more frame can be put on `a`. */
  ghost predicate Roomy(m: Fsm, a: seq<Frame>, b: seq<Frame>) {
    forall x {:trigger Peek(x)} :: Peek(x) ==>
      Work(m, a) + LevelWeight(MaxGroups(m.states) + 2, |m.states|, |a|) <= Work(m, b)
  }

  lemma LighterOpen(m: Fsm, a: seq<Frame>, b: seq<Frame>)
    requires Lighter(m, a, b)
    ensures Work(m, a) < Work(m, b)
  {
    assert Peek(true);
  }

  lemma LighterRetop(m: Fsm, stack: seq<Frame>, next: nat)
    requires stack != [] && |stack| <= |m.states|
    requires var f := stack[|stack| - 1]; f.state < |m.states| && f.next < next <= |m.states[f.state].edges|
    ensures Lighter(m, Retop(stack, next), stack) && Roomy(m, Retop(stack, next), stack)
  {
    WorkRetop(m, stack, next);
  }

  lemma LighterPush(m: Fsm, stack: seq<Frame>, f: Frame, before: seq<Frame>)
    requires |stack| < |m.states| && f.state < |m.states| && f.next == 0 && Roomy(m, stack, before)
    ensures Lighter(m, stack + [f], before)
  {
    assert Peek(true);
    WorkPush(m, stack, f);
  }

  lemma LighterPop(m: Fsm, stack: seq<Frame>)
    requires stack != [] && |stack| <= |m.states|
    requires var f := stack[|stack| - 1]; f.state < |m.states| && f.next <= |m.states[f.state].edges|
    ensures Lighter(m, stack[..|stack| - 1], stack)
  {
    WorkPop(m, stack);
  }

  // ----- how long it does take -----

  /** The event is still to come. */
  ghost predicate Ahead(m: Fsm, stack: seq<Frame>, e: Event) {
    match e
    case Try(q, v) => Pending(m, stack, q + [v])
    case Back(q) => Pending(m, stack, q) || q <= PathOf(stack)
  }

  ghost function Remaining(m: Fsm, stack: seq<Frame>): (es: set<Event>)
    requires WellFormed(m)
  {
    set e | e in AllEvents(m) && Ahead(m, stack, e)
  }

  lemma EventPath(m: Fsm, e: Event)
    requires WellFormed(m) && IsEvent(m, e) && e.Try?
    ensures IsPath(m, e.path + [e.to])
  {
    var x, n := e.path + [e.to], |e.path|;
    var i := JoiningGroup(m, e.path[n - 1], e.to);
    forall k | 0 <= k < |x| - 1
      ensures JoinedAt(m, x, k)
    {
      assert k < n - 1 ==> JoinedAt(m, e.path, k);
    }
  }

  /** At first all is to come, and at last nothing is. */
  lemma AllAhead(m: Fsm, f: Frame)
    requires WellFormed(m) && m.start.Some? && f == Frame(m.start.value, None, 0)
    ensures Remaining(m, [f]) == AllEvents(m) && Remaining(m, []) == {}
  {
    forall e | IsEvent(m, e)
      ensures Ahead(m, [f], e) && !Ahead(m, [], e)
    {
      assert PathOf([f]) == [f.state] && e.path[..1] == [f.state];
      if e.Try? {
        EventPath(m, e);
        assert (e.path + [e.to])[..1] == [f.state];
        PendingOnTop(m, [f], e.path + [e.to]);
      } else if |e.path| > 1 {
        PendingOnTop(m, [f], e.path);
      }
    }
  }

  lemma NotThrough(stack: seq<Frame>, q: seq<nat>, v: nat)
    requires Distinct(q) && v in PathOf(stack)
    ensures !GoesTo(stack, q, v)
  {
    if GoesTo(stack, q, v) {
      RevisitNotSimple(q, PathOf(stack), v);
    }
  }

  lemma GoesToShorter(stack: seq<Frame>, q: seq<nat>, w: nat, v: nat)
    requires |stack| < |q|
    ensures GoesTo(stack, q + [w], v) <==> GoesTo(stack, q, v)
  {
    assert (q + [w])[..|stack|] == q[..|stack|];
  }

  /** Passing over an edge into a state on the path. */
  lemma SkipAhead(m: Fsm, stack: seq<Frame>, j: nat, e: Event)
    requires WellFormed(m) && StackOk(m, stack) && stack != [] && IsEvent(m, e)
    requires var f := stack[|stack| - 1]; f.state < |m.states| && f.next <= j < |m.states[f.state].edges|
    requires var f := stack[|stack| - 1]; NoEdges(m.states[f.state].edges, f.next, j)
    requires m.states[stack[|stack| - 1].state].edges[j].symbols != {}
    requires m.states[stack[|stack| - 1].state].edges[j].to in PathOf(stack)
    ensures Ahead(m, Retop(stack, j + 1), e) <==>
            Ahead(m, stack, e) && e != Try(PathOf(stack), m.states[stack[|stack| - 1].state].edges[j].to)
  {
    var v, p, n := m.states[stack[|stack| - 1].state].edges[j].to, PathOf(stack), |stack|;
    var x := if e.Try? then e.path + [e.to] else e.path;
    RetopPending(m, stack, j, x);
    NotThrough(stack, e.path, v);
    if e.Try? && n < |e.path| {
      GoesToShorter(stack, e.path, e.to, v);
    }
    if GoesTo(stack, x, v) {
      RetopTaken(m, stack, j, x);
      assert e.path == x[..n];
    }
    if e == Try(p, v) {
      assert x[..n] == p;
    }
  }

  /** Following an edge to another state. */
  lemma EnterAhead(m: Fsm, stack: seq<Frame>, j: nat, f: Frame, e: Event)
    requires WellFormed(m) && StackOk(m, stack) && stack != [] && IsEvent(m, e)
    requires var t := stack[|stack| - 1]; t.state < |m.states| && t.next <= j < |m.states[t.state].edges|
    requires var t := stack[|stack| - 1]; NoEdges(m.states[t.state].edges, t.next, j) && f.state == m.states[t.state].edges[j].to
    requires m.states[stack[|stack| - 1].state].edges[j].symbols != {} && f.next == 0
    ensures Ahead(m, Retop(stack, j + 1) + [f], e) <==> Ahead(m, stack, e) && e != Try(PathOf(stack), f.state)
  {
    var p, r := PathOf(stack), Retop(stack, j + 1) + [f];
    assert PathOf(r) == p + [f.state];
    if e.Try? {
      EventPath(m, e);
      EnterPending(m, stack, j, f, e.path + [e.to]);
      if e.path + [e.to] == p + [f.state] {
        assert e.path == (e.path + [e.to])[..|p|];
      }
    } else {
      EnterPending(m, stack, j, f, e.path);
      if e.path <= p + [f.state] && e.path != p + [f.state] {
        assert e.path == (p + [f.state])[..|e.path|] == p[..|e.path|];
      }
      if e.path == p + [f.state] {
        assert e.path[..|p|] == p && GoesTo(stack, e.path, f.state);
        RetopPending(m, stack, j, e.path);
      }
    }
  }

  /** Leaving the state on top. */
  lemma LeaveAhead(m: Fsm, stack: seq<Frame>, e: Event)
    requires WellFormed(m) && StackOk(m, stack) && stack != [] && IsEvent(m, e)
    requires var t := stack[|stack| - 1]; t.state < |m.states| && NoEdges(m.states[t.state].edges, t.next, |m.states[t.state].edges|)
    ensures Ahead(m, stack[..|stack| - 1], e) <==> Ahead(m, stack, e) && e != Back(PathOf(stack))
  {
    var p, r := PathOf(stack), stack[..|stack| - 1];
    PopPending(m, stack, if e.Try? then e.path + [e.to] else e.path);
    PopOk(m, stack);
    StackNotPending(m, stack);
    if e.Back? && e.path <= p && e.path != p {
      assert e.path == p[..|e.path|] == PathOf(r)[..|e.path|];
    }
    if e.Back? && e.path <= PathOf(r) {
      assert e.path == PathOf(r)[..|e.path|] == p[..|e.path|];
    }
  }

  /** One event has happened between the stacks. */
  ghost predicate OneLess(m: Fsm, stack: seq<Frame>, r: seq<Frame>) {
    forall b {:trigger Peek(b)} :: Peek(b) ==> WellFormed(m) && |Remaining(m, r)| + 1 == |Remaining(m, stack)|
  }

  lemma OneEvent(m: Fsm, stack: seq<Frame>, r: seq<Frame>, x: Event)
    requires WellFormed(m) && IsEvent(m, x) && Ahead(m, stack, x)
    requires forall e :: IsEvent(m, e) ==> (Ahead(m, r, e) <==> Ahead(m, stack, e) && e != x)
    ensures OneLess(m, stack, r)
  {
    var a, b := Remaining(m, stack), Remaining(m, r);
    forall e
      ensures e in b <==> e in a - {x}
    {
    }
    assert b == a - {x} && x in a;
  }

  lemma StackIsSimple(m: Fsm, stack: seq<Frame>)
    requires StackOk(m, stack) && stack != []
    ensures SimplePath(m, PathOf(stack))
  {
    StackIsPath(m, stack);
  }

  lemma SkipOneLess(m: Fsm, stack: seq<Frame>, j: nat)
    requires WellFormed(m) && StackOk(m, stack) && stack != []
    requires var f := stack[|stack| - 1]; f.state < |m.states| && f.next <= j < |m.states[f.state].edges|
    requires var f := stack[|stack| - 1]; NoEdges(m.states[f.state].edges, f.next, j)
    requires m.states[stack[|stack| - 1].state].edges[j].symbols != {}
    requires m.states[stack[|stack| - 1].state].edges[j].to in PathOf(stack)
    ensures OneLess(m, stack, Retop(stack, j + 1))
  {
    var x := NextTry(m, stack, j);
    forall e | IsEvent(m, e)
      ensures Ahead(m, Retop(stack, j + 1), e) <==> Ahead(m, stack, e) && e != x
    {
      SkipAhead(m, stack, j, e);
    }
    OneEvent(m, stack, Retop(stack, j + 1), x);
  }

  /** Looking at group `j` is the next event. */
  lemma NextTry(m: Fsm, stack: seq<Frame>, j: nat) returns (x: Event)
    requires WellFormed(m) && StackOk(m, stack) && stack != []
    requires var f := stack[|stack| - 1]; f.state < |m.states| && f.next <= j < |m.states[f.state].edges|
    requires var f := stack[|stack| - 1]; NoEdges(m.states[f.state].edges, f.next, j)
    requires m.states[stack[|stack| - 1].state].edges[j].symbols != {}
    ensures x == Try(PathOf(stack), m.states[stack[|stack| - 1].state].edges[j].to)
    ensures IsEvent(m, x) && Ahead(m, stack, x)
  {
    var es := m.states[stack[|stack| - 1].state].edges;
    x := Try(PathOf(stack), es[j].to);
    StackIsSimple(m, stack);
    LabelsOfGroup(es, j);
    var q := PathOf(stack) + [es[j].to];
    assert q[..|stack|] == PathOf(stack);
    RetopPending(m, stack, j, q);
  }

  lemma EnterOneLess(m: Fsm, stack: seq<Frame>, j: nat, f: Frame)
    requires WellFormed(m) && StackOk(m, stack) && stack != []
    requires var t := stack[|stack| - 1]; t.state < |m.states| && t.next <= j < |m.states[t.state].edges|
    requires var t := stack[|stack| - 1]; NoEdges(m.states[t.state].edges, t.next, j) && f.state == m.states[t.state].edges[j].to
    requires m.states[stack[|stack| - 1].state].edges[j].symbols != {} && f.next == 0
    ensures OneLess(m, stack, Retop(stack, j + 1) + [f])
  {
    var x := NextTry(m, stack, j);
    forall e | IsEvent(m, e)
      ensures Ahead(m, Retop(stack, j + 1) + [f], e) <==> Ahead(m, stack, e) && e != x
    {
      EnterAhead(m, stack, j, f, e);
    }
    OneEvent(m, stack, Retop(stack, j + 1) + [f], x);
  }

  lemma LeaveOneLess(m: Fsm, stack: seq<Frame>)
    requires WellFormed(m) && StackOk(m, stack) && stack != []
    requires var t := stack[|stack| - 1]; t.state < |m.states| && NoEdges(m.states[t.state].edges, t.next, |m.states[t.state].edges|)
    ensures OneLess(m, stack, stack[..|stack| - 1])
  {
    StackIsSimple(m, stack);
    forall e | IsEvent(m, e)
      ensures Ahead(m, stack[..|stack| - 1], e) <==> Ahead(m, stack, e) && e != Back(PathOf(stack))
    {
      LeaveAhead(m, stack, e);
    }
    OneEvent(m, stack, stack[..|stack| - 1], Back(PathOf(stack)));
  }

  // ----- where the search ends -----

  /** Whatever comes later than a pending path is pending, too. */
  lemma PendingUp(m: Fsm, stack: seq<Frame>, a: seq<nat>, b: seq<nat>)
    requires WellFormed(m) && StackOk(m, stack) && Pending(m, stack, a) && Earlier(a, b)
    requires IsPath(m, b) && b[0] == a[0]
    ensures Pending(m, stack, b)
  {
    var k: nat :| PendingAt(m, stack, a, k);
    if a < b {
      assert b[..k + 1] == a[..k + 1];
      assert PendingAt(m, stack, b, k);
    } else {
      var i: nat :| PartAt(a, b, i);
      assert i > 0 && JoinedAt(m, b, i - 1);
      PartPending(m, stack, a, b, k, i);
    }
  }

  lemma PartPending(m: Fsm, stack: seq<Frame>, a: seq<nat>, b: seq<nat>, k: nat, i: nat)
    requires WellFormed(m) && StackOk(m, stack) && PendingAt(m, stack, a, k) && PartAt(a, b, i) && i > 0
    requires Joined(m, b[i - 1], b[i])
    ensures Pending(m, stack, b)
  {
    var p := PathOf(stack);
    assert b[i - 1] == b[..i][i - 1] == a[i - 1];
    if i > k + 1 {
      assert b[..k + 1] == b[..i][..k + 1] == a[..i][..k + 1] == a[..k + 1] && b[k + 1] == b[..i][k + 1] == a[k + 1];
      assert PendingAt(m, stack, b, k);
    } else {
      assert b[..i] == a[..k + 1][..i] == p[..k + 1][..i] == p[..i] && a[i - 1] == a[..k + 1][i - 1] == p[i - 1];
      if i == k + 1 {
        LaterUntried(m, stack[k], a[i], b[i]);
        assert PendingAt(m, stack, b, k);
      } else {
        assert a[i] == a[..k + 1][i] == p[i];
        UntriedLarger(m, stack, i - 1);
        assert PendingAt(m, stack, b, i - 1);
      }
    }
  }

  lemma LaterUntried(m: Fsm, f: Frame, v: nat, w: nat)
    requires WellFormed(m) && f.state < |m.states| && Joined(m, f.state, w) && v < w
    requires Untried(m.states[f.state].edges, f.next, v)
    ensures Untried(m.states[f.state].edges, f.next, w)
  {
    var es := m.states[f.state].edges;
    var g :| f.next <= g < |es| && es[g].to == v && es[g].symbols != {};
    var h := JoiningGroup(m, f.state, w);
    assert g < h;
  }

  /** When a state has just been entered, what is pending is what comes later. */
  lemma PendingIsLater(m: Fsm, stack: seq<Frame>, q: seq<nat>)
    requires WellFormed(m) && StackOk(m, stack) && stack != [] && stack[|stack| - 1].next == 0
    requires IsPath(m, q) && q[0] == m.start.value
    ensures Pending(m, stack, q) <==> Earlier(PathOf(stack), q)
  {
    var p, t := PathOf(stack), |stack| - 1;
    assert p[..t + 1] == p && FrameOk(m, stack, 0);
    if Pending(m, stack, q) {
      var k: nat :| PendingAt(m, stack, q, k);
      if k < t {
        UntriedLarger(m, stack, k);
        assert PartAt(p, q, k + 1);
      }
    }
    if p < q {
      PendingOnTop(m, stack, q);
    } else if Earlier(p, q) {
      var k: nat :| PartAt(p, q, k);
      assert k > 0 && JoinedAt(m, q, k - 1) && q[k - 1] == q[..k][k - 1] == p[k - 1];
      UntriedLarger(m, stack, k - 1);
      assert PendingAt(m, stack, q, k - 1);
    }
  }

  /** No accepting path was met, or those that were have a symbol in common. */
  ghost predicate Going(overall: set<Byte>, first: bool) {
    first || overall != {}
  }

  /** As long as that is so, no path that settles the question was met. */
  lemma SettlingAhead(m: Fsm, stack: seq<Frame>, overall: set<Byte>, first: bool, p: seq<nat>)
    requires WellFormed(m) && StackOk(m, stack) && Searched(m, stack, overall, first) && Going(overall, first)
    requires Settles(m, p)
    ensures Pending(m, stack, p)
  {
    assert Look(true);
    if !first {
      var c :| c in overall;
      assert AvoidedUpTo(m, p, c);
      var a :| Accepting(m, a) && (a == p || Earlier(a, p)) && !Needs(m, a, c);
      assert Pending(m, stack, a);
      if a != p {
        PendingUp(m, stack, a, p);
      }
    }
  }

  /** What has happened by then was to happen. */
  lemma PassedHappens(m: Fsm, stack: seq<Frame>, overall: set<Byte>, first: bool, e: Event)
    requires WellFormed(m) && StackOk(m, stack) && Searched(m, stack, overall, first) && Going(overall, first)
    requires IsEvent(m, e) && !Ahead(m, stack, e)
    ensures Happens(m, e)
  {
    forall p | Settles(m, p)
      ensures !ComesAfter(p, e)
    {
      SettlingAhead(m, stack, overall, first, p);
      if ComesAfter(p, e) {
        AfterAhead(m, stack, p, e);
      }
    }
  }

  lemma AfterAhead(m: Fsm, stack: seq<Frame>, p: seq<nat>, e: Event)
    requires WellFormed(m) && StackOk(m, stack) && SimplePath(m, p) && Pending(m, stack, p)
    requires IsEvent(m, e) && ComesAfter(p, e)
    ensures Ahead(m, stack, e)
  {
    match e
    case Try(q, v) =>
      EventPath(m, e);
      PendingUp(m, stack, p, q + [v]);
    case Back(q) =>
      if Earlier(p, q) {
        PendingUp(m, stack, p, q);
      } else {
        var k: nat :| PendingAt(m, stack, p, k);
        if |q| <= k + 1 {
          assert q == p[..k + 1][..|q|] == PathOf(stack)[..k + 1][..|q|] == PathOf(stack)[..|q|];
        } else {
          assert q[..k + 1] == p[..k + 1];
          assert PendingAt(m, stack, q, k);
        }
      }
  }

  /** So was what happens next: looking at group `j`, */
  lemma TryHappens(m: Fsm, stack: seq<Frame>, overall: set<Byte>, first: bool, j: nat, e: Event)
    requires WellFormed(m) && StackOk(m, stack) && Searched(m, stack, overall, first) && Going(overall, first) && stack != []
    requires var f := stack[|stack| - 1]; f.state < |m.states| && f.next <= j < |m.states[f.state].edges|
    requires var f := stack[|stack| - 1]; NoEdges(m.states[f.state].edges, f.next, j)
    requires e == Try(PathOf(stack), m.states[stack[|stack| - 1].state].edges[j].to) && IsEvent(m, e)
    ensures Happens(m, e)
  {
    var x := e.path + [e.to];
    forall p | Settles(m, p)
      ensures !ComesAfter(p, e)
    {
      SettlingAhead(m, stack, overall, first, p);
      var k: nat :| PendingAt(m, stack, p, k);
      NextIsFirst(m, stack, j, p, k);
      NotBoth(p, x);
    }
  }

  lemma NextIsFirst(m: Fsm, stack: seq<Frame>, j: nat, p: seq<nat>, k: nat)
    requires WellFormed(m) && StackOk(m, stack) && stack != [] && PendingAt(m, stack, p, k)
    requires var f := stack[|stack| - 1]; f.state < |m.states| && f.next <= j < |m.states[f.state].edges|
    requires var f := stack[|stack| - 1]; NoEdges(m.states[f.state].edges, f.next, j)
    ensures var x := PathOf(stack) + [m.states[stack[|stack| - 1].state].edges[j].to]; x <= p || Earlier(x, p)
  {
    var t, es := |stack| - 1, m.states[stack[|stack| - 1].state].edges;
    var x := PathOf(stack) + [es[j].to];
    assert p[..k + 1] == x[..k + 1];
    if k < t {
      UntriedLarger(m, stack, k);
      assert PartAt(x, p, k + 1);
    } else {
      var g :| stack[t].next <= g < |es| && es[g].to == p[t + 1] && es[g].symbols != {};
      if g == j {
        assert p[..t + 2] == p[..t + 1] + [p[t + 1]] == x;
      } else {
        assert j < g;
        assert PartAt(x, p, t + 1);
      }
    }
  }

  /** or leaving the state on top. */
  lemma BackHappens(m: Fsm, stack: seq<Frame>, overall: set<Byte>, first: bool)
    requires WellFormed(m) && StackOk(m, stack) && Searched(m, stack, overall, first) && Going(overall, first) && stack != []
    requires var t := stack[|stack| - 1]; t.state < |m.states| && NoEdges(m.states[t.state].edges, t.next, |m.states[t.state].edges|)
    ensures Happens(m, Back(PathOf(stack)))
  {
    var x, t := PathOf(stack), |stack| - 1;
    StackIsSimple(m, stack);
    forall p | Settles(m, p)
      ensures !ComesAfter(p, Back(x))
    {
      SettlingAhead(m, stack, overall, first, p);
      var k: nat :| PendingAt(m, stack, p, k);
      UntriedLarger(m, stack, k);
      assert PartAt(x, p, k + 1);
      NotBoth(p, x);
    }
  }

  /** `steps` events have happened. */
  ghost predicate Happened(m: Fsm, stack: seq<Frame>, steps: nat) {
    forall b {:trigger Peek(b)} :: Peek(b) ==> WellFormed(m) && steps + |Remaining(m, stack)| == |AllEvents(m)|
  }

  lemma HappenedNone(m: Fsm, f: Frame)
    requires WellFormed(m) && m.start.Some? && f == Frame(m.start.value, None, 0)
    ensures Happened(m, [f], 0)
  {
    AllAhead(m, f);
  }

  lemma HappenedOne(m: Fsm, stack: seq<Frame>, r: seq<Frame>, steps: nat, steps': nat)
    requires Happened(m, stack, steps) && OneLess(m, stack, r) && steps' == steps + 1
    ensures Happened(m, r, steps')
  {
    assert Peek(true);
  }

  /** While the search goes on, there are more steps to it. */
  lemma MoreSteps(m: Fsm, stack: seq<Frame>, overall: set<Byte>, first: bool, steps: nat)
    requires WellFormed(m) && StackOk(m, stack) && Searched(m, stack, overall, first) && Going(overall, first) && stack != []
    requires Happened(m, stack, steps)
    ensures steps < StepCount(m)
  {
    assert Peek(true);
    var x := NextEvent(m, stack, overall, first);
    var passed := AllEvents(m) - Remaining(m, stack);
    assert AllEvents(m) == passed + Remaining(m, stack);
    forall e | e in passed + {x}
      ensures e in TourEvents(m)
    {
      if e in passed {
        PassedHappens(m, stack, overall, first, e);
      }
    }
    SubsetSize(passed + {x}, TourEvents(m));
  }

  lemma NextEvent(m: Fsm, stack: seq<Frame>, overall: set<Byte>, first: bool) returns (x: Event)
    requires WellFormed(m) && StackOk(m, stack) && Searched(m, stack, overall, first) && Going(overall, first) && stack != []
    ensures Happens(m, x) && x in Remaining(m, stack)
  {
    var f := stack[|stack| - 1];
    assert FrameOk(m, stack, |stack| - 1);
    var j := FirstGroup(m.states[f.state].edges, f.next);
    if j < |m.states[f.state].edges| {
      x := NextTry(m, stack, j);
      TryHappens(m, stack, overall, first, j, x);
    } else {
      x := Back(PathOf(stack));
      BackHappens(m, stack, overall, first);
    }
  }

  /** A search that has been through everything has taken all its steps. */
  lemma ExhaustedSteps(m: Fsm, overall: set<Byte>, first: bool, steps: nat)
    requires WellFormed(m) && m.start.Some? && Searched(m, [], overall, first) && Going(overall, first)
    requires Happened(m, [], steps)
    ensures steps == StepCount(m)
  {
    assert Peek(true);
    AllAhead(m, Frame(m.start.value, None, 0));
    forall e | e in AllEvents(m)
      ensures Happens(m, e)
    {
      assert e !in Remaining(m, []);
      PassedHappens(m, [], overall, first, e);
    }
    assert TourEvents(m) == AllEvents(m);
  }

  /** `p` is the first path that settles the question. */
  ghost predicate FirstSettles(m: Fsm, p: seq<nat>) {
    Settles(m, p) && forall q :: Settles(m, q) ==> q == p || Earlier(p, q)
  }

  /** The search has just come to that path. */
  ghost predicate Settled(m: Fsm, stack: seq<Frame>) {
    stack != [] && stack[|stack| - 1].next == 0 && forall b {:trigger Peek(b)} :: Peek(b) ==> FirstSettles(m, PathOf(stack))
  }

  lemma SettledSteps(m: Fsm, stack: seq<Frame>, steps: nat)
    requires WellFormed(m) && StackOk(m, stack) && Settled(m, stack) && Happened(m, stack, steps)
    ensures steps == StepCount(m)
  {
    assert Peek(true);
    var p := PathOf(stack);
    forall e | IsEvent(m, e)
      ensures Happens(m, e) <==> !Ahead(m, stack, e)
    {
      FirstDecides(m, p, e);
      if e.Try? {
        EventPath(m, e);
      }
      PendingIsLater(m, stack, if e.Try? then e.path + [e.to] else e.path);
    }
    assert TourEvents(m) == AllEvents(m) - Remaining(m, stack);
  }

  /** The state entered is an end, and nothing is in common any more: the path settles it. */
  lemma EnterSettles(m: Fsm, stack: seq<Frame>, overall: set<Byte>, first: bool, j: nat, f: Frame)
    requires WellFormed(m) && StackOk(m, stack) && stack != [] && Searched(m, stack, overall, first) && Going(overall, first)
    requires var t := stack[|stack| - 1]; t.state < |m.states| && t.next <= j < |m.states[t.state].edges|
    requires var t := stack[|stack| - 1]; NoEdges(m.states[t.state].edges, t.next, j) && f.state == m.states[t.state].edges[j].to
    requires m.states[stack[|stack| - 1].state].edges[j].symbols != {}
    requires f.next == 0 && f.state < |m.states| && m.states[f.state].end && StackOk(m, Retop(stack, j + 1) + [f])
    requires Searched(m, Retop(stack, j + 1) + [f], {}, false)
    ensures Settled(m, Retop(stack, j + 1) + [f])
  {
    var r := Retop(stack, j + 1) + [f];
    var p := PathOf(r);
    assert p == PathOf(stack) + [f.state];
    StackIsSimple(m, r);
    forall c: Byte
      ensures AvoidedUpTo(m, p, c)
    {
      var a := SomeAvoider(m, r, c);
      PendingIsLater(m, r, a);
      if a != p {
        EarlierTotal(p, a, 0);
      }
    }
    forall q | Settles(m, q)
      ensures q == p || Earlier(p, q)
    {
      SettlingAhead(m, stack, overall, first, q);
      EnterPending(m, stack, j, f, q);
      PendingIsLater(m, r, q);
    }
    assert FirstSettles(m, p);
  }

  lemma SomeAvoider(m: Fsm, stack: seq<Frame>, c: Byte) returns (q: seq<nat>)
    requires Searched(m, stack, {}, false)
    ensures Met(m, stack, q) && !Needs(m, q, c)
  {
    assert Look(true);
    assert SomeAvoids(m, stack, c);
    q :| Met(m, stack, q) && !Needs(m, q, c);
  }

  /** If the start is an end, nothing has to be looked at. */
  lemma StartSettles(m: Fsm)
    requires WellFormed(m) && m.start.Some? && m.states[m.start.value].end
    ensures StepCount(m) == 0
  {
    var p := [m.start.value];
    assert Accepting(m, p);
    forall c: Byte
      ensures AvoidedUpTo(m, p, c)
    {
      assert !Needs(m, p, c);
    }
    assert Settles(m, p);
    forall e | IsEvent(m, e)
      ensures ComesAfter(p, e)
    {
      assert e.path[..1] == p;
    }
    assert TourEvents(m) == {};
  }

  // ----- the search -----

  /** The one symbol of a group, if it has just one. */
  method CheckSymbols(symbols: set<Byte>) returns (lbl: Option<Byte>)
    requires symbols != {}
    ensures IsOnly(symbols, lbl)
  {
    lbl := None;
    for b := 0 to 256
      invariant match lbl
                case None => forall c: Byte :: c < b ==> c !in symbols
                case Some(d) => d < b && d in symbols && forall c: Byte :: c < b && c in symbols ==> c == d
    {
      if b in symbols {
        if lbl.Some? {
          return None;
        }
        lbl := Some(b);
      }
    }
    assert lbl.Some? ==> symbols == {lbl.value};
  }

  /** All that the search keeps about the frames. */
  ghost predicate Tracking(m: Fsm, stack: seq<Frame>, visited: seq<bool>, counts: seq<nat>, current: set<Byte>) {
    && m.start.Some? && |visited| == |m.states| && |counts| == 256 && |stack| <= |m.states|
    && (stack != [] ==>
          var f := stack[|stack| - 1]; f.state < |m.states| && f.next <= |m.states[f.state].edges|)
    && (forall b {:trigger Look(b)} :: Look(b) ==>
          StackOk(m, stack) && Tallied(stack, counts, current) && Visiting(stack, visited))
  }

  function Raised(counts: seq<nat>, lbl: Option<Byte>): (r: seq<nat>)
    requires |counts| == 256
    ensures |r| == 256
  {
    if lbl.Some? then counts[lbl.value := counts[lbl.value] + 1] else counts
  }

  function Lowered(counts: seq<nat>, lbl: Option<Byte>): (r: seq<nat>)
    requires |counts| == 256
    ensures |r| == 256
  {
    if lbl.Some? && counts[lbl.value] > 0 then counts[lbl.value := counts[lbl.value] - 1] else counts
  }

  lemma TrackingBegins(m: Fsm, visited: seq<bool>, counts: seq<nat>)
    requires m.start.Some? && |visited| == |m.states| && |counts| == 256
    requires forall s :: 0 <= s < |visited| ==> !visited[s]
    requires forall c :: 0 <= c < 256 ==> counts[c] == 0
    ensures Tracking(m, [], visited, counts, {})
  {
  }

  /** A state that is visited is on the stack, and the other way round. */
  lemma TrackingVisited(m: Fsm, stack: seq<Frame>, visited: seq<bool>, counts: seq<nat>, current: set<Byte>, s: nat)
    requires Tracking(m, stack, visited, counts, current) && s < |visited|
    ensures visited[s] <==> s in PathOf(stack)
    ensures StackOk(m, stack)
  {
    assert Look(true);
  }

  lemma TrackingRetop(m: Fsm, stack: seq<Frame>, visited: seq<bool>, counts: seq<nat>, current: set<Byte>, next: nat)
    requires Tracking(m, stack, visited, counts, current) && stack != []
    requires next <= |m.states[stack[|stack| - 1].state].edges|
    ensures Tracking(m, Retop(stack, next), visited, counts, current)
  {
    assert Look(true);
    RetopOk(m, stack, next);
    forall c
      ensures Count(Retop(stack, next), c) == Count(stack, c)
    {
      CountRetop(stack, next, c);
    }
  }

  lemma TrackingPush(m: Fsm, stack: seq<Frame>, visited: seq<bool>, counts: seq<nat>, current: set<Byte>, f: Frame,
                     current': set<Byte>)
    requires Tracking(m, stack, visited, counts, current) && f.state < |m.states| && f.next == 0
    requires StackOk(m, stack + [f])
    requires current' == if f.lbl.Some? && counts[f.lbl.value] == 0 then current + {f.lbl.value} else current
    ensures Tracking(m, stack + [f], visited[f.state := true], Raised(counts, f.lbl), current')
  {
    assert Look(true);
    StackIsPath(m, stack + [f]);
    assert (stack + [f])[..|stack|] == stack;
    assert PathOf(stack + [f]) == PathOf(stack) + [f.state];
  }

  lemma TrackingPop(m: Fsm, stack: seq<Frame>, visited: seq<bool>, counts: seq<nat>, current: set<Byte>, current': set<Byte>)
    requires Tracking(m, stack, visited, counts, current) && stack != []
    requires var f := stack[|stack| - 1];
             current' == if f.lbl.Some? && Lowered(counts, f.lbl)[f.lbl.value] == 0 then current - {f.lbl.value} else current
    ensures var f := stack[|stack| - 1];
            && (f.lbl.Some? ==> counts[f.lbl.value] > 0)
            && Tracking(m, stack[..|stack| - 1], visited[f.state := false], Lowered(counts, f.lbl), current')
  {
    assert Look(true);
    var f, r := stack[|stack| - 1], stack[..|stack| - 1];
    PopOk(m, stack);
    if f.lbl.Some? {
      assert Count(stack, f.lbl.value) > 0;
    }
    if r != [] {
      assert FrameOk(m, r, |r| - 1);
    }
  }

  lemma TrackingNeeds(m: Fsm, stack: seq<Frame>, visited: seq<bool>, counts: seq<nat>, current: set<Byte>)
    requires Tracking(m, stack, visited, counts, current)
    ensures StackOk(m, stack) && CurrentOf(m, PathOf(stack), current)
  {
    assert Look(true);
    forall c: Byte
      ensures c in current <==> Needs(m, PathOf(stack), c)
    {
      CurrentNeeds(m, stack, c);
    }
  }

  lemma TrackingLeaves(m: Fsm, stack: seq<Frame>, visited: seq<bool>, counts: seq<nat>, current: set<Byte>,
                       overall: set<Byte>, first: bool)
    requires WellFormed(m) && Tracking(m, stack, visited, counts, current) && stack != [] && Searched(m, stack, overall, first)
    requires var f := stack[|stack| - 1]; NoEdges(m.states[f.state].edges, f.next, |m.states[f.state].edges|)
    ensures Searched(m, stack[..|stack| - 1], overall, first) && Lighter(m, stack[..|stack| - 1], stack)
    ensures OneLess(m, stack, stack[..|stack| - 1])
  {
    TrackingVisited(m, stack, visited, counts, current, stack[|stack| - 1].state);
    LeaveSearched(m, stack, overall, first);
    LeaveOneLess(m, stack);
    LighterPop(m, stack);
  }

  lemma TrackingMore(m: Fsm, stack: seq<Frame>, visited: seq<bool>, counts: seq<nat>, current: set<Byte>,
                     overall: set<Byte>, first: bool, steps: nat)
    requires WellFormed(m) && Tracking(m, stack, visited, counts, current) && stack != []
    requires Searched(m, stack, overall, first) && Going(overall, first) && Happened(m, stack, steps)
    ensures steps < StepCount(m)
  {
    TrackingVisited(m, stack, visited, counts, current, stack[|stack| - 1].state);
    MoreSteps(m, stack, overall, first, steps);
  }

  /** Following group `j` of the top frame to a state off the path is one push. */
  lemma FollowPushes(m: Fsm, stack: seq<Frame>, visited: seq<bool>, counts: seq<nat>, current: set<Byte>, j: nat, lbl: Option<Byte>)
    requires WellFormed(m) && Tracking(m, stack, visited, counts, current) && stack != []
    requires stack[|stack| - 1].next == j + 1
    requires var g := m.states[stack[|stack| - 1].state].edges[j];
             g.symbols != {} && IsOnly(g.symbols, lbl) && g.to < |visited| && !visited[g.to]
    ensures var g := m.states[stack[|stack| - 1].state].edges[j]; StackOk(m, stack + [Frame(g.to, lbl, 0)])
  {
    var t := stack[|stack| - 1];
    var g := m.states[t.state].edges[j];
    TrackingVisited(m, stack, visited, counts, current, g.to);
    LabelsOfGroup(m.states[t.state].edges, j);
    PushOk(m, stack, Frame(g.to, lbl, 0));
  }

  class DrEnv {
    const m: Fsm
    const visited: array<bool>
    const counts: array<nat>
    var current: set<Byte>
    var overall: set<Byte>
    var firstEndState: bool
    var stack: seq<Frame>

    ghost predicate Valid()
      reads this, visited, counts
    {
      IsDfa(m) && Tracking(m, stack, visited[..], counts[..], current)
    }

    /** The invariant of the search. */
    ghost predicate Searching()
      reads this, visited, counts
    {
      Valid() && Searched(m, stack, overall, firstEndState)
    }

    constructor (m: Fsm, visited: array<bool>)
      requires IsDfa(m) && m.start.Some? && visited.Length == |m.states|
      requires forall s :: 0 <= s < visited.Length ==> !visited[s]
      ensures this.m == m && this.visited == visited && fresh(counts)
      ensures Valid() && stack == [] && overall == {} && firstEndState
    {
      this.m := m;
      this.visited := visited;
      counts := new nat[256](_ => 0);
      current, overall, firstEndState, stack := {}, {}, true, [];
      new;
      TrackingBegins(m, visited[..], counts[..]);
    }

    /** Push `state`, mark it and count its label. */
    method Push(state: nat, lbl: Option<Byte>)
      requires Valid() && state < |m.states|
      requires StackOk(m, stack + [Frame(state, lbl, 0)])
      modifies this`stack, this`current, visited, counts
      ensures Valid() && stack == old(stack) + [Frame(state, lbl, 0)]
    {
      ghost var v, n, was := visited[..], counts[..], current;
      visited[state] := true;
      if lbl.Some? {
        var c := lbl.value;
        counts[c] := counts[c] + 1;
        if counts[c] == 1 {
          current := current + {c};
        }
      }
      TrackingPush(m, stack, v, n, was, Frame(state, lbl, 0), current);
      assert visited[..] == v[state := true] && counts[..] == Raised(n, lbl);
      stack := stack + [Frame(state, lbl, 0)];
    }

    /** Take the top frame off again. */
    method Leave()
      requires Valid() && stack != []
      modifies this`stack, this`current, visited, counts
      ensures Valid() && stack == old(stack)[..|old(stack)| - 1]
    {
      ghost var v, n, was := visited[..], counts[..], current;
      var sf := stack[|stack| - 1];
      TrackingPop(m, stack, v, n, was,
                  if sf.lbl.Some? && Lowered(n, sf.lbl)[sf.lbl.value] == 0 then current - {sf.lbl.value} else current);
      if sf.lbl.Some? {
        var c := sf.lbl.value;
        counts[c] := counts[c] - 1;
        if counts[c] == 0 {
          current := current - {c};
        }
      }
      visited[sf.state] := false;
      assert visited[..] == v[sf.state := false] && counts[..] == Lowered(n, sf.lbl);
      stack := stack[..|stack| - 1];
    }

    /** Follow the group found for the top frame, unless it leads back to the path. */
    method Follow(j: nat) returns (met: bool)
      requires Searching() && stack != [] && Going(overall, firstEndState)
      requires var f := stack[|stack| - 1]; f.next <= j < |m.states[f.state].edges| && NoEdges(m.states[f.state].edges, f.next, j)
      requires m.states[stack[|stack| - 1].state].edges[j].symbols != {}
      modifies this, visited, counts
      ensures Searching() && Lighter(m, stack, old(stack)) && OneLess(m, old(stack), stack)
      ensures met && overall == {} ==> !firstEndState && Settled(m, stack)
      ensures !met || overall != {} ==> Going(overall, firstEndState)
    {
      ghost var before := stack;
      var sf := stack[|stack| - 1];
      var g := m.states[sf.state].edges[j];
      assert g.to < |m.states|;
      TrackingVisited(m, stack, visited[..], counts[..], current, g.to);
      MoveOn(j);
      if visited[g.to] {
        SkipOneLess(m, before, j);
        SkipSearched(m, before, overall, firstEndState, j);
        return false;
      }
      var lbl := CheckSymbols(g.symbols);
      met := Enter(j, g.to, lbl, before);
    }

    /** Move the iterator of the top frame past group `j`. */
    method MoveOn(j: nat)
      requires Valid() && stack != []
      requires var f := stack[|stack| - 1]; f.next <= j < |m.states[f.state].edges|
      modifies this`stack
      ensures Valid() && stack == Retop(old(stack), j + 1)
      ensures Lighter(m, stack, old(stack)) && Roomy(m, stack, old(stack))
    {
      LighterRetop(m, stack, j + 1);
      TrackingRetop(m, stack, visited[..], counts[..], current, j + 1);
      stack := stack[|stack| - 1 := stack[|stack| - 1].(next := j + 1)];
    }

    /** Go to the state the group leads to; at an end state, intersect. */
    method Enter(j: nat, to: nat, lbl: Option<Byte>, ghost before: seq<Frame>) returns (met: bool)
      requires Valid() && StackOk(m, before) && Searched(m, before, overall, firstEndState) && Going(overall, firstEndState)
      requires before != [] && |before| <= |m.states| && before[|before| - 1].state < |m.states|
      requires var f := before[|before| - 1]; f.next <= j < |m.states[f.state].edges| && NoEdges(m.states[f.state].edges, f.next, j)
      requires stack == Retop(before, j + 1) && Roomy(m, stack, before)
      requires var g := m.states[before[|before| - 1].state].edges[j];
               g.symbols != {} && IsOnly(g.symbols, lbl) && g.to == to && to < |m.states| && !visited[to]
      modifies this, visited, counts
      ensures Searching() && Lighter(m, stack, before) && OneLess(m, before, stack)
      ensures met && overall == {} ==> !firstEndState && Settled(m, stack)
      ensures !met || overall != {} ==> Going(overall, firstEndState)
    {
      FollowPushes(m, stack, visited[..], counts[..], current, j, lbl);
      ghost var f := Frame(to, lbl, 0);
      StackIsPath(m, stack + [f]);
      LighterPush(m, stack, f, before);
      Push(to, lbl);
      TrackingNeeds(m, stack, visited[..], counts[..], current);
      EnterSearched(m, before, overall, firstEndState, j, f, current);
      EnterOneLess(m, before, j, f);
      met := m.states[to].end;
      if met {
        if Intersected(overall, firstEndState, current) == {} {
          EnterSettles(m, before, overall, firstEndState, j, f);
        }
        overall := if firstEndState then current else overall * current;
        firstEndState := false;
      }
    }

    /** Go back from a state whose edges are all done. */
    method Backtrack()
      requires Searching() && stack != []
      requires var f := stack[|stack| - 1]; NoEdges(m.states[f.state].edges, f.next, |m.states[f.state].edges|)
      modifies this`stack, this`current, visited, counts
      ensures Searching() && Lighter(m, stack, old(stack)) && OneLess(m, old(stack), stack)
    {
      TrackingLeaves(m, stack, visited[..], counts[..], current, overall, firstEndState);
      Leave();
    }

    /** Look at the next group of the top frame, or leave it; `stop` when nothing is left. */
    method Step() returns (stop: bool)
      requires Searching() && stack != [] && Going(overall, firstEndState)
      modifies this, visited, counts
      ensures Searching() && Lighter(m, stack, old(stack)) && OneLess(m, old(stack), stack)
      ensures if stop then overall == {} && !firstEndState && Settled(m, stack) else Going(overall, firstEndState)
    {
      var sf := stack[|stack| - 1];
      var found, j := NextGroup(m.states[sf.state].edges, sf.next);
      if found {
        var met := Follow(j);
        stop := met && overall == {};
      } else {
        Backtrack();
        stop := false;
      }
    }

    /** Run the search; `limited` says that it was cut short. That is so exactly when it would
        take at least as many steps as the limit allows for. */
    method Search(stepLimit: nat) returns (limited: bool)
      requires Searching() && Work(m, stack) < WorkBound(m) && Happened(m, stack, 0) && Going(overall, firstEndState)
      modifies this, visited, counts
      ensures limited <==> 0 < stepLimit <= StepCount(m)
      ensures limited ==> 0 < stepLimit <= WorkBound(m)
      ensures !limited ==> Done(m, overall) && StepCount(m) < WorkBound(m)
    {
      var steps: nat := 0;
      var stop := false;
      while stack != [] && !stop
        invariant Searching() && steps + Work(m, stack) < WorkBound(m) && Happened(m, stack, steps)
        invariant stepLimit > 0 ==> steps < stepLimit
        invariant if stop then overall == {} && !firstEndState && Settled(m, stack) else Going(overall, firstEndState)
        decreases Work(m, stack)
      {
        steps := steps + 1;
        if steps == stepLimit {
          TrackingMore(m, stack, visited[..], counts[..], current, overall, firstEndState, steps - 1);
          return true;
        }
        ghost var before := stack;
        stop := Step();
        HappenedOne(m, before, stack, steps - 1, steps);
        LighterOpen(m, stack, before);
      }
      if stop {
        TrackingVisited(m, stack, visited[..], counts[..], current, stack[|stack| - 1].state);
        SettledSteps(m, stack, steps);
        EmptyFinishes(m, stack, firstEndState);
      } else {
        ExhaustedSteps(m, overall, firstEndState, steps);
        ExhaustedFinishes(m, overall, firstEndState);
      }
      return false;
    }
  }

  /** The characters that every accepted string contains, where there is one; none for the
      empty language. The step limit is reported exactly when the search takes at least that
      many steps, and without a limit it comes to its end. The visited flags are cleared again
      in any case. */
  method DetectRequiredCharacters(m: Fsm, visited: array<bool>, stepLimit: nat) returns (res: Result)
    requires IsDfa(m) && visited.Length == |m.states|
    requires forall s :: 0 <= s < visited.Length ==> !visited[s]
    modifies visited
    ensures forall s :: 0 <= s < visited.Length ==> !visited[s]
    ensures res.Misuse? <==> m.start.None?
    ensures res.StepLimitReached? ==> 0 < stepLimit <= WorkBound(m)
    ensures res.StepLimitReached? <==> m.start.Some? && 0 < stepLimit <= StepCount(m)
    ensures res.Written? ==> StepCount(m) < WorkBound(m)
    ensures res.Written? ==> Finished(m, res.charmap) && res.count == |res.charmap|
  {
    if m.start.None? {
      return Misuse;
    }
    var start := m.start.value;
    if m.states[start].end {
      StartEnds(m);
      return Written({}, 0);
    }
    var limited, overall := SearchFromStart(m, visited, stepLimit);
    if limited {
      res := StepLimitReached;
    } else {
      DoneFinished(m, overall);
      res := Written(overall, |overall|);
    }
  }

  /** Set up the start state's frame, search from there, and clear the flags. */
  method SearchFromStart(m: Fsm, visited: array<bool>, stepLimit: nat) returns (limited: bool, overall: set<Byte>)
    requires IsDfa(m) && m.start.Some? && visited.Length == |m.states| && !m.states[m.start.value].end
    requires forall s :: 0 <= s < visited.Length ==> !visited[s]
    modifies visited
    ensures limited <==> 0 < stepLimit <= StepCount(m)
    ensures limited ==> 0 < stepLimit <= WorkBound(m)
    ensures !limited ==> Done(m, overall) && StepCount(m) < WorkBound(m)
    ensures forall s :: 0 <= s < visited.Length ==> !visited[s]
  {
    var env := new DrEnv(m, visited);
    var f := Frame(m.start.value, None, 0);
    SearchBegins(m, f);
    WorkBegins(m, f);
    assert env.stack + [f] == [f];
    env.Push(f.state, None);
    HappenedNone(m, f);
    limited := env.Search(stepLimit);
    overall := env.overall;
    ClearVisited(visited);
  }

  method ClearVisited(visited: array<bool>)
    modifies visited
    ensures forall s :: 0 <= s < visited.Length ==> !visited[s]
  {
    for s := 0 to visited.Length
      invariant forall t :: 0 <= t < s ==> !visited[t]
    {
      visited[s] := false;
    }
  }

  lemma StartEnds(m: Fsm)
    requires WellFormed(m) && m.start.Some? && m.states[m.start.value].end
    ensures Finished(m, {}) && StepCount(m) == 0 < WorkBound(m)
  {
    StartSettles(m);
    WorkBegins(m, Frame(m.start.value, None, 0));
    var e: seq<Byte> := [];
    assert Run(m, m.start.value, e) == m.start.value;
    assert Accepted(m, e);
  }
}
