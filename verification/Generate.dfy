/** Generating matches: a machine with an explicit stack walks all state paths from the start
up to a length, emits a string at each end state it enters, and cuts off branches that are too
far from any end. */
module Generate {
  import opened Automata
  import opened Finite
  import opened Guard
  import opened Paths
  import opened Effort
  import opened InitialClasses

  datatype Phase = EnteringState | MatchCallback | StepEdges(next: nat) | StepSelfRef | LeavingState

  datatype Frame = Frame(state: nat, selfEdge: Option<Byte>, phase: Phase)

  datatype CbRes = Continue | Prune | Halt

  /** One call of the callback and what it answered. */
  datatype Match = Match(word: seq<Byte>, end: nat, res: CbRes)

  // ----- what is to be generated -----

  /** A state path from the start to an end state, of at most `max` steps. */
  ghost predicate IsTarget(m: Fsm, max: nat, q: seq<nat>) {
    m.start.Some? && IsPath(m, q) && q[0] == m.start.value && |q| <= max + 1 && m.states[q[|q| - 1]].end
  }

  function PathOf(stack: seq<Frame>): (p: seq<nat>)
    ensures |p| == |stack| && forall k :: 0 <= k < |p| ==> p[k] == stack[k].state
  {
    seq(|stack|, k requires 0 <= k < |stack| => stack[k].state)
  }

  // ----- entering -----

  /** The machine as it behaves when state `s` is entered first. */
  function From(m: Fsm, s: nat): (r: Fsm)
    ensures r.states == m.states && r.start == Some(s)
  {
    m.(start := Some(s))
  }

  /** Where a machine starts does not matter for runs from a given state. */
  lemma {:induction false} FromRun(m: Fsm, s: nat, t: nat, w: seq<Byte>)
    ensures Run(From(m, s), t, w) == Run(m, t, w)
    decreases |w|
  {
    if w != [] {
      FromRun(m, s, Step(m, t, w[0]), w[1..]);
    }
  }

  lemma FromExact(m: Fsm, s: nat, sed: seq<nat>)
    requires IsDfa(m) && ExactDistances(m, sed) && s < |m.states|
    ensures IsDfa(From(m, s)) && ExactDistances(From(m, s), sed)
  {
    var r := From(m, s);
    forall t: nat | t < |sed|
      ensures ExactAt(r, sed, t)
    {
      assert ExactAt(m, sed, t);
      forall w: seq<Byte>
        ensures Observe(r, Run(r, t, w)) == Observe(m, Run(m, t, w))
      {
        FromRun(m, s, t, w);
      }
      var v: seq<Byte> :| |v| == sed[t] && Observe(m, Run(m, t, v)).Some?;
      assert Observe(r, Run(r, t, v)).Some?;
    }
  }

  // ----- the order of paths -----

  /** From `u` the walk goes to `v` before it goes to `w`: the other states in order of their
      numbers, and `u` itself last. */
  predicate TakenBefore(u: nat, v: nat, w: nat) {
    v != u && (w == u || v < w)
  }

  /** The paths part at level `k`, where `p` goes on to the state that is taken first. */
  predicate ForkAt(p: seq<nat>, q: seq<nat>, k: nat) {
    0 < k < |p| && k < |q| && p[..k] == q[..k] && TakenBefore(p[k - 1], p[k], q[k])
  }

  /** The walk comes to the end of `p` before it comes to the end of `q`. */
  ghost predicate Before(p: seq<nat>, q: seq<nat>) {
    p < q || exists k :: ForkAt(p, q, k)
  }

  // ----- frames -----

  /** The frame will still go to `v`. */
  ghost predicate EdgeLeft(m: Fsm, f: Frame, v: nat)
    requires f.state < |m.states|
  {
    match f.phase
    case EnteringState => Joined(m, f.state, v)
    case MatchCallback => Joined(m, f.state, v)
    case StepEdges(next) => Untried(m.states[f.state].edges, next, v) || (v == f.state && f.selfEdge.Some?)
    case StepSelfRef => v == f.state && f.selfEdge.Some?
    case LeavingState => false
  }

  ghost predicate FrameOk(m: Fsm, f: Frame) {
    && f.state < |m.states|
    && (f.phase.StepEdges? ==> f.phase.next <= |m.states[f.state].edges|)
    && (f.phase.MatchCallback? ==> m.states[f.state].end)
    && (f.selfEdge.Some? ==> f.selfEdge.value in Between(m, f.state, f.state))
  }

  /** The frame has gone to `v` and will not go there again. It goes to its own state last. */
  ghost predicate HasChild(m: Fsm, f: Frame, v: nat)
    requires f.state < |m.states|
  {
    && (f.phase.StepEdges? || f.phase.StepSelfRef?) && Joined(m, f.state, v) && !EdgeLeft(m, f, v)
    && (v == f.state ==> f.phase.StepSelfRef?)
  }

  ghost predicate StackOk(m: Fsm, stack: seq<Frame>) {
    && m.start.Some?
    && (stack != [] ==> stack[0].state == m.start.value)
    && (forall k :: 0 <= k < |stack| ==> FrameOk(m, stack[k]))
    && (forall k :: 0 <= k < |stack| - 1 ==> ChildAt(m, stack, k))
  }

  ghost predicate ChildAt(m: Fsm, stack: seq<Frame>, k: nat)
    requires k + 1 < |stack| && stack[k].state < |m.states|
  {
    HasChild(m, stack[k], stack[k + 1].state)
  }

  lemma StackIsPath(m: Fsm, stack: seq<Frame>)
    requires StackOk(m, stack) && stack != []
    ensures IsPath(m, PathOf(stack)) && PathOf(stack)[0] == m.start.value
  {
    var p := PathOf(stack);
    forall k | 0 <= k < |p|
      ensures p[k] < |m.states|
    {
      assert FrameOk(m, stack[k]);
    }
    forall k | 0 <= k < |p| - 1
      ensures JoinedAt(m, p, k)
    {
      assert ChildAt(m, stack, k);
    }
  }

  // ----- what is still to come -----

  /** From level `k`, which it shares with the stack, the rest of `q` is still to be walked. */
  ghost predicate Ahead(m: Fsm, f: Frame, q: seq<nat>, k: nat)
    requires k < |q| && f.state < |m.states|
  {
    if |q| == k + 1 then f.phase.EnteringState? || f.phase.MatchCallback? else EdgeLeft(m, f, q[k + 1])
  }

  ghost predicate PendingAt(m: Fsm, stack: seq<Frame>, q: seq<nat>, k: nat) {
    && k < |stack| && k < |q| && stack[k].state < |m.states|
    && q[..k + 1] == PathOf(stack)[..k + 1]
    && Ahead(m, stack[k], q, k)
  }

  ghost predicate Pending(m: Fsm, stack: seq<Frame>, q: seq<nat>) {
    exists k: nat :: PendingAt(m, stack, q, k)
  }

  /** The stack with a new top frame for the same state. */
  function Retop(stack: seq<Frame>, f: Frame): (r: seq<Frame>)
    requires stack != [] && f.state == stack[|stack| - 1].state
    ensures |r| == |stack| && PathOf(r) == PathOf(stack)
  {
    stack[|stack| - 1 := f]
  }

  /** Below the top, nothing changes when the top does. */
  lemma PendingBelow(m: Fsm, stack: seq<Frame>, r: seq<Frame>, q: seq<nat>, k: nat)
    requires PendingAt(m, stack, q, k) && k < |r| && r[k] == stack[k]
    requires PathOf(r)[..k + 1] == PathOf(stack)[..k + 1]
    ensures Pending(m, r, q)
  {
    assert PendingAt(m, r, q, k);
  }

  /** The top frame and its replacement have the same ahead of them, for `q`. */
  ghost predicate SameAhead(m: Fsm, f: Frame, g: Frame, q: seq<nat>, p: seq<nat>) {
    && f.state < |m.states| && g.state < |m.states|
    && (p != [] && |p| <= |q| && q[..|p|] == p ==> (Ahead(m, f, q, |p| - 1) <==> Ahead(m, g, q, |p| - 1)))
  }

  lemma RetopOneWay(m: Fsm, stack: seq<Frame>, f: Frame, q: seq<nat>)
    requires stack != [] && f.state == stack[|stack| - 1].state && Pending(m, stack, q)
    requires SameAhead(m, stack[|stack| - 1], f, q, PathOf(stack))
    ensures Pending(m, Retop(stack, f), q)
  {
    var k: nat :| PendingAt(m, stack, q, k);
    var t := |stack| - 1;
    if k < t {
      PendingBelow(m, stack, Retop(stack, f), q, k);
    } else {
      assert PathOf(stack)[..t + 1] == PathOf(stack);
      assert PendingAt(m, Retop(stack, f), q, t);
    }
  }

  lemma RetopPending(m: Fsm, stack: seq<Frame>, f: Frame, q: seq<nat>)
    requires stack != [] && f.state == stack[|stack| - 1].state
    requires SameAhead(m, stack[|stack| - 1], f, q, PathOf(stack))
    ensures Pending(m, stack, q) <==> Pending(m, Retop(stack, f), q)
  {
    if Pending(m, stack, q) {
      RetopOneWay(m, stack, f, q);
    }
    if Pending(m, Retop(stack, f), q) {
      var t := |stack| - 1;
      assert Retop(Retop(stack, f), stack[t]) == stack;
      RetopOneWay(m, Retop(stack, f), stack[t], q);
    }
  }

  /** The top frame `f` went to `v` and became `g`. */
  ghost predicate WentTo(m: Fsm, f: Frame, g: Frame, v: nat) {
    && f.state == g.state < |m.states| && !f.phase.EnteringState? && !f.phase.MatchCallback?
    && !g.phase.EnteringState? && !g.phase.MatchCallback?
    && (forall x :: EdgeLeft(m, f, x) <==> EdgeLeft(m, g, x) || x == v)
  }

  lemma PushKeepsPending(m: Fsm, stack: seq<Frame>, g: Frame, v: nat, q: seq<nat>)
    requires stack != [] && WentTo(m, stack[|stack| - 1], g, v) && v < |m.states| && IsPath(m, q)
    requires Pending(m, stack, q)
    ensures Pending(m, Retop(stack, g) + [Frame(v, None, EnteringState)], q)
  {
    var t, p := |stack| - 1, PathOf(stack);
    var r := Retop(stack, g) + [Frame(v, None, EnteringState)];
    assert PathOf(r) == p + [v];
    var k: nat :| PendingAt(m, stack, q, k);
    assert PathOf(r)[..k + 1] == p[..k + 1];
    if k < t {
      PendingBelow(m, stack, r, q, k);
    } else {
      PushKeepsTop(m, stack, g, v, q, r);
    }
  }

  lemma PushKeepsTop(m: Fsm, stack: seq<Frame>, g: Frame, v: nat, q: seq<nat>, r: seq<Frame>)
    requires stack != [] && WentTo(m, stack[|stack| - 1], g, v) && v < |m.states| && IsPath(m, q)
    requires PendingAt(m, stack, q, |stack| - 1) && r == Retop(stack, g) + [Frame(v, None, EnteringState)]
    requires PathOf(r) == PathOf(stack) + [v]
    ensures Pending(m, r, q)
  {
    var t, p := |stack| - 1, PathOf(stack);
    assert p[..t + 1] == p == PathOf(r)[..t + 1];
    TopGoesOn(m, stack[t], g, v, q, t);
    if EdgeLeft(m, g, q[t + 1]) {
      assert PendingAt(m, r, q, t);
    } else {
      assert q[..t + 2] == q[..t + 1] + [v] && PathOf(r)[..t + 2] == PathOf(r);
      assert PendingAt(m, r, q, t + 1);
    }
  }

  /** What was ahead of the top frame is ahead of its replacement, or of the frame above it. */
  lemma TopGoesOn(m: Fsm, f: Frame, g: Frame, v: nat, q: seq<nat>, t: nat)
    requires WentTo(m, f, g, v) && v < |m.states| && IsPath(m, q) && t < |q| && Ahead(m, f, q, t)
    ensures t + 1 < |q|
    ensures !EdgeLeft(m, g, q[t + 1]) ==> q[t + 1] == v && Ahead(m, Frame(v, None, EnteringState), q, t + 1)
  {
    assert |q| > t + 2 ==> JoinedAt(m, q, t + 1);
  }

  lemma PushAddsNothing(m: Fsm, stack: seq<Frame>, g: Frame, v: nat, q: seq<nat>)
    requires stack != [] && WentTo(m, stack[|stack| - 1], g, v)
    requires Pending(m, Retop(stack, g) + [Frame(v, None, EnteringState)], q)
    ensures Pending(m, stack, q)
  {
    var t, p := |stack| - 1, PathOf(stack);
    var r := Retop(stack, g) + [Frame(v, None, EnteringState)];
    assert PathOf(r) == p + [v] && p[..t + 1] == p;
    var k: nat :| PendingAt(m, r, q, k);
    if k < t {
      assert PathOf(r)[..k + 1] == p[..k + 1];
      PendingBelow(m, r, stack, q, k);
    } else if k == t {
      assert PathOf(r)[..t + 1] == p;
      assert PendingAt(m, stack, q, t);
    } else {
      assert PathOf(r)[..t + 2] == PathOf(r);
      assert q[t + 1] == q[..t + 2][t + 1] == v && q[..t + 1] == q[..t + 2][..t + 1] == p;
      assert PendingAt(m, stack, q, t);
    }
  }

  lemma PopPending(m: Fsm, stack: seq<Frame>, q: seq<nat>)
    requires stack != [] && stack[|stack| - 1].phase.LeavingState?
    ensures Pending(m, stack, q) <==> Pending(m, stack[..|stack| - 1], q)
  {
    var t, r := |stack| - 1, stack[..|stack| - 1];
    assert PathOf(r) == PathOf(stack)[..t];
    if Pending(m, stack, q) {
      var k: nat :| PendingAt(m, stack, q, k);
      assert PathOf(r)[..k + 1] == PathOf(stack)[..k + 1];
      PendingBelow(m, stack, r, q, k);
    }
    if Pending(m, r, q) {
      var k: nat :| PendingAt(m, r, q, k);
      assert PathOf(r)[..k + 1] == PathOf(stack)[..k + 1];
      PendingBelow(m, r, stack, q, k);
    }
  }

  // ----- the invariants -----

  /** The stack is a path, the buffer spells it, and it is not too long. */
  ghost predicate Walking(m: Fsm, max: nat, stack: seq<Frame>, buf: seq<Byte>) {
    && m.start.Some? && (stack != [] ==> FrameOk(m, stack[|stack| - 1]))
    && |buf| <= max && |stack| <= |buf| + 1 && (stack != [] ==> |stack| == |buf| + 1)
    && (stack != [] && stack[|stack| - 1].selfEdge.Some? ==> |buf| < max)
    && (forall b {:trigger Look(b)} :: Look(b) ==>
          && StackOk(m, stack)
          && (stack != [] ==> Spells(m, PathOf(stack), buf))
          && (forall k :: 0 <= k < |stack| && stack[k].selfEdge.Some? ==> k < max))
  }

  ghost predicate EmittedAt(m: Fsm, max: nat, matches: seq<Match>, paths: seq<seq<nat>>, i: nat)
    requires i < |matches| == |paths|
  {
    && IsTarget(m, max, paths[i]) && Spells(m, paths[i], matches[i].word)
    && matches[i].end == paths[i][|paths[i]| - 1]
  }

  /** A callback has cut off the branch that `q` is on. */
  ghost predicate CutOff(matches: seq<Match>, paths: seq<seq<nat>>, q: seq<nat>) {
    exists i :: 0 <= i < |matches| && i < |paths| && matches[i].res.Prune? && paths[i] < q
  }

  /** Paths are emitted in order, before all that are still ahead, and none beyond a match that
      the callback pruned. */
  ghost predicate Sequenced(m: Fsm, max: nat, stack: seq<Frame>, matches: seq<Match>, paths: seq<seq<nat>>) {
    && |matches| == |paths|
    && (forall b {:trigger Peek(b)} :: Peek(b) ==>
          && (forall i, j :: 0 <= i < j < |paths| ==> Before(paths[i], paths[j]))
          && (forall j :: 0 <= j < |paths| ==> !CutOff(matches[..j], paths[..j], paths[j]))
          && (forall q, i :: 0 <= i < |paths| && IsTarget(m, max, q) && Pending(m, stack, q) ==> Before(paths[i], q))
          && (forall q :: IsTarget(m, max, q) && Pending(m, stack, q) ==> !CutOff(matches, paths, q)))
  }

  /** Every target is still ahead, or was emitted, or was cut off; none is emitted twice. */
  ghost predicate Progress(m: Fsm, max: nat, stack: seq<Frame>, matches: seq<Match>, paths: seq<seq<nat>>) {
    && |matches| == |paths| && Sequenced(m, max, stack, matches, paths)
    && (forall b {:trigger Look(b)} :: Look(b) ==>
          && Distinct(paths)
          && (forall i :: 0 <= i < |matches| ==> EmittedAt(m, max, matches, paths, i))
          && (forall i :: 0 <= i < |paths| ==> !Pending(m, stack, paths[i]))
          && (forall q :: IsTarget(m, max, q) ==> Pending(m, stack, q) || q in paths || CutOff(matches, paths, q)))
  }

  ghost predicate SamePending(m: Fsm, max: nat, stack: seq<Frame>, r: seq<Frame>) {
    forall q :: IsTarget(m, max, q) ==> (Pending(m, stack, q) <==> Pending(m, r, q))
  }

  lemma KeepSequenced(m: Fsm, max: nat, stack: seq<Frame>, r: seq<Frame>, matches: seq<Match>, paths: seq<seq<nat>>)
    requires Sequenced(m, max, stack, matches, paths) && SamePending(m, max, stack, r)
    ensures Sequenced(m, max, r, matches, paths)
  {
    assert Peek(true);
  }

  lemma KeepProgress(m: Fsm, max: nat, stack: seq<Frame>, r: seq<Frame>, matches: seq<Match>, paths: seq<seq<nat>>)
    requires Progress(m, max, stack, matches, paths) && SamePending(m, max, stack, r)
    ensures Progress(m, max, r, matches, paths)
  {
    KeepSequenced(m, max, stack, r, matches, paths);
    assert Look(true);
    forall i | 0 <= i < |paths|
      ensures !Pending(m, r, paths[i])
    {
      assert EmittedAt(m, max, matches, paths, i);
    }
  }

  lemma ProgressBegins(m: Fsm, max: nat, stack: seq<Frame>)
    requires m.start.Some? && m.start.value < |m.states| && stack == [Frame(m.start.value, None, EnteringState)]
    ensures Progress(m, max, stack, [], []) && Walking(m, max, stack, [])
  {
    forall q | IsTarget(m, max, q)
      ensures Pending(m, stack, q)
    {
      assert q[..1] == PathOf(stack)[..1];
      assert |q| > 1 ==> JoinedAt(m, q, 0);
      assert PendingAt(m, stack, q, 0);
    }
  }

  // ----- changes of the top frame -----

  lemma RetopWalking(m: Fsm, max: nat, stack: seq<Frame>, buf: seq<Byte>, f: Frame)
    requires Walking(m, max, stack, buf) && stack != []
    requires f.state == stack[|stack| - 1].state && FrameOk(m, f) && (f.selfEdge.Some? ==> |buf| < max)
    ensures Walking(m, max, Retop(stack, f), buf)
  {
    assert Look(true);
    var r := Retop(stack, f);
    forall k | 0 <= k < |r| - 1
      ensures ChildAt(m, r, k)
    {
      assert ChildAt(m, stack, k);
    }
  }

  /** The top frame's part of `SamePending`. */
  lemma RetopSame(m: Fsm, max: nat, stack: seq<Frame>, f: Frame)
    requires stack != [] && f.state == stack[|stack| - 1].state
    requires forall q :: IsTarget(m, max, q) ==> SameAhead(m, stack[|stack| - 1], f, q, PathOf(stack))
    ensures SamePending(m, max, stack, Retop(stack, f))
  {
    forall q | IsTarget(m, max, q)
      ensures Pending(m, stack, q) <==> Pending(m, Retop(stack, f), q)
    {
      RetopPending(m, stack, f, q);
    }
  }

  lemma UntriedAll(m: Fsm, u: nat)
    requires WellFormed(m) && u < |m.states|
    ensures forall v :: Joined(m, u, v) <==> Untried(m.states[u].edges, 0, v)
  {
    forall v
      ensures Joined(m, u, v) <==> Untried(m.states[u].edges, 0, v)
    {
      if Joined(m, u, v) {
        var i := JoiningGroup(m, u, v);
      }
      if Untried(m.states[u].edges, 0, v) {
        var es := m.states[u].edges;
        var g :| 0 <= g < |es| && es[g].to == v && es[g].symbols != {};
        LabelsOfGroup(es, g);
      }
    }
  }

  /** Entering a state: a callback is due exactly at end states. */
  lemma EnterSame(m: Fsm, max: nat, stack: seq<Frame>)
    requires WellFormed(m) && stack != []
    requires var f := stack[|stack| - 1]; FrameOk(m, f) && f.phase.EnteringState?
    ensures var f := stack[|stack| - 1];
            SamePending(m, max, stack, Retop(stack, f.(phase := if m.states[f.state].end then MatchCallback else StepEdges(0))))
  {
    var f := stack[|stack| - 1];
    var g := f.(phase := if m.states[f.state].end then MatchCallback else StepEdges(0));
    UntriedAll(m, f.state);
    forall q | IsTarget(m, max, q)
      ensures SameAhead(m, f, g, q, PathOf(stack))
    {
      if |q| == |stack| && q[..|stack|] == PathOf(stack) {
        assert q == PathOf(stack);
      }
    }
    RetopSame(m, max, stack, g);
  }

  /** A group back to the same state is kept for later. */
  lemma SaveSelfSame(m: Fsm, max: nat, stack: seq<Frame>, j: nat, c: Byte)
    requires WellFormed(m) && stack != []
    requires var f := stack[|stack| - 1]; FrameOk(m, f) && f.phase.StepEdges?
    requires var f := stack[|stack| - 1]; var es := m.states[f.state].edges;
             f.phase.next <= j < |es| && NoEdges(es, f.phase.next, j) && c in es[j].symbols && es[j].to == f.state
    ensures var f := stack[|stack| - 1]; var g := SavedSelf(f, j, c);
            FrameOk(m, g) && SamePending(m, max, stack, Retop(stack, g))
  {
    var f := stack[|stack| - 1];
    var es := m.states[f.state].edges;
    UntriedStep(es, f.phase.next, j);
    LabelsOfGroup(es, j);
    RetopSame(m, max, stack, SavedSelf(f, j, c));
  }

  function SavedSelf(f: Frame, j: nat, c: Byte): (g: Frame) {
    Frame(f.state, if f.selfEdge.None? then Some(c) else f.selfEdge, StepEdges(j + 1))
  }

  /** No groups left. */
  lemma EdgesDoneSame(m: Fsm, max: nat, stack: seq<Frame>)
    requires stack != []
    requires var f := stack[|stack| - 1]; FrameOk(m, f) && f.phase.StepEdges?
    requires var f := stack[|stack| - 1]; NoEdges(m.states[f.state].edges, f.phase.next, |m.states[f.state].edges|)
    ensures var f := stack[|stack| - 1]; SamePending(m, max, stack, Retop(stack, f.(phase := StepSelfRef)))
  {
    var f := stack[|stack| - 1];
    RetopSame(m, max, stack, f.(phase := StepSelfRef));
  }

  lemma SelfDoneSame(m: Fsm, max: nat, stack: seq<Frame>)
    requires stack != []
    requires var f := stack[|stack| - 1]; FrameOk(m, f) && f.phase.StepSelfRef? && f.selfEdge.None?
    ensures var f := stack[|stack| - 1]; SamePending(m, max, stack, Retop(stack, f.(phase := LeavingState)))
  {
    var f := stack[|stack| - 1];
    RetopSame(m, max, stack, f.(phase := LeavingState));
  }

  /** The rest of a path to an end state is at least as long as the end distance. */
  lemma RestLength(m: Fsm, sed: seq<nat>, q: seq<nat>, k: nat)
    requires IsDfa(m) && ExactDistances(m, sed) && IsPath(m, q) && m.states[q[|q| - 1]].end && k < |q|
    ensures sed[q[k]] <= |q| - 1 - k
  {
    var w := RestLeads(m, q, k);
    assert ExactAt(m, sed, q[k]);
    assert Observe(m, Run(m, q[k], w)).Some?;
  }

  /** A branch that is too far from any end, or at the length limit, holds no targets. */
  lemma PruneSame(m: Fsm, sed: seq<nat>, max: nat, stack: seq<Frame>)
    requires IsDfa(m) && ExactDistances(m, sed) && stack != [] && FrameOk(m, stack[|stack| - 1])
    requires var f := stack[|stack| - 1]; f.phase.StepEdges?
    requires |stack| - 1 + sed[stack[|stack| - 1].state] > max || |stack| - 1 == max
    ensures var f := stack[|stack| - 1]; SamePending(m, max, stack, Retop(stack, f.(phase := LeavingState)))
  {
    var f, t := stack[|stack| - 1], |stack| - 1;
    var g := f.(phase := LeavingState);
    forall q | IsTarget(m, max, q)
      ensures SameAhead(m, f, g, q, PathOf(stack))
    {
      if |stack| <= |q| && q[..|stack|] == PathOf(stack) {
        assert q[t] == q[..|stack|][t];
        RestLength(m, sed, q, t);
        assert |q| == |stack|;
      }
    }
    RetopSame(m, max, stack, g);
  }

  // ----- going on and coming back -----

  lemma PushSame(m: Fsm, max: nat, stack: seq<Frame>, g: Frame, v: nat)
    requires stack != [] && WentTo(m, stack[|stack| - 1], g, v) && v < |m.states|
    ensures SamePending(m, max, stack, Retop(stack, g) + [Frame(v, None, EnteringState)])
  {
    var r := Retop(stack, g) + [Frame(v, None, EnteringState)];
    forall q | IsTarget(m, max, q)
      ensures Pending(m, stack, q) <==> Pending(m, r, q)
    {
      if Pending(m, stack, q) {
        PushKeepsPending(m, stack, g, v, q);
      }
      if Pending(m, r, q) {
        PushAddsNothing(m, stack, g, v, q);
      }
    }
  }

  lemma PushWalking(m: Fsm, max: nat, stack: seq<Frame>, buf: seq<Byte>, v: nat, c: Byte)
    requires Walking(m, max, stack, buf) && stack != [] && |buf| < max && v < |m.states|
    requires var f := stack[|stack| - 1]; HasChild(m, f, v) && c in Between(m, f.state, v)
    ensures Walking(m, max, stack + [Frame(v, None, EnteringState)], buf + [c])
  {
    assert Look(true);
    var r, b := stack + [Frame(v, None, EnteringState)], buf + [c];
    assert PathOf(r) == PathOf(stack) + [v];
    forall k | 0 <= k < |r| - 1
      ensures ChildAt(m, r, k)
    {
      if k < |stack| - 1 {
        assert ChildAt(m, stack, k);
      }
    }
    forall k | 0 <= k < |b|
      ensures SpellsAt(m, PathOf(r), b, k)
    {
      if k < |buf| {
        assert SpellsAt(m, PathOf(stack), buf, k);
      }
    }
  }

  lemma PopWalking(m: Fsm, max: nat, stack: seq<Frame>, buf: seq<Byte>)
    requires Walking(m, max, stack, buf) && stack != []
    ensures |stack| > 1 ==> buf != [] && Walking(m, max, stack[..|stack| - 1], buf[..|buf| - 1])
    ensures |stack| > 1 ==> var f := stack[|stack| - 2]; f.phase.StepEdges? || f.phase.StepSelfRef?
    ensures |stack| == 1 ==> Walking(m, max, [], buf) && stack[..0] == []
  {
    assert Look(true);
    if |stack| > 1 {
      var r, b := stack[..|stack| - 1], buf[..|buf| - 1];
      assert ChildAt(m, stack, |stack| - 2);
      assert PathOf(r) == PathOf(stack)[..|r|];
      assert FrameOk(m, stack[|stack| - 2]);
      forall k | 0 <= k < |r| - 1
        ensures ChildAt(m, r, k)
      {
        assert ChildAt(m, stack, k);
      }
      forall k | 0 <= k < |b|
        ensures SpellsAt(m, PathOf(r), b, k)
      {
        assert SpellsAt(m, PathOf(stack), buf, k);
      }
    }
  }

  lemma PopSame(m: Fsm, max: nat, stack: seq<Frame>)
    requires stack != [] && stack[|stack| - 1].phase.LeavingState?
    ensures SamePending(m, max, stack, stack[..|stack| - 1])
  {
    forall q | IsTarget(m, max, q)
      ensures Pending(m, stack, q) <==> Pending(m, stack[..|stack| - 1], q)
    {
      PopPending(m, stack, q);
    }
  }

  /** Following group `j` to another state. */
  lemma FollowWent(m: Fsm, f: Frame, j: nat)
    requires WellFormed(m) && FrameOk(m, f) && f.phase.StepEdges?
    requires var es := m.states[f.state].edges;
             f.phase.next <= j < |es| && NoEdges(es, f.phase.next, j) && es[j].symbols != {} && es[j].to != f.state
    ensures var g, v := f.(phase := StepEdges(j + 1)), m.states[f.state].edges[j].to;
            FrameOk(m, g) && WentTo(m, f, g, v) && HasChild(m, g, v) && v < |m.states|
    ensures Between(m, f.state, m.states[f.state].edges[j].to) == m.states[f.state].edges[j].symbols
  {
    var es := m.states[f.state].edges;
    UntriedStep(es, f.phase.next, j);
    LabelsOfGroup(es, j);
  }

  /** Following the saved edge back to the same state. */
  lemma SelfWent(m: Fsm, f: Frame)
    requires FrameOk(m, f) && f.phase.StepSelfRef? && f.selfEdge.Some?
    ensures var g := f.(selfEdge := None); FrameOk(m, g) && WentTo(m, f, g, f.state) && HasChild(m, g, f.state)
  {
  }

  // ----- the callback -----

  /** What the top frame becomes after the callback. */
  function After(f: Frame, res: CbRes): (g: Frame) {
    f.(phase := if res.Prune? then LeavingState else StepEdges(0))
  }

  /** With the callback made, what is pending is what was pending before but for the path just
      emitted, and, after `Prune`, for the paths that extend it. */
  lemma EmitPending(m: Fsm, max: nat, stack: seq<Frame>, res: CbRes, q: seq<nat>)
    requires WellFormed(m) && stack != [] && IsTarget(m, max, q)
    requires var f := stack[|stack| - 1]; FrameOk(m, f) && f.phase.MatchCallback?
    ensures var r := Retop(stack, After(stack[|stack| - 1], res));
            && (Pending(m, r, q) ==> Pending(m, stack, q))
            && (Pending(m, stack, q) ==> Pending(m, r, q) || q == PathOf(stack) || (res.Prune? && PathOf(stack) < q))
  {
    var f, t := stack[|stack| - 1], |stack| - 1;
    var g := After(f, res);
    var r := Retop(stack, g);
    UntriedAll(m, f.state);
    assert PathOf(stack)[..t + 1] == PathOf(stack);
    if Pending(m, r, q) {
      EmitAddsNothing(m, max, stack, res, q);
    }
    if Pending(m, stack, q) {
      var k: nat :| PendingAt(m, stack, q, k);
      if k < t {
        PendingBelow(m, stack, r, q, k);
      } else if |q| == |stack| {
        assert q == PathOf(stack);
      } else if res.Prune? {
        assert PathOf(stack) < q;
      } else {
        assert PendingAt(m, r, q, t);
      }
    }
  }

  lemma EmitAddsNothing(m: Fsm, max: nat, stack: seq<Frame>, res: CbRes, q: seq<nat>)
    requires WellFormed(m) && stack != [] && IsTarget(m, max, q)
    requires var f := stack[|stack| - 1]; FrameOk(m, f) && f.phase.MatchCallback?
    requires Pending(m, Retop(stack, After(stack[|stack| - 1], res)), q)
    ensures Pending(m, stack, q)
  {
    var f, t := stack[|stack| - 1], |stack| - 1;
    var r := Retop(stack, After(f, res));
    UntriedAll(m, f.state);
    var k: nat :| PendingAt(m, r, q, k);
    if k < t {
      PendingBelow(m, r, stack, q, k);
    } else {
      assert PendingAt(m, stack, q, t);
    }
  }

  /** The path on the stack is not pending once its callback is made. */
  lemma EmittedNotPending(m: Fsm, stack: seq<Frame>, f: Frame)
    requires StackOk(m, stack) && stack != [] && f.state == stack[|stack| - 1].state
    requires f.phase.StepEdges? || f.phase.LeavingState?
    ensures !Pending(m, Retop(stack, f), PathOf(stack))
  {
    var r, q := Retop(stack, f), PathOf(stack);
    if Pending(m, r, q) {
      var k: nat :| PendingAt(m, r, q, k);
      NotAhead(m, stack, f, k);
    }
  }

  lemma NotAhead(m: Fsm, stack: seq<Frame>, f: Frame, k: nat)
    requires StackOk(m, stack) && stack != [] && f.state == stack[|stack| - 1].state
    requires f.phase.StepEdges? || f.phase.LeavingState?
    ensures !PendingAt(m, Retop(stack, f), PathOf(stack), k)
  {
    if k < |stack| - 1 {
      assert ChildAt(m, stack, k);
    }
  }

  /** Of two states that a frame goes to, the one it has gone to is taken first. */
  lemma LeftIsLater(m: Fsm, f: Frame, v: nat, w: nat)
    requires WellFormed(m) && f.state < |m.states| && HasChild(m, f, v) && EdgeLeft(m, f, w)
    ensures TakenBefore(f.state, v, w)
  {
    if f.phase.StepEdges? && w != f.state {
      var es := m.states[f.state].edges;
      var i := JoiningGroup(m, f.state, v);
      var j :| f.phase.next <= j < |es| && es[j].to == w && es[j].symbols != {};
      assert i < f.phase.next;
    }
  }

  /** Whatever is ahead once the path on the stack is emitted comes later than it. */
  lemma EmittedFirst(m: Fsm, max: nat, stack: seq<Frame>, f: Frame, q: seq<nat>)
    requires WellFormed(m) && StackOk(m, stack) && stack != [] && f.state == stack[|stack| - 1].state
    requires f.phase.StepEdges? || f.phase.LeavingState?
    requires Pending(m, Retop(stack, f), q)
    ensures Before(PathOf(stack), q)
  {
    var p, r, t := PathOf(stack), Retop(stack, f), |stack| - 1;
    var k: nat :| PendingAt(m, r, q, k);
    assert p[..t + 1] == p;
    if k < t {
      assert ChildAt(m, stack, k);
      LeftIsLater(m, stack[k], p[k + 1], q[k + 1]);
      assert q[k] == q[..k + 1][k] == p[k];
      assert ForkAt(p, q, k + 1);
    } else {
      assert p < q;
    }
  }

  lemma NotCutOffMore(matches: seq<Match>, paths: seq<seq<nat>>, x: Match, p: seq<nat>, q: seq<nat>)
    requires |matches| == |paths| && !CutOff(matches, paths, q) && !(x.res.Prune? && p < q)
    ensures !CutOff(matches + [x], paths + [p], q)
  {
    var ms, ps := matches + [x], paths + [p];
    forall i | 0 <= i < |ms|
      ensures !(ms[i].res.Prune? && ps[i] < q)
    {
      assert i < |matches| ==> ms[i] == matches[i] && ps[i] == paths[i];
    }
  }

  /** Emitting the path on the stack keeps the order. */
  lemma EmitSequenced(m: Fsm, max: nat, stack: seq<Frame>, matches: seq<Match>, paths: seq<seq<nat>>, x: Match)
    requires WellFormed(m) && StackOk(m, stack) && Sequenced(m, max, stack, matches, paths) && stack != []
    requires var f := stack[|stack| - 1]; FrameOk(m, f) && f.phase.MatchCallback?
    requires IsTarget(m, max, PathOf(stack)) && Pending(m, stack, PathOf(stack))
    ensures Sequenced(m, max, Retop(stack, After(stack[|stack| - 1], x.res)), matches + [x], paths + [PathOf(stack)])
  {
    assert Peek(true);
    var f, p := stack[|stack| - 1], PathOf(stack);
    var r := Retop(stack, After(f, x.res));
    var ms, ps := matches + [x], paths + [p];
    forall j | 0 <= j < |ps|
      ensures !CutOff(ms[..j], ps[..j], ps[j])
    {
      assert ms[..j] == matches[..j] && ps[..j] == paths[..j];
      assert j == |paths| ==> matches[..j] == matches && paths[..j] == paths;
    }
    forall q | IsTarget(m, max, q) && Pending(m, r, q)
      ensures !CutOff(ms, ps, q) && forall i :: 0 <= i < |ps| ==> Before(ps[i], q)
    {
      EmitPending(m, max, stack, x.res, q);
      EmittedFirst(m, max, stack, After(f, x.res), q);
      PrunedNotAhead(m, stack, After(f, x.res), q);
      NotCutOffMore(matches, paths, x, p, q);
    }
  }

  /** Nothing beyond the path on the stack is ahead of a frame that is being left. */
  lemma PrunedNotAhead(m: Fsm, stack: seq<Frame>, f: Frame, q: seq<nat>)
    requires StackOk(m, stack) && stack != [] && f.state == stack[|stack| - 1].state && Pending(m, Retop(stack, f), q)
    ensures f.phase.LeavingState? ==> !(PathOf(stack) < q)
  {
    var k: nat :| PendingAt(m, Retop(stack, f), q, k);
    if k < |stack| - 1 {
      assert ChildAt(m, stack, k);
      assert q[k + 1] != PathOf(stack)[k + 1];
    }
  }

  lemma EmitProgress(m: Fsm, max: nat, stack: seq<Frame>, buf: seq<Byte>, matches: seq<Match>, paths: seq<seq<nat>>, res: CbRes)
    requires WellFormed(m) && Walking(m, max, stack, buf) && Progress(m, max, stack, matches, paths) && stack != []
    requires stack[|stack| - 1].phase.MatchCallback?
    ensures var f := stack[|stack| - 1];
            && FrameOk(m, After(f, res))
            && Progress(m, max, Retop(stack, After(f, res)), matches + [Match(buf, f.state, res)], paths + [PathOf(stack)])
  {
    assert Look(true);
    var f, p := stack[|stack| - 1], PathOf(stack);
    var r := Retop(stack, After(f, res));
    var ms, ps := matches + [Match(buf, f.state, res)], paths + [p];
    StackIsPath(m, stack);
    assert p[..|p|] == p;
    assert PendingAt(m, stack, p, |p| - 1);
    EmittedNotPending(m, stack, After(f, res));
    EmitSequenced(m, max, stack, matches, paths, Match(buf, f.state, res));
    forall i | 0 <= i < |ms|
      ensures EmittedAt(m, max, ms, ps, i) && !Pending(m, r, ps[i])
    {
      if i < |matches| {
        assert EmittedAt(m, max, matches, paths, i);
        EmitPending(m, max, stack, res, paths[i]);
      }
    }
    forall q | IsTarget(m, max, q)
      ensures Pending(m, r, q) || q in ps || CutOff(ms, ps, q)
    {
      EmitPending(m, max, stack, res, q);
      CutOffMore(matches, paths, Match(buf, f.state, res), p, q);
      assert q in paths ==> q in ps;
      assert ps[|paths|] == p;
    }
  }

  lemma CutOffMore(matches: seq<Match>, paths: seq<seq<nat>>, x: Match, p: seq<nat>, q: seq<nat>)
    requires |matches| == |paths|
    ensures CutOff(matches, paths, q) || (x.res.Prune? && p < q) ==> CutOff(matches + [x], paths + [p], q)
  {
    var ms, ps := matches + [x], paths + [p];
    if CutOff(matches, paths, q) {
      var i :| 0 <= i < |matches| && matches[i].res.Prune? && paths[i] < q;
      assert ms[i] == matches[i] && ps[i] == paths[i];
    }
    if x.res.Prune? && p < q {
      assert ms[|matches|] == x && ps[|paths|] == p;
    }
  }

  // ----- choosing a symbol -----

  predicate IsPrint(c: Byte) { 0x20 <= c <= 0x7e }

  /** A printable symbol other than a space. */
  predicate IsGraph(c: Byte) { 0x20 < c <= 0x7e }

  /** The least printable symbol other than a space; failing that the zero byte, if it is
      there; failing that the least symbol. */
  ghost predicate IsFirst(symbols: set<Byte>, c: Byte) {
    && c in symbols
    && ((exists d :: d in symbols && IsGraph(d)) ==> IsGraph(c) && forall d :: d in symbols && IsGraph(d) ==> c <= d)
    && ((forall d :: d in symbols ==> !IsGraph(d)) ==> if 0 in symbols then c == 0 else forall d :: d in symbols ==> c <= d)
  }

  lemma FirstUnique(symbols: set<Byte>, c: Byte, d: Byte)
    requires IsFirst(symbols, c) && IsFirst(symbols, d)
    ensures c == d
  {
  }

  method FirstSymbol(symbols: set<Byte>) returns (c: Byte)
    requires symbols != {}
    ensures IsFirst(symbols, c)
  {
    var any: Option<Byte> := None;
    for i := 0 to 256
      invariant forall d: Byte :: d < i && d in symbols ==> !IsGraph(d)
      invariant match any
                case None => forall d: Byte :: 0 < d < i ==> d !in symbols
                case Some(a) => 0 < a < i && a in symbols && forall d: Byte :: 0 < d < i && d in symbols ==> a <= d
    {
      if i in symbols && i != 0 {
        if IsGraph(i) {
          return i;
        }
        if any.None? {
          any := Some(i);
        }
      }
    }
    if 0 in symbols {
      return 0;
    }
    c := any.value;
  }

  /** The printable symbols below `i`, or the others, in order; never the zero byte. */
  function Choices(symbols: set<Byte>, printable: bool, i: nat): (cs: seq<Byte>)
    requires i <= 256
  {
    if i <= 1 then [] else
      Choices(symbols, printable, i - 1) + if i - 1 in symbols && IsPrint(i - 1) == printable then [i - 1] else []
  }

  /** The `r`-th, wrapping around, of the printable symbols; failing that of the others but the
      zero byte, which is taken only when it is alone. */
  function RandomChoice(symbols: set<Byte>, r: nat): (c: Byte) {
    var choices, others := Choices(symbols, true, 256), Choices(symbols, false, 256);
    if |choices| > 0 then choices[r % |choices|] else if |others| > 0 then others[r % |others|] else 0
  }

  method RandomSymbol(symbols: set<Byte>, r: nat) returns (c: Byte)
    requires symbols != {}
    ensures c in symbols
    ensures (exists d :: d in symbols && IsPrint(d)) ==> IsPrint(c)
    ensures c == 0 ==> symbols == {0}
    ensures c == RandomChoice(symbols, r)
  {
    var choices: seq<Byte>, others: seq<Byte> := [], [];
    for i := 1 to 256
      invariant forall d: Byte :: d in choices <==> 0 < d < i && d in symbols && IsPrint(d)
      invariant forall d: Byte :: d in others <==> 0 < d < i && d in symbols && !IsPrint(d)
      invariant choices == Choices(symbols, true, i) && others == Choices(symbols, false, i)
    {
      if i in symbols {
        if IsPrint(i) {
          choices := choices + [i];
        } else {
          others := others + [i];
        }
      }
    }
    if |choices| > 0 {
      c := choices[r % |choices|];
      assert c in choices;
    } else if |others| > 0 {
      c := others[r % |others|];
      assert c in others;
    } else {
      c := 0;
      assert forall d :: d in symbols ==> d == 0;
    }
  }

  /** How a symbol is chosen from those of a group. */
  ghost predicate Picked(randomized: bool, rand: nat -> nat, symbols: set<Byte>, c: Byte) {
    if randomized then exists n: nat :: c == RandomChoice(symbols, rand(n)) else IsFirst(symbols, c)
  }

  ghost predicate PickedAt(m: Fsm, randomized: bool, rand: nat -> nat, p: seq<nat>, w: seq<Byte>, k: nat)
    requires k < |w| && k + 1 < |p|
  {
    Picked(randomized, rand, Between(m, p[k], p[k + 1]), w[k])
  }

  /** Each symbol of `w` is the one chosen for its step along `p`. */
  ghost predicate WordPicked(m: Fsm, randomized: bool, rand: nat -> nat, p: seq<nat>, w: seq<Byte>) {
    |p| == |w| + 1 && forall k :: 0 <= k < |w| ==> PickedAt(m, randomized, rand, p, w, k)
  }

  /** The symbols in the buffer, those put off for later and those emitted are the ones chosen. */
  ghost predicate Choosing(m: Fsm, randomized: bool, rand: nat -> nat, stack: seq<Frame>, buf: seq<Byte>,
                           matches: seq<Match>, paths: seq<seq<nat>>)
  {
    forall b {:trigger Look(b)} :: Look(b) ==>
      && |matches| == |paths| && (stack != [] ==> WordPicked(m, randomized, rand, PathOf(stack), buf))
      && (forall k :: 0 <= k < |stack| ==> SelfPicked(m, randomized, rand, stack[k]))
      && (forall i :: 0 <= i < |paths| ==> WordPicked(m, randomized, rand, paths[i], matches[i].word))
  }

  ghost predicate SelfPicked(m: Fsm, randomized: bool, rand: nat -> nat, f: Frame) {
    f.selfEdge.Some? ==> Picked(randomized, rand, Between(m, f.state, f.state), f.selfEdge.value)
  }

  lemma ChoosingSelf(m: Fsm, randomized: bool, rand: nat -> nat, stack: seq<Frame>, buf: seq<Byte>,
                     matches: seq<Match>, paths: seq<seq<nat>>)
    requires Choosing(m, randomized, rand, stack, buf, matches, paths) && stack != []
    ensures SelfPicked(m, randomized, rand, stack[|stack| - 1])
  {
    assert Look(true);
  }

  lemma ChoosingRetop(m: Fsm, randomized: bool, rand: nat -> nat, stack: seq<Frame>, buf: seq<Byte>,
                      matches: seq<Match>, paths: seq<seq<nat>>, f: Frame)
    requires Choosing(m, randomized, rand, stack, buf, matches, paths) && stack != []
    requires f.state == stack[|stack| - 1].state && SelfPicked(m, randomized, rand, f)
    ensures Choosing(m, randomized, rand, Retop(stack, f), buf, matches, paths)
  {
    assert Look(true);
  }

  lemma ChoosingPush(m: Fsm, randomized: bool, rand: nat -> nat, stack: seq<Frame>, buf: seq<Byte>,
                     matches: seq<Match>, paths: seq<seq<nat>>, v: nat, c: Byte)
    requires Choosing(m, randomized, rand, stack, buf, matches, paths) && stack != []
    requires Picked(randomized, rand, Between(m, stack[|stack| - 1].state, v), c)
    ensures Choosing(m, randomized, rand, stack + [Frame(v, None, EnteringState)], buf + [c], matches, paths)
  {
    assert Look(true);
    var r, b := stack + [Frame(v, None, EnteringState)], buf + [c];
    assert PathOf(r) == PathOf(stack) + [v];
    forall k | 0 <= k < |b|
      ensures PickedAt(m, randomized, rand, PathOf(r), b, k)
    {
      if k < |buf| {
        assert PickedAt(m, randomized, rand, PathOf(stack), buf, k);
      }
    }
  }

  lemma ChoosingPop(m: Fsm, randomized: bool, rand: nat -> nat, stack: seq<Frame>, buf: seq<Byte>,
                    matches: seq<Match>, paths: seq<seq<nat>>)
    requires Choosing(m, randomized, rand, stack, buf, matches, paths) && stack != []
    ensures |stack| > 1 ==> buf != [] && Choosing(m, randomized, rand, stack[..|stack| - 1], buf[..|buf| - 1], matches, paths)
    ensures |stack| == 1 ==> Choosing(m, randomized, rand, [], buf, matches, paths)
  {
    assert Look(true);
    if |stack| > 1 {
      var r, b := stack[..|stack| - 1], buf[..|buf| - 1];
      assert PathOf(r) == PathOf(stack)[..|r|];
      forall k | 0 <= k < |b|
        ensures PickedAt(m, randomized, rand, PathOf(r), b, k)
      {
        assert PickedAt(m, randomized, rand, PathOf(stack), buf, k);
      }
    }
  }

  lemma ChoosingEmit(m: Fsm, randomized: bool, rand: nat -> nat, stack: seq<Frame>, buf: seq<Byte>,
                     matches: seq<Match>, paths: seq<seq<nat>>, x: Match, f: Frame)
    requires Choosing(m, randomized, rand, stack, buf, matches, paths) && stack != [] && x.word == buf
    requires f.state == stack[|stack| - 1].state && f.selfEdge == stack[|stack| - 1].selfEdge
    ensures Choosing(m, randomized, rand, Retop(stack, f), buf, matches + [x], paths + [PathOf(stack)])
  {
    assert Look(true);
  }

  // ----- how long it can take -----

  function Unit(m: Fsm, f: Frame): (u: nat) {
    var most := MaxGroups(m.states);
    match f.phase
    case EnteringState => most + 6
    case MatchCallback => most + 5
    case StepEdges(next) =>
      if f.state < |m.states| && next <= |m.states[f.state].edges| then |m.states[f.state].edges| - next + 4 else 0
    case StepSelfRef => if f.selfEdge.Some? then 3 else 2
    case LeavingState => 1
  }

  function Units(m: Fsm, stack: seq<Frame>): (us: seq<nat>)
    ensures |us| == |stack|
  {
    seq(|stack|, k requires 0 <= k < |stack| => Unit(m, stack[k]))
  }

  function Work(m: Fsm, max: nat, stack: seq<Frame>): (w: nat) {
    Weight(Units(m, stack), MaxGroups(m.states) + 7, max + 1)
  }

  lemma WorkRetop(m: Fsm, max: nat, stack: seq<Frame>, f: Frame)
    requires stack != [] && f.state == stack[|stack| - 1].state && Unit(m, f) < Unit(m, stack[|stack| - 1])
    ensures Work(m, max, Retop(stack, f)) < Work(m, max, stack)
    ensures forall v :: |stack| <= max ==>
              Work(m, max, Retop(stack, f) + [Frame(v, None, EnteringState)]) < Work(m, max, stack)
  {
    var us := Units(m, stack);
    assert Units(m, Retop(stack, f)) == us[|stack| - 1 := Unit(m, f)];
    WeightLower(us, Unit(m, f), MaxGroups(m.states) + 7, max + 1);
    forall v | |stack| <= max
      ensures Work(m, max, Retop(stack, f) + [Frame(v, None, EnteringState)]) < Work(m, max, stack)
    {
      WorkPush(m, max, stack, f, v);
    }
  }

  lemma WorkPush(m: Fsm, max: nat, stack: seq<Frame>, f: Frame, v: nat)
    requires stack != [] && f.state == stack[|stack| - 1].state && Unit(m, f) < Unit(m, stack[|stack| - 1]) && |stack| <= max
    ensures Work(m, max, Retop(stack, f) + [Frame(v, None, EnteringState)]) < Work(m, max, stack)
  {
    var us, b := Units(m, stack), MaxGroups(m.states) + 7;
    var low := us[|stack| - 1 := Unit(m, f)];
    assert Units(m, Retop(stack, f) + [Frame(v, None, EnteringState)]) == low + [MaxGroups(m.states) + 6];
    WeightLower(us, Unit(m, f), b, max + 1);
    WeightPush(low, MaxGroups(m.states) + 6, b, max + 1);
  }

  lemma WorkPop(m: Fsm, max: nat, stack: seq<Frame>)
    requires stack != [] && stack[|stack| - 1].phase.LeavingState?
    ensures Work(m, max, stack[..|stack| - 1]) < Work(m, max, stack)
  {
    assert Units(m, stack[..|stack| - 1]) == Units(m, stack)[..|stack| - 1];
    WeightPop(Units(m, stack), MaxGroups(m.states) + 7, max + 1);
  }

  // ----- all together -----

  /** The state of the machine. */
  ghost predicate Running(m: Fsm, max: nat, randomized: bool, rand: nat -> nat, stack: seq<Frame>, buf: seq<Byte>,
                          matches: seq<Match>, paths: seq<seq<nat>>)
  {
    && |buf| <= max
    && (stack != [] ==> var f := stack[|stack| - 1];
          |stack| == |buf| + 1 && FrameOk(m, f) && SelfPicked(m, randomized, rand, f) && (f.selfEdge.Some? ==> |buf| < max))
    && (forall b {:trigger Peek(b)} :: Peek(b) ==>
          && Walking(m, max, stack, buf) && Progress(m, max, stack, matches, paths)
          && Choosing(m, randomized, rand, stack, buf, matches, paths))
  }

  /** Another top frame with the same ahead of it. */
  lemma RunRetop(m: Fsm, max: nat, randomized: bool, rand: nat -> nat, stack: seq<Frame>, buf: seq<Byte>,
                 matches: seq<Match>, paths: seq<seq<nat>>, f: Frame)
    requires Running(m, max, randomized, rand, stack, buf, matches, paths) && stack != []
    requires f.state == stack[|stack| - 1].state && FrameOk(m, f) && (f.selfEdge.Some? ==> |buf| < max)
    requires SelfPicked(m, randomized, rand, f) && SamePending(m, max, stack, Retop(stack, f))
    requires Unit(m, f) < Unit(m, stack[|stack| - 1])
    ensures Running(m, max, randomized, rand, Retop(stack, f), buf, matches, paths)
    ensures Work(m, max, Retop(stack, f)) < Work(m, max, stack)
  {
    assert Peek(true);
    ChoosingRetop(m, randomized, rand, stack, buf, matches, paths, f);
    RetopWalking(m, max, stack, buf, f);
    KeepProgress(m, max, stack, Retop(stack, f), matches, paths);
    WorkRetop(m, max, stack, f);
  }

  /** The top frame becomes `g` and the walk goes on to `v`. */
  lemma RunPush(m: Fsm, max: nat, randomized: bool, rand: nat -> nat, stack: seq<Frame>, buf: seq<Byte>,
                matches: seq<Match>, paths: seq<seq<nat>>, g: Frame, v: nat, c: Byte)
    requires Running(m, max, randomized, rand, stack, buf, matches, paths) && stack != [] && |buf| < max && v < |m.states|
    requires WentTo(m, stack[|stack| - 1], g, v) && FrameOk(m, g) && HasChild(m, g, v)
    requires c in Between(m, g.state, v) && Unit(m, g) < Unit(m, stack[|stack| - 1])
    requires Picked(randomized, rand, Between(m, g.state, v), c) && SelfPicked(m, randomized, rand, g)
    ensures var r := Retop(stack, g) + [Frame(v, None, EnteringState)];
            Running(m, max, randomized, rand, r, buf + [c], matches, paths) && Work(m, max, r) < Work(m, max, stack)
  {
    assert Peek(true);
    RetopWalking(m, max, stack, buf, g);
    PushWalking(m, max, Retop(stack, g), buf, v, c);
    ChoosingRetop(m, randomized, rand, stack, buf, matches, paths, g);
    ChoosingPush(m, randomized, rand, Retop(stack, g), buf, matches, paths, v, c);
    PushSame(m, max, stack, g, v);
    KeepProgress(m, max, stack, Retop(stack, g) + [Frame(v, None, EnteringState)], matches, paths);
    WorkPush(m, max, stack, g, v);
  }

  /** The walk goes back. */
  lemma RunPop(m: Fsm, max: nat, randomized: bool, rand: nat -> nat, stack: seq<Frame>, buf: seq<Byte>,
               matches: seq<Match>, paths: seq<seq<nat>>)
    requires Running(m, max, randomized, rand, stack, buf, matches, paths) && stack != []
    requires stack[|stack| - 1].phase.LeavingState?
    ensures Work(m, max, stack[..|stack| - 1]) < Work(m, max, stack)
    ensures |stack| > 1 ==> buf != [] && Running(m, max, randomized, rand, stack[..|stack| - 1], buf[..|buf| - 1], matches, paths)
    ensures |stack| == 1 ==> stack[..0] == [] && Running(m, max, randomized, rand, [], buf, matches, paths)
  {
    assert Peek(true);
    PopWalking(m, max, stack, buf);
    ChoosingPop(m, randomized, rand, stack, buf, matches, paths);
    PopSame(m, max, stack);
    KeepProgress(m, max, stack, stack[..|stack| - 1], matches, paths);
    WorkPop(m, max, stack);
    if |stack| > 1 {
      ChoosingSelf(m, randomized, rand, stack[..|stack| - 1], buf[..|buf| - 1], matches, paths);
    } else {
      assert stack[..|stack| - 1] == [];
    }
  }

  /** The callback is called and answers. */
  lemma RunEmit(m: Fsm, max: nat, randomized: bool, rand: nat -> nat, stack: seq<Frame>, buf: seq<Byte>,
                matches: seq<Match>, paths: seq<seq<nat>>, res: CbRes)
    requires WellFormed(m) && Running(m, max, randomized, rand, stack, buf, matches, paths) && stack != []
    requires stack[|stack| - 1].phase.MatchCallback?
    ensures var f := stack[|stack| - 1]; var r := Retop(stack, After(f, res));
            && Running(m, max, randomized, rand, r, buf, matches + [Match(buf, f.state, res)], paths + [PathOf(stack)])
            && Work(m, max, r) < Work(m, max, stack)
  {
    assert Peek(true);
    var f := stack[|stack| - 1];
    EmitProgress(m, max, stack, buf, matches, paths, res);
    RetopWalking(m, max, stack, buf, After(f, res));
    ChoosingEmit(m, randomized, rand, stack, buf, matches, paths, Match(buf, f.state, res), After(f, res));
    WorkRetop(m, max, stack, After(f, res));
  }

  // ----- the machine -----

  class GenCtx {
    const m: Fsm
    const sed: seq<nat>
    const maxLength: nat
    const randomized: bool
    const rand: nat -> nat
    const cb: (seq<Match>, seq<Byte>, nat) -> CbRes
    var done: bool
    var buf: array<Byte>
    var bufUsed: nat
    var steps: nat
    var stack: seq<Frame>
    var matches: seq<Match>
    ghost var paths: seq<seq<nat>>

    ghost predicate Valid()
      reads this, buf
    {
      && IsDfa(m) && ExactDistances(m, sed)
      && bufUsed < buf.Length
      && Running(m, maxLength, randomized, rand, stack, buf[..bufUsed], matches, paths)
      && (!done ==> stack != [])
      && OnlyLastHalts(matches, done)
    }

    /** What a callback that halts leaves behind. */
    ghost predicate Halted()
      reads this
    {
      matches != [] && matches[|matches| - 1].res.Halt?
    }

    /** Enter state `entry`, wherever the machine starts. */
    constructor (fsm: Fsm, entry: nat, sed: seq<nat>, maxLength: nat, randomized: bool, rand: nat -> nat,
                 cb: (seq<Match>, seq<Byte>, nat) -> CbRes)
      requires IsDfa(fsm) && ExactDistances(fsm, sed) && entry < |fsm.states|
      ensures m == From(fsm, entry) && this.maxLength == maxLength && this.cb == cb
      ensures this.randomized == randomized && this.rand == rand
      ensures Valid() && fresh(buf) && !done && matches == []
    {
      FromExact(fsm, entry, sed);
      m, this.sed, this.maxLength, this.randomized, this.rand, this.cb :=
        From(fsm, entry), sed, maxLength, randomized, rand, cb;
      buf := new Byte[4](_ => 0);
      bufUsed, steps, done, matches, paths := 0, 0, false, [], [];
      stack := [Frame(entry, None, EnteringState)];
      new;
      ProgressBegins(m, maxLength, stack);
      assert buf[..bufUsed] == [] && PathOf(stack) == [entry];
    }

    /** Replace the top frame. */
    method SetTop(f: Frame)
      requires Valid() && stack != [] && f.state == stack[|stack| - 1].state
      requires FrameOk(m, f) && (f.selfEdge.Some? ==> bufUsed < maxLength)
      requires SelfPicked(m, randomized, rand, f)
      requires SamePending(m, maxLength, stack, Retop(stack, f)) && Unit(m, f) < Unit(m, stack[|stack| - 1])
      modifies this`stack
      ensures Valid() && Work(m, maxLength, stack) < old(Work(m, maxLength, stack))
    {
      RunRetop(m, maxLength, randomized, rand, stack, buf[..bufUsed], matches, paths, f);
      stack := stack[|stack| - 1 := f];
    }

    method GrowBuf()
      requires buf.Length > 0 && bufUsed <= buf.Length
      modifies this`buf
      ensures fresh(buf) && buf.Length == 2 * old(buf.Length)
      ensures buf[..bufUsed] == old(buf[..bufUsed])
    {
      var nbuf := new Byte[2 * buf.Length](_ => 0);
      forall i | 0 <= i < bufUsed {
        nbuf[i] := buf[i];
      }
      buf := nbuf;
    }

    /** Append `c`, leaving room for a terminator. */
    method Append(c: Byte)
      requires bufUsed < buf.Length
      modifies this`buf, this`bufUsed, buf
      ensures bufUsed < buf.Length && (buf == old(buf) || fresh(buf))
      ensures bufUsed == old(bufUsed) + 1 && buf[..bufUsed] == old(buf[..bufUsed]) + [c]
    {
      ghost var b := buf[..bufUsed];
      buf[bufUsed] := c;
      bufUsed := bufUsed + 1;
      assert buf[..bufUsed] == b + [c];
      if bufUsed >= buf.Length {
        GrowBuf();
      }
      buf[bufUsed] := 0;
      assert buf[..bufUsed] == b + [c];
    }

    /** Append `c` to the buffer and enter `v`, the top frame having become `g`. */
    method Go(g: Frame, v: nat, c: Byte)
      requires Valid() && stack != [] && bufUsed < maxLength && v < |m.states|
      requires WentTo(m, stack[|stack| - 1], g, v) && FrameOk(m, g) && HasChild(m, g, v)
      requires c in Between(m, g.state, v) && Unit(m, g) < Unit(m, stack[|stack| - 1])
      requires Picked(randomized, rand, Between(m, g.state, v), c) && SelfPicked(m, randomized, rand, g)
      modifies this, buf
      ensures Valid() && (buf == old(buf) || fresh(buf)) && Work(m, maxLength, stack) < old(Work(m, maxLength, stack))
      ensures done == old(done) && matches == old(matches)
    {
      RunPush(m, maxLength, randomized, rand, stack, buf[..bufUsed], matches, paths, g, v, c);
      stack := stack[|stack| - 1 := g] + [Frame(v, None, EnteringState)];
      Append(c);
    }

    method EnteringStep()
      requires Valid() && !done && stack[|stack| - 1].phase.EnteringState?
      modifies this`stack
      ensures Valid() && Work(m, maxLength, stack) < old(Work(m, maxLength, stack))
    {
      var f := stack[|stack| - 1];
      EnterSame(m, maxLength, stack);
      SetTop(f.(phase := if m.states[f.state].end then MatchCallback else StepEdges(0)));
    }

    method CallMatchCallback()
      requires Valid() && !done && stack[|stack| - 1].phase.MatchCallback? && AnsweredBy(cb, matches)
      modifies this`stack, this`matches, this`paths, this`done
      ensures Valid() && Work(m, maxLength, stack) < old(Work(m, maxLength, stack))
      ensures |matches| == |old(matches)| + 1 && matches[..|old(matches)|] == old(matches)
      ensures var x := matches[|matches| - 1]; x.res == cb(old(matches), x.word, x.end)
      ensures AnsweredBy(cb, matches)
      ensures done <==> matches[|matches| - 1].res.Halt?
    {
      var f := stack[|stack| - 1];
      var word := buf[..bufUsed];
      var res := cb(matches, word, f.state);
      RunEmit(m, maxLength, randomized, rand, stack, word, matches, paths, res);
      AnsweredMore(cb, matches, Match(word, f.state, res));
      paths := paths + [PathOf(stack)];
      matches := matches + [Match(word, f.state, res)];
      done := res.Halt?;
      stack := stack[|stack| - 1 := f.(phase := if res.Prune? then LeavingState else StepEdges(0))];
    }

    method PickSymbol(symbols: set<Byte>) returns (c: Byte)
      requires symbols != {}
      ensures c in symbols && Picked(randomized, rand, symbols, c)
    {
      if randomized {
        c := RandomSymbol(symbols, rand(steps));
      } else {
        c := FirstSymbol(symbols);
      }
    }

    method StepEdgesStep()
      requires Valid() && !done && stack[|stack| - 1].phase.StepEdges?
      modifies this, buf
      ensures Valid() && (buf == old(buf) || fresh(buf)) && Work(m, maxLength, stack) < old(Work(m, maxLength, stack))
      ensures !done && matches == old(matches)
    {
      var f := stack[|stack| - 1];
      var es := m.states[f.state].edges;
      if bufUsed + sed[f.state] > maxLength || maxLength == bufUsed {
        PruneSame(m, sed, maxLength, stack);
        SetTop(f.(phase := LeavingState));
        return;
      }
      var found, j := NextGroup(es, f.phase.next);
      if !found {
        EdgesDoneSame(m, maxLength, stack);
        SetTop(f.(phase := StepSelfRef));
        return;
      }
      TakeGroup(j);
    }

    /** Follow group `j`, or put it off if it leads back to the same state. */
    method TakeGroup(j: nat)
      requires Valid() && !done && stack[|stack| - 1].phase.StepEdges? && bufUsed < maxLength
      requires var f := stack[|stack| - 1]; var es := m.states[f.state].edges;
               f.phase.next <= j < |es| && NoEdges(es, f.phase.next, j) && es[j].symbols != {}
      modifies this, buf
      ensures Valid() && (buf == old(buf) || fresh(buf)) && Work(m, maxLength, stack) < old(Work(m, maxLength, stack))
      ensures !done && matches == old(matches)
    {
      var f := stack[|stack| - 1];
      var group := m.states[f.state].edges[j];
      var symbol := PickSymbol(group.symbols);
      if group.to == f.state {
        LabelsOfGroup(m.states[f.state].edges, j);
        SaveSelfSame(m, maxLength, stack, j, symbol);
        SetTop(SavedSelf(f, j, symbol));
      } else {
        FollowGroup(j, symbol);
      }
    }

    method FollowGroup(j: nat, symbol: Byte)
      requires Valid() && !done && stack[|stack| - 1].phase.StepEdges? && bufUsed < maxLength
      requires var f := stack[|stack| - 1]; var es := m.states[f.state].edges;
               && f.phase.next <= j < |es| && NoEdges(es, f.phase.next, j) && es[j].to != f.state
               && symbol in es[j].symbols && Picked(randomized, rand, es[j].symbols, symbol)
      modifies this, buf
      ensures Valid() && (buf == old(buf) || fresh(buf)) && Work(m, maxLength, stack) < old(Work(m, maxLength, stack))
      ensures !done && matches == old(matches)
    {
      var f := stack[|stack| - 1];
      FollowWent(m, f, j);
      Go(f.(phase := StepEdges(j + 1)), m.states[f.state].edges[j].to, symbol);
    }

    method StepSelfRefStep()
      requires Valid() && !done && stack[|stack| - 1].phase.StepSelfRef?
      modifies this, buf
      ensures Valid() && (buf == old(buf) || fresh(buf)) && Work(m, maxLength, stack) < old(Work(m, maxLength, stack))
      ensures !done && matches == old(matches)
    {
      var f := stack[|stack| - 1];
      if f.selfEdge.None? {
        SelfDoneSame(m, maxLength, stack);
        SetTop(f.(phase := LeavingState));
      } else {
        SelfWent(m, f);
        Go(f.(selfEdge := None), f.state, f.selfEdge.value);
      }
    }

    method LeavingStep()
      requires Valid() && !done && stack[|stack| - 1].phase.LeavingState?
      modifies this`stack, this`done, this`bufUsed, buf
      ensures Valid() && Work(m, maxLength, stack) < old(Work(m, maxLength, stack))
      ensures done <==> stack == []
    {
      ghost var b := buf[..bufUsed];
      RunPop(m, maxLength, randomized, rand, stack, b, matches, paths);
      if |stack| == 1 {
        done := true;
        stack := stack[..0];
        return;
      }
      stack := stack[..|stack| - 1];
      DropLast();
      assert buf[..bufUsed] == b[..|b| - 1];
    }

    /** Remove the last character. */
    method DropLast()
      requires 0 < bufUsed < buf.Length
      modifies this`bufUsed, buf
      ensures bufUsed == old(bufUsed) - 1 && buf[..bufUsed] == old(buf[..bufUsed - 1])
    {
      bufUsed := bufUsed - 1;
      buf[bufUsed] := 0;
    }

    /** One step of the machine. */
    method Iterate()
      requires Valid() && !done && AnsweredBy(cb, matches)
      modifies this, buf
      ensures Valid() && (buf == old(buf) || fresh(buf)) && Work(m, maxLength, stack) < old(Work(m, maxLength, stack))
      ensures AnsweredBy(cb, matches) && (done ==> Halted() || stack == [])
    {
      steps := steps + 1;
      match stack[|stack| - 1].phase
      case EnteringState => EnteringStep();
      case MatchCallback => CallMatchCallback();
      case StepEdges(_) => StepEdgesStep();
      case StepSelfRef => StepSelfRefStep();
      case LeavingState => LeavingStep();
    }

    method IterateAll()
      requires Valid() && !done && AnsweredBy(cb, matches)
      modifies this, buf
      ensures Valid() && AnsweredBy(cb, matches) && (Halted() || stack == [])
    {
      while !done
        invariant Valid() && AnsweredBy(cb, matches) && (done ==> Halted() || stack == [])
        invariant buf == old(buf) || fresh(buf)
        decreases Work(m, maxLength, stack)
      {
        Iterate();
      }
    }
  }

  // ----- the result -----

  /** A match that halts is the last one, and the end of the run. */
  ghost predicate OnlyLastHalts(matches: seq<Match>, done: bool) {
    forall i :: 0 <= i < |matches| && matches[i].res.Halt? ==> done && i == |matches| - 1
  }

  /** `paths` are the paths of the matches: targets, in order, spelled with the symbols chosen, none
      beyond a match that was pruned and none after one that halts. Every other target is
      beyond a match that was pruned or comes after one that halts. */
  ghost predicate Traced(m: Fsm, max: nat, randomized: bool, rand: nat -> nat, matches: seq<Match>, paths: seq<seq<nat>>) {
    && |matches| == |paths| && OnlyLastHalts(matches, true)
    && (forall i :: 0 <= i < |paths| ==> EmittedAt(m, max, matches, paths, i))
    && (forall i :: 0 <= i < |paths| ==> WordPicked(m, randomized, rand, paths[i], matches[i].word))
    && (forall i, j :: 0 <= i < j < |paths| ==> Before(paths[i], paths[j]))
    && (forall j :: 0 <= j < |paths| ==> !CutOff(matches[..j], paths[..j], paths[j]))
    && (forall q :: IsTarget(m, max, q) ==> q in paths || CutOff(matches, paths, q) || HaltedBefore(matches, paths, q))
  }

  ghost predicate HaltedBefore(matches: seq<Match>, paths: seq<seq<nat>>, q: seq<nat>) {
    Halts(matches) && paths != [] && Before(paths[|paths| - 1], q)
  }

  lemma RunTraced(m: Fsm, max: nat, randomized: bool, rand: nat -> nat, stack: seq<Frame>, buf: seq<Byte>,
                  matches: seq<Match>, paths: seq<seq<nat>>)
    requires Running(m, max, randomized, rand, stack, buf, matches, paths)
    requires OnlyLastHalts(matches, true) && (Halts(matches) || stack == [])
    ensures Progress(m, max, stack, matches, paths) && Traced(m, max, randomized, rand, matches, paths)
  {
    assert Peek(true) && Look(true);
    forall q | IsTarget(m, max, q)
      ensures q in paths || CutOff(matches, paths, q) || HaltedBefore(matches, paths, q)
    {
    }
  }

  /** The recorded answers are those that the callback gives. */
  ghost predicate AnsweredBy(cb: (seq<Match>, seq<Byte>, nat) -> CbRes, matches: seq<Match>) {
    forall i :: 0 <= i < |matches| ==> matches[i].res == cb(matches[..i], matches[i].word, matches[i].end)
  }

  lemma AnsweredMore(cb: (seq<Match>, seq<Byte>, nat) -> CbRes, earlier: seq<Match>, x: Match)
    requires AnsweredBy(cb, earlier) && OnlyLastHalts(earlier, false) && x.res == cb(earlier, x.word, x.end)
    ensures AnsweredBy(cb, earlier + [x]) && OnlyLastHalts(earlier + [x], x.res.Halt?)
    ensures (earlier + [x])[..|earlier|] == earlier
  {
    var matches := earlier + [x];
    assert matches[..|earlier|] == earlier;
    forall i | 0 <= i < |matches|
      ensures matches[i].res == cb(matches[..i], matches[i].word, matches[i].end)
    {
      if i < |earlier| {
        assert earlier[i] == matches[i] && earlier[..i] == matches[..i];
      }
    }
  }

  /** Each string is accepted, of at most `max` symbols, and comes once. */
  ghost predicate Sound(m: Fsm, max: nat, matches: seq<Match>) {
    && (forall i :: 0 <= i < |matches| ==> SoundAt(m, max, matches[i]))
    && (forall i, j :: 0 <= i < j < |matches| ==> matches[i].word != matches[j].word)
  }

  ghost predicate SoundAt(m: Fsm, max: nat, x: Match) {
    && m.start.Some? && |x.word| <= max && Run(m, m.start.value, x.word) == x.end
    && Observe(m, x.end).Some?
  }

  /** Exactly one of the strings spells `q`. */
  ghost predicate SpelledOnce(m: Fsm, q: seq<nat>, matches: seq<Match>) {
    exists i :: 0 <= i < |matches| && SpelledOnlyBy(m, q, matches, i)
  }

  ghost predicate SpelledOnlyBy(m: Fsm, q: seq<nat>, matches: seq<Match>, i: nat)
    requires i < |matches|
  {
    Spells(m, q, matches[i].word) && forall j :: 0 <= j < |matches| && j != i ==> !Spells(m, q, matches[j].word)
  }

  /** The callback has asked not to go on from a proper prefix of `q`. */
  ghost predicate PrunedBefore(m: Fsm, q: seq<nat>, matches: seq<Match>) {
    exists i, k :: 0 <= i < |matches| && 0 < k < |q| && PrunedAt(m, q, matches, i, k)
  }

  ghost predicate PrunedAt(m: Fsm, q: seq<nat>, matches: seq<Match>, i: nat, k: nat)
    requires i < |matches| && k < |q|
  {
    matches[i].res.Prune? && Spells(m, q[..k], matches[i].word)
  }

  ghost predicate Halts(matches: seq<Match>) {
    matches != [] && matches[|matches| - 1].res.Halt?
  }

  /** A word spells only one path from a state. */
  lemma {:induction false} SpellsUnique(m: Fsm, p: seq<nat>, q: seq<nat>, w: seq<Byte>, k: nat)
    requires IsDfa(m) && IsPath(m, p) && IsPath(m, q) && Spells(m, p, w) && Spells(m, q, w) && p[0] == q[0] && k <= |w|
    ensures p[k] == q[k]
  {
    if k > 0 {
      SpellsUnique(m, p, q, w, k - 1);
      assert SpellsAt(m, p, w, k - 1) && SpellsAt(m, q, w, k - 1);
      BetweenStep(m, p[k - 1], p[k], w[k - 1]);
      BetweenStep(m, p[k - 1], q[k], w[k - 1]);
    }
  }

  lemma SameWordSamePath(m: Fsm, p: seq<nat>, q: seq<nat>, w: seq<Byte>)
    requires IsDfa(m) && IsPath(m, p) && IsPath(m, q) && Spells(m, p, w) && Spells(m, q, w) && p[0] == q[0]
    ensures p == q
  {
    forall k | 0 <= k < |p|
      ensures p[k] == q[k]
    {
      SpellsUnique(m, p, q, w, k);
    }
  }

  lemma ProgressSound(m: Fsm, max: nat, stack: seq<Frame>, matches: seq<Match>, paths: seq<seq<nat>>)
    requires IsDfa(m) && Progress(m, max, stack, matches, paths)
    ensures Sound(m, max, matches)
  {
    assert Look(true);
    forall i | 0 <= i < |matches|
      ensures SoundAt(m, max, matches[i])
    {
      assert EmittedAt(m, max, matches, paths, i);
      SpellsRun(m, paths[i], matches[i].word);
    }
    forall i, j | 0 <= i < j < |matches|
      ensures matches[i].word != matches[j].word
    {
      assert EmittedAt(m, max, matches, paths, i) && EmittedAt(m, max, matches, paths, j);
      if matches[i].word == matches[j].word {
        SameWordSamePath(m, paths[i], paths[j], matches[i].word);
      }
    }
  }

  /** Every target path is spelled once, or lies beyond a pruned match. */
  ghost predicate Accounted(m: Fsm, max: nat, matches: seq<Match>) {
    forall q :: IsTarget(m, max, q) ==> SpelledOnce(m, q, matches) || PrunedBefore(m, q, matches)
  }

  lemma EmittedOnce(m: Fsm, max: nat, matches: seq<Match>, paths: seq<seq<nat>>, i: nat)
    requires IsDfa(m) && Progress(m, max, [], matches, paths) && i < |paths|
    ensures SpelledOnce(m, paths[i], matches)
  {
    assert Look(true);
    var q := paths[i];
    assert EmittedAt(m, max, matches, paths, i);
    forall j | 0 <= j < |matches| && j != i
      ensures !Spells(m, q, matches[j].word)
    {
      assert EmittedAt(m, max, matches, paths, j);
      if Spells(m, q, matches[j].word) {
        SameWordSamePath(m, paths[j], q, matches[j].word);
      }
    }
    assert SpelledOnlyBy(m, q, matches, i);
  }

  lemma ProgressComplete(m: Fsm, max: nat, matches: seq<Match>, paths: seq<seq<nat>>)
    requires IsDfa(m) && Progress(m, max, [], matches, paths)
    ensures Accounted(m, max, matches)
  {
    assert Look(true);
    forall q | IsTarget(m, max, q)
      ensures SpelledOnce(m, q, matches) || PrunedBefore(m, q, matches)
    {
      if q in paths {
        var i :| 0 <= i < |paths| && paths[i] == q;
        EmittedOnce(m, max, matches, paths, i);
      } else {
        assert CutOff(matches, paths, q);
        var i :| 0 <= i < |matches| && matches[i].res.Prune? && paths[i] < q;
        assert EmittedAt(m, max, matches, paths, i);
        assert q[..|paths[i]|] == paths[i];
        assert PrunedAt(m, q, matches, i, |paths[i]|);
      }
    }
  }

  ghost predicate HasEnd(m: Fsm) {
    exists s :: 0 <= s < |m.states| && m.states[s].end
  }

  method FindEnd(m: Fsm) returns (found: bool)
    ensures found <==> HasEnd(m)
  {
    for s := 0 to |m.states|
      invariant forall t :: 0 <= t < s ==> !m.states[t].end
    {
      if m.states[s].end {
        return true;
      }
    }
    return false;
  }

  /** What the machine does from `entry`: all strings emitted are accepted from there, short
      enough and different; and unless the callback halts, each state path from there to an
      end of at most `maxLength` steps is spelled by exactly one of them, or goes on from one
      that the callback pruned. */
  method GenerateFrom(m: Fsm, entry: nat, sed: seq<nat>, maxLength: nat, randomized: bool, rand: nat -> nat,
                      cb: (seq<Match>, seq<Byte>, nat) -> CbRes)
    returns (matches: seq<Match>, ghost paths: seq<seq<nat>>)
    requires IsDfa(m) && ExactDistances(m, sed) && entry < |m.states|
    ensures AnsweredBy(cb, matches) && Traced(From(m, entry), maxLength, randomized, rand, matches, paths)
    ensures Sound(From(m, entry), maxLength, matches)
    ensures !Halts(matches) ==> Accounted(From(m, entry), maxLength, matches)
  {
    var ctx := new GenCtx(m, entry, sed, maxLength, randomized, rand, cb);
    ctx.IterateAll();
    matches, paths := ctx.matches, ctx.paths;
    RunTraced(From(m, entry), maxLength, randomized, rand, ctx.stack, ctx.buf[..ctx.bufUsed], matches, paths);
    ProgressEnds(From(m, entry), maxLength, ctx.stack, matches, ctx.paths);
  }

  lemma ProgressEnds(m: Fsm, max: nat, stack: seq<Frame>, matches: seq<Match>, paths: seq<seq<nat>>)
    requires IsDfa(m) && Progress(m, max, stack, matches, paths) && (Halts(matches) || stack == [])
    ensures Sound(m, max, matches) && (!Halts(matches) ==> Accounted(m, max, matches))
  {
    ProgressSound(m, max, stack, matches, paths);
    if !Halts(matches) {
      ProgressComplete(m, max, matches, paths);
    }
  }

  /** With a callback that always continues, nothing is pruned and the run does not halt: there
      is exactly one string per path, and nothing else. */
  lemma ContinuingMatches(m: Fsm, max: nat, cb: (seq<Match>, seq<Byte>, nat) -> CbRes, matches: seq<Match>)
    requires AnsweredBy(cb, matches) && forall h, w, e :: cb(h, w, e) == Continue
    requires !Halts(matches) ==> Accounted(m, max, matches)
    ensures forall q :: IsTarget(m, max, q) ==> SpelledOnce(m, q, matches)
  {
    forall i | 0 <= i < |matches|
      ensures matches[i].res == Continue
    {
      assert matches[i].res == cb(matches[..i], matches[i].word, matches[i].end);
    }
  }
}
