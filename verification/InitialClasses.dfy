/** The starting classes of the minimiser: the states grouped by their shortest
distance to an end state, largest group first. */
module InitialClasses {
  import opened Automata
  import opened Finite
  import opened Classes
  import PV = PermutationVector

  /** The input contract that trimming establishes: every state reaches an end, and
      `sed` holds the exact distances. */
  ghost predicate ExactDistances(m: Fsm, sed: seq<nat>) {
    |sed| == |m.states| && forall s: nat :: s < |sed| ==> ExactAt(m, sed, s)
  }

  ghost predicate ExactAt(m: Fsm, sed: seq<nat>, s: nat)
    requires s < |sed|
  {
    IsEndDistance(m, s, sed[s])
  }

  // ----- counting -----

  /** The tallies of the first `i` distances. */
  ghost predicate Tallied(s: seq<nat>, i: nat, counts: seq<nat>, sedMax: nat, countMax: nat) {
    && i <= |s| && sedMax < |counts|
    && (forall d :: 0 <= d < |counts| ==> counts[d] == PV.CountEq(s[..i], d) <= countMax)
    && (forall d :: d >= |counts| ==> PV.CountEq(s[..i], d) == 0)
    && (forall j :: 0 <= j < i ==> s[j] <= sedMax)
    && (if i == 0 then sedMax == 0 else sedMax in s[..i])
  }

  lemma TallyOne(s: seq<nat>, i: nat, counts: seq<nat>, sedMax: nat, countMax: nat)
    requires Tallied(s, i, counts, sedMax, countMax) && i < |s| && s[i] < |counts|
    ensures var c := counts[s[i]] + 1;
            Tallied(s, i + 1, counts[s[i] := c], if s[i] > sedMax then s[i] else sedMax,
                    if c > countMax then c else countMax)
  {
    CountOneMore(s[..i], s[i], s[..i + 1]);
    assert (if s[i] > sedMax then s[i] else sedMax) in s[..i + 1];
  }

  lemma TallyGrown(s: seq<nat>, i: nat, counts: seq<nat>, grown: seq<nat>, sedMax: nat, countMax: nat)
    requires Tallied(s, i, counts, sedMax, countMax) && |counts| <= |grown| && grown[..|counts|] == counts
    requires forall v :: |counts| <= v < |grown| ==> grown[v] == 0
    ensures Tallied(s, i, grown, sedMax, countMax)
  {
    assert forall d :: 0 <= d < |counts| ==> grown[d] == counts[d];
  }

  /** How many states there are at each distance, the largest distance, and the largest count. */
  method CountDistances(sed: array<nat>) returns (counts: array<nat>, sedMax: nat, countMax: nat)
    ensures fresh(counts)
    ensures Tallied(sed[..], sed.Length, counts[..], sedMax, countMax)
  {
    counts := new nat[8](_ => 0);
    sedMax, countMax := 0, 0;
    ghost var s := sed[..];
    for i := 0 to sed.Length
      invariant fresh(counts) && sed[..] == s
      invariant Tallied(s, i, counts[..], sedMax, countMax)
    {
      var d := sed[i];
      if d >= counts.Length {
        ghost var was := counts[..];
        counts := Grow(counts, d);
        TallyGrown(s, i, was, counts[..], sedMax, countMax);
      }
      TallyOne(s, i, counts[..], sedMax, countMax);
      counts[d] := counts[d] + 1;
      if d > sedMax {
        sedMax := d;
      }
      if counts[d] > countMax {
        countMax := counts[d];
      }
    }
  }

  lemma CountOneMore(s: seq<nat>, x: nat, t: seq<nat>)
    requires t == s + [x]
    ensures forall v :: PV.CountEq(t, v) == PV.CountEq(s, v) + if x == v then 1 else 0
  {
    assert t[..|s|] == s;
  }

  /** Double a table until `d` fits, keeping its contents and clearing the rest. */
  method Grow(counts: array<nat>, d: nat) returns (r: array<nat>)
    requires 0 < counts.Length <= d
    ensures fresh(r) && r.Length > d
    ensures r[..counts.Length] == counts[..]
    ensures forall v :: counts.Length <= v < r.Length ==> r[v] == 0
  {
    var ceil := 2 * counts.Length;
    while d >= ceil
      invariant ceil >= 2 * counts.Length
      decreases d - ceil
    {
      ceil := 2 * ceil;
    }
    r := new nat[ceil](_ => 0);
    for i := 0 to counts.Length
      invariant forall v :: 0 <= v < i ==> r[v] == counts[v]
      invariant forall v :: i <= v < r.Length ==> r[v] == 0
    {
      r[i] := counts[i];
    }
  }

  // ----- ranking -----

  /** `rank` numbers the distances so that larger groups come first. */
  ghost predicate IsRanking(counts: seq<nat>, rank: seq<nat>) {
    && |rank| <= |counts|
    && IsPermutation(rank)
    && (forall d, e :: 0 <= d < |rank| && 0 <= e < |rank| && rank[d] < rank[e] ==> counts[d] >= counts[e])
  }

  /** Grading the grades and counting from the end gives descending ranks. */
  method RankDistances(counts: array<nat>, sedMax: nat, countMax: nat) returns (rank: array<nat>)
    requires sedMax < counts.Length
    requires forall d :: 0 <= d < counts.Length ==> counts[d] <= countMax
    ensures fresh(rank) && rank.Length == sedMax + 1
    ensures IsRanking(counts[..], rank[..])
  {
    var pv := PV.Compute(sedMax + 1, countMax, counts);
    assert IsPermutation(pv[..]);
    assert forall i :: 0 <= i < pv.Length ==> pv[..][i] < pv.Length;
    rank := PV.Compute(sedMax + 1, sedMax + 1, pv);
    assert pv[..sedMax + 1] == pv[..];
    ghost var up := rank[..];
    CountFromEnd(rank, sedMax);
    DescendingRanks(counts[..], sedMax, pv[..], up, rank[..]);
  }

  method CountFromEnd(rank: array<nat>, sedMax: nat)
    requires rank.Length == sedMax + 1 && IsPermutation(rank[..])
    modifies rank
    ensures forall d :: 0 <= d <= sedMax ==> rank[d] == sedMax - old(rank[d])
  {
    assert forall d :: 0 <= d <= sedMax ==> rank[..][d] <= sedMax;
    for i := 0 to sedMax + 1
      invariant forall d :: 0 <= d < i ==> rank[d] == sedMax - old(rank[d])
      invariant forall d :: i <= d <= sedMax ==> rank[d] == old(rank[d])
    {
      rank[i] := sedMax - rank[i];
    }
  }

  lemma DescendingRanks(counts: seq<nat>, sedMax: nat, pv: seq<nat>, up: seq<nat>, rank: seq<nat>)
    requires sedMax < |counts| && |pv| == |up| == |rank| == sedMax + 1
    requires PV.IsSortingPermutation(counts[..sedMax + 1], pv) && PV.IsSortingPermutation(pv, up)
    requires forall d :: 0 <= d <= sedMax ==> rank[d] == sedMax - up[d]
    ensures IsRanking(counts, rank)
  {
    PV.SortedPermutationIsInverse(pv, up);
    forall d, e | 0 <= d < |rank| && 0 <= e < |rank| && rank[d] < rank[e]
      ensures counts[d] >= counts[e]
    {
      assert pv[up[d]] == d && pv[up[e]] == e && up[e] < up[d];
      assert PV.Before(counts[..sedMax + 1], pv[up[e]], pv[up[d]]);
    }
  }

  // ----- linking the states in -----

  /** The first `i` states have been linked into the class of their distance. */
  ghost predicate Assigning(sed: seq<nat>, rank: seq<nat>, ecs: seq<nat>, jump: seq<nat>, cls: seq<nat>,
                            lists: seq<seq<nat>>, i: nat)
  {
    && |lists| == |rank| <= |ecs| && i <= |sed| < |jump| == |cls|
    && (forall s :: 0 <= s < |sed| ==> sed[s] < |rank|)
    && IsPermutation(rank)
    && (forall ec :: 0 <= ec < |lists| ==>
          && IsChain(jump, lists[ec]) && Distinct(lists[ec])
          && ecs[ec] == if lists[ec] == [] then NO_ID else lists[ec][0])
    && (forall ec, s: nat {:trigger s in lists[ec]} ::
          0 <= ec < |lists| ==> (s in lists[ec] <==> s < i && rank[sed[s]] == ec))
    && (forall s :: 0 <= s < i ==> cls[s] == rank[sed[s]])
    && (forall d :: 0 <= d < |rank| ==> |lists[rank[d]]| == PV.CountEq(sed[..i], d))
  }

  lemma AssignOne(sed: seq<nat>, rank: seq<nat>, ecs: seq<nat>, jump: seq<nat>, cls: seq<nat>, lists: seq<seq<nat>>,
                  i: nat)
    requires Assigning(sed, rank, ecs, jump, cls, lists, i) && i < |sed|
    ensures var ec := rank[sed[i]];
            Assigning(sed, rank, ecs[ec := i], jump[i := ecs[ec]], cls[i := ec], lists[ec := [i] + lists[ec]], i + 1)
  {
    var ec := rank[sed[i]];
    var jump', lists' := jump[i := ecs[ec]], lists[ec := [i] + lists[ec]];
    assert i !in lists[ec];
    PushFront(jump, lists[ec], i);
    forall e | 0 <= e < |lists'| && e != ec
      ensures IsChain(jump', lists'[e])
    {
      assert i !in lists[e];
      ChainFrame(jump, jump', lists[e]);
    }
    forall d | 0 <= d < |rank|
      ensures |lists'[rank[d]]| == PV.CountEq(sed[..i + 1], d)
    {
      PV.CountEqAppend(sed, i, d);
      if d != sed[i] {
        assert rank[d] != rank[sed[i]];
      }
    }
  }

  // ----- the result -----

  /** Two states share a class exactly when they are equally far from an end. */
  ghost predicate DistanceClasses(sed: seq<nat>, lists: seq<seq<nat>>) {
    forall i, j, s, t {:trigger s in lists[i], t in lists[j]} ::
      0 <= i < |lists| && 0 <= j < |lists| && s in lists[i] && t in lists[j] && s < |sed| && t < |sed| ==>
        (i == j <==> sed[s] == sed[t])
  }

  ghost predicate Descending(lists: seq<seq<nat>>) {
    forall i, j :: 0 <= i < j < |lists| ==> |lists[i]| >= |lists[j]|
  }

  lemma DistanceUnique(m: Fsm, s: nat, j: nat, k: nat)
    requires IsEndDistance(m, s, j) && IsEndDistance(m, s, k)
    ensures j == k
  {
    EquivalentDistance(m, s, s, j, k);
  }

  /** Every distance up to an existing one occurs: no class starts out empty. */
  lemma {:induction false} DistanceRealised(m: Fsm, sed: seq<nat>, d: nat, s: nat) returns (t: nat)
    requires IsDfa(m) && ExactDistances(m, sed) && s < |sed| && d <= sed[s]
    ensures t < |sed| && sed[t] == d
    decreases sed[s]
  {
    if d == sed[s] {
      t := s;
    } else {
      assert ExactAt(m, sed, s);
      var c := NextCloser(m, s, sed[s]);
      var u := Step(m, s, c);
      if u == |m.states| {
        LiveNotDead(m, u, sed[s] - 1);
      } else {
        assert ExactAt(m, sed, u);
        DistanceUnique(m, u, sed[u], sed[s] - 1);
        t := DistanceRealised(m, sed, d, u);
      }
    }
  }

  lemma AssignedClasses(m: Fsm, sed: seq<nat>, rank: seq<nat>, ecs: seq<nat>, jump: seq<nat>, cls: seq<nat>,
                        lists: seq<seq<nat>>)
    requires IsDfa(m) && ExactDistances(m, sed) && |sed| < SMALL_EC_FLAG
    requires Assigning(sed, rank, ecs, jump, cls, lists, |sed|)
    requires |rank| > 0 && |rank| - 1 in sed
    ensures IsPartition(lists, |sed|) && Represents(ecs, jump, lists) && Indexes(cls, lists)
    ensures DistanceClasses(sed, lists)
  {
    forall ec | 0 <= ec < |lists|
      ensures lists[ec] != []
    {
      PermutationOnto(rank, ec);
      var d :| 0 <= d < |rank| && rank[d] == ec;
      var top :| 0 <= top < |sed| && sed[top] == |rank| - 1;
      var t := DistanceRealised(m, sed, d, top);
      assert t in lists[ec];
    }
    forall ec | 0 <= ec < |lists|
      ensures IsList(ecs[ec], jump, lists[ec])
    {
      assert lists[ec][0] in lists[ec];
    }
    forall s: nat | s < |sed|
      ensures InSome(lists, s)
    {
      assert s in lists[rank[sed[s]]];
    }
  }

  lemma AssignedSizes(sed: seq<nat>, rank: seq<nat>, counts: seq<nat>, ecs: seq<nat>, jump: seq<nat>,
                      cls: seq<nat>, lists: seq<seq<nat>>)
    requires Assigning(sed, rank, ecs, jump, cls, lists, |sed|)
    requires IsRanking(counts, rank)
    requires forall d :: 0 <= d < |counts| ==> counts[d] == PV.CountEq(sed, d)
    ensures forall d :: 0 <= d < |rank| ==> |lists[rank[d]]| == counts[d]
    ensures Descending(lists)
  {
    assert sed[..|sed|] == sed;
    forall i, j | 0 <= i < j < |lists|
      ensures |lists[i]| >= |lists[j]|
    {
      PermutationOnto(rank, i);
      PermutationOnto(rank, j);
      var d :| 0 <= d < |rank| && rank[d] == i;
      var e :| 0 <= e < |rank| && rank[e] == j;
    }
  }

  lemma AssignedHeads(sed: seq<nat>, rank: seq<nat>, counts: seq<nat>, ecs: seq<nat>, jump: seq<nat>,
                      cls: seq<nat>, lists: seq<seq<nat>>)
    requires Assigning(sed, rank, ecs, jump, cls, lists, |sed|) && |rank| <= |counts|
    requires forall i :: 0 <= i < |lists| ==> lists[i] != []
    requires forall d :: 0 <= d < |rank| ==> |lists[rank[d]]| == counts[d]
    ensures forall i :: 0 <= i < |lists| ==> ecs[i] == lists[i][0] < |sed| && counts[sed[ecs[i]]] == |lists[i]|
  {
    forall i | 0 <= i < |lists|
      ensures ecs[i] == lists[i][0] < |sed| && counts[sed[ecs[i]]] == |lists[i]|
    {
      assert lists[i][0] in lists[i];
    }
  }

  lemma {:induction false} Witnesses(m: Fsm, sed: seq<nat>, top: nat, k: nat) returns (ts: seq<nat>)
    requires IsDfa(m) && ExactDistances(m, sed) && top < |sed| && k <= sed[top] + 1
    ensures |ts| == k && forall d :: 0 <= d < k ==> ts[d] < |sed| && sed[ts[d]] == d
  {
    if k == 0 {
      ts := [];
    } else {
      var ts0 := Witnesses(m, sed, top, k - 1);
      var t := DistanceRealised(m, sed, k - 1, top);
      ts := ts0 + [t];
    }
  }

  /** There are no more distances than states. */
  lemma DistancesFit(m: Fsm, sed: seq<nat>, top: nat)
    requires IsDfa(m) && ExactDistances(m, sed) && top < |sed|
    ensures sed[top] < |sed|
  {
    var ts := Witnesses(m, sed, top, sed[top] + 1);
    DistinctBelow(ts, |sed|);
  }

  lemma AssignNone(sed: seq<nat>, rank: seq<nat>, ecs: seq<nat>, jump: seq<nat>, cls: seq<nat>,
                   lists: seq<seq<nat>>)
    requires |lists| == |rank| <= |ecs| && |sed| < |jump| == |cls|
    requires forall s :: 0 <= s < |sed| ==> sed[s] < |rank|
    requires IsPermutation(rank)
    requires forall ec :: 0 <= ec < |lists| ==> lists[ec] == [] && ecs[ec] == NO_ID
    ensures Assigning(sed, rank, ecs, jump, cls, lists, 0)
  {
  }

  /** The first class with a single member, given that sizes descend. */
  lemma FirstSingle(lists: seq<seq<nat>>, done: nat)
    requires Descending(lists) && done <= |lists| && forall i :: 0 <= i < |lists| ==> lists[i] != []
    requires forall i :: 0 <= i < done ==> |lists[i]| >= 2
    requires done < |lists| ==> |lists[done]| < 2
    ensures Ordered(lists, done)
  {
    forall i | done <= i < |lists|
      ensures |lists[i]| == 1
    {
      assert i > done ==> |lists[done]| >= |lists[i]|;
    }
  }

  /** What the arrays hold once every state is linked and the dead state has no class. */
  ghost predicate Grouped(sed: seq<nat>, counts: seq<nat>, ecs: seq<nat>, jump: seq<nat>, cls: seq<nat>,
                          lists: seq<seq<nat>>)
  {
    && IsPartition(lists, |sed|) && Represents(ecs, jump, lists) && Indexes(cls, lists)
    && DistanceClasses(sed, lists) && Descending(lists)
    && (forall s :: 0 <= s < |sed| ==> sed[s] < |counts|)
    && (forall i :: 0 <= i < |lists| ==>
          ecs[i] == lists[i][0] && lists[i][0] < |sed| && counts[sed[ecs[i]]] == |lists[i]|)
  }

  lemma AssignedGrouped(m: Fsm, sed: seq<nat>, rank: seq<nat>, counts: seq<nat>, ecs: seq<nat>, jump: seq<nat>,
                        cls: seq<nat>, lists: seq<seq<nat>>)
    requires IsDfa(m) && ExactDistances(m, sed) && |sed| < SMALL_EC_FLAG
    requires Assigning(sed, rank, ecs, jump, cls, lists, |sed|)
    requires |rank| > 0 && |rank| - 1 in sed
    requires IsRanking(counts, rank)
    requires forall d :: 0 <= d < |counts| ==> counts[d] == PV.CountEq(sed, d)
    ensures Grouped(sed, counts, ecs, jump, cls[|sed| := NO_ID], lists)
  {
    AssignedClasses(m, sed, rank, ecs, jump, cls, lists);
    assert IsPartition(lists, |sed|) && Represents(ecs, jump, lists) && DistanceClasses(sed, lists);
    DeadUnclassed(cls, lists, |sed|);
    AssignedSizes(sed, rank, counts, ecs, jump, cls, lists);
    AssignedHeads(sed, rank, counts, ecs, jump, cls, lists);
  }

  lemma DeadUnclassed(cls: seq<nat>, lists: seq<seq<nat>>, n: nat)
    requires IsPartition(lists, n) && Indexes(cls, lists) && n < |cls|
    ensures Indexes(cls[n := NO_ID], lists)
  {
  }
}
