/** Equivalence classes as the minimiser stores them: linked lists threaded
through the array `jump`, one list head per class in `ecs`, and `stateEcs` giving
each state its class.

Everything here is about values. `lists[i]` is the abstract content of class `i`;
the predicates say when the arrays represent it, and the lemmas say what one
pointer update does to it.
*/
module Classes {
  import opened Automata
  import opened Finite

  const SMALL_EC_FLAG: nat := 0x8000_0000

  /** `MASK_EC_HEAD`: a list head without the flag in its top bit. */
  function Mask(head: nat): nat {
    if SMALL_EC_FLAG <= head <= NO_ID then head - SMALL_EC_FLAG else head
  }

  function SetSmallFlag(head: nat): nat {
    if head < SMALL_EC_FLAG then head + SMALL_EC_FLAG else head
  }

  /** The first `k` heads carry no flag. */
  predicate Plain(ecs: seq<nat>, k: nat) {
    k <= |ecs| && forall i :: 0 <= i < k ==> ecs[i] < SMALL_EC_FLAG
  }

  ghost predicate LinkAt(jump: seq<nat>, l: seq<nat>, k: nat)
    requires k < |l|
  {
    l[k] < |jump| && jump[l[k]] == if k + 1 < |l| then l[k + 1] else NO_ID
  }

  /** Following `jump` from `l[0]` visits exactly `l`, then `NO_ID`. */
  ghost predicate IsChain(jump: seq<nat>, l: seq<nat>) {
    forall k: nat :: k < |l| ==> LinkAt(jump, l, k)
  }

  ghost predicate IsList(head: nat, jump: seq<nat>, l: seq<nat>) {
    l != [] && head <= NO_ID && Mask(head) == l[0] && IsChain(jump, l)
  }

  /** The heads and links represent the abstract lists. */
  ghost predicate Represents(ecs: seq<nat>, jump: seq<nat>, lists: seq<seq<nat>>) {
    && |lists| <= |ecs|
    && (forall i :: 0 <= i < |lists| ==> IsList(ecs[i], jump, lists[i]))
  }

  ghost predicate InSome(lists: seq<seq<nat>>, s: nat) {
    exists i :: 0 <= i < |lists| && s in lists[i]
  }

  /** The lists split the states `0..n` into non-empty classes. */
  ghost predicate IsPartition(lists: seq<seq<nat>>, n: nat) {
    && (forall i :: 0 <= i < |lists| ==> lists[i] != [] && Distinct(lists[i]))
    && (forall i, s {:trigger s in lists[i]} :: 0 <= i < |lists| && s in lists[i] ==> s < n)
    && (forall i, j, s {:trigger s in lists[i], s in lists[j]} ::
          0 <= i < j < |lists| && s in lists[i] ==> s !in lists[j])
    && (forall s: nat :: s < n ==> InSome(lists, s))
  }

  /** `cls` gives every listed state the number of its list. */
  ghost predicate Indexes(cls: seq<nat>, lists: seq<seq<nat>>) {
    forall i, s {:trigger s in lists[i]} :: 0 <= i < |lists| && s in lists[i] ==> s < |cls| && cls[s] == i
  }

  /** `Indexes` for all classes but those in `stale`. */
  ghost predicate IndexesExcept(cls: seq<nat>, lists: seq<seq<nat>>, stale: set<nat>) {
    forall i, s {:trigger s in lists[i]} ::
      0 <= i < |lists| && i !in stale && s in lists[i] ==> s < |cls| && cls[s] == i
  }

  /** Classes before `done` can still be split, later ones are singletons. */
  ghost predicate Ordered(lists: seq<seq<nat>>, done: nat) {
    && done <= |lists|
    && (forall i :: 0 <= i < done ==> |lists[i]| >= 2)
    && (forall i :: done <= i < |lists| ==> |lists[i]| == 1)
  }

  function Swap<T>(s: seq<T>, i: nat, j: nat): (r: seq<T>)
    requires i < |s| && j < |s|
  {
    s[i := s[j]][j := s[i]]
  }

  // ----- one pointer update -----

  /** Links outside a list do not matter to it. */
  lemma ChainFrame(jump: seq<nat>, jump': seq<nat>, l: seq<nat>)
    requires IsChain(jump, l) && |jump'| == |jump|
    requires forall s :: s in l && s < |jump| ==> jump'[s] == jump[s]
    ensures IsChain(jump', l)
  {
    forall k: nat | k < |l|
      ensures LinkAt(jump', l, k)
    {
      assert LinkAt(jump, l, k);
      assert l[k] in l;
    }
  }

  /** Taking element `p` out of a list is one write, to its predecessor. */
  lemma Unlink(jump: seq<nat>, l: seq<nat>, p: nat) returns (jump': seq<nat>)
    requires IsChain(jump, l) && Distinct(l) && 0 < p < |l|
    ensures l[p - 1] < |jump| && l[p] < |jump|
    ensures jump' == jump[l[p - 1] := jump[l[p]]]
    ensures IsChain(jump', l[..p] + l[p + 1..])
  {
    assert LinkAt(jump, l, p - 1) && LinkAt(jump, l, p);
    jump' := jump[l[p - 1] := jump[l[p]]];
    var r := l[..p] + l[p + 1..];
    forall k: nat | k < |r|
      ensures LinkAt(jump', r, k)
    {
      if k < p {
        assert LinkAt(jump, l, k) && r[k] == l[k];
      } else {
        assert LinkAt(jump, l, k + 1) && r[k] == l[k + 1];
      }
    }
  }

  /** Linking `x` in front of a list. */
  lemma PushFront(jump: seq<nat>, l: seq<nat>, x: nat)
    requires IsChain(jump, l) && x !in l && x < |jump|
    ensures IsChain(jump[x := if l == [] then NO_ID else l[0]], [x] + l)
  {
    var jump' := jump[x := if l == [] then NO_ID else l[0]];
    forall k: nat | k < |l| + 1
      ensures LinkAt(jump', [x] + l, k)
    {
      if k > 0 {
        assert LinkAt(jump, l, k - 1);
        assert l[k - 1] in l;
      }
    }
  }

  /** Linking `x` right after the head of a list. */
  lemma InsertSecond(jump: seq<nat>, l: seq<nat>, x: nat)
    requires IsChain(jump, l) && Distinct(l) && l != [] && x !in l && x < |jump|
    ensures l[0] < |jump|
    ensures IsChain(jump[x := jump[l[0]]][l[0] := x], [l[0], x] + l[1..])
  {
    assert LinkAt(jump, l, 0);
    assert l[0] in l;
    var jump', r := jump[x := jump[l[0]]][l[0] := x], [l[0], x] + l[1..];
    forall k: nat | k < |r|
      ensures LinkAt(jump', r, k)
    {
      if k > 1 {
        assert LinkAt(jump, l, k - 1);
        assert l[k - 1] in l;
      }
    }
  }

  // ----- partitions -----

  /** The state of a class while a pass over it moves members away: `keep` followed by
      the members `l[k..]` not yet visited is still one list, and `moved` is another. */
  ghost predicate Splitting(jump: seq<nat>, head: nat, l: seq<nat>, k: nat, keep: seq<nat>, moved: seq<nat>) {
    && 0 < k <= |l| && keep != [] && keep[0] == l[0]
    && |keep| + |moved| == k
    && (moved == [] ==> keep == l[..k])
    && Distinct(keep + l[k..]) && Distinct(moved)
    && IsChain(jump, keep + l[k..])
    && IsChain(jump, moved)
    && head == (if moved == [] then NO_ID else moved[0])
    && (forall s :: s in keep ==> s !in moved)
    && (forall s :: s in l[k..] ==> s !in moved)
    && (forall s :: s in l <==> s in keep || s in moved || s in l[k..])
  }

  lemma SplittingStart(jump: seq<nat>, l: seq<nat>)
    requires IsChain(jump, l) && Distinct(l) && l != []
    ensures Splitting(jump, NO_ID, l, 1, [l[0]], [])
  {
    assert [l[0]] + l[1..] == l;
  }

  lemma SplittingKeep(jump: seq<nat>, head: nat, l: seq<nat>, k: nat, keep: seq<nat>, moved: seq<nat>)
    requires Splitting(jump, head, l, k, keep, moved) && k < |l|
    ensures Splitting(jump, head, l, k + 1, keep + [l[k]], moved)
  {
    assert keep + l[k..] == (keep + [l[k]]) + l[k + 1..];
    assert l[k..] == [l[k]] + l[k + 1..];
  }

  /** `prev` is the last member kept, `next` the one after `l[k]`. */
  lemma SplittingLinks(jump: seq<nat>, head: nat, l: seq<nat>, k: nat, keep: seq<nat>, moved: seq<nat>)
    requires Splitting(jump, head, l, k, keep, moved)
    ensures keep[|keep| - 1] < |jump|
    ensures jump[keep[|keep| - 1]] == if k < |l| then l[k] else NO_ID
    ensures k < |l| ==> l[k] < |jump| && l[k] != keep[|keep| - 1] &&
                        jump[l[k]] == if k + 1 < |l| then l[k + 1] else NO_ID
  {
    var a := keep + l[k..];
    assert LinkAt(jump, a, |keep| - 1);
    if k < |l| {
      assert LinkAt(jump, a, |keep|);
      assert a[|keep| - 1] != a[|keep|];
    }
  }

  lemma SplittingMove(jump: seq<nat>, head: nat, l: seq<nat>, k: nat, keep: seq<nat>, moved: seq<nat>)
    requires Splitting(jump, head, l, k, keep, moved) && k < |l|
    requires keep[|keep| - 1] < |jump| && l[k] < |jump|
    ensures Splitting(jump[keep[|keep| - 1] := jump[l[k]]][l[k] := head], l[k], l, k + 1, keep, [l[k]] + moved)
  {
    var a, p := keep + l[k..], |keep|;
    var jump1 := Unlink(jump, a, p);
    var b := keep + l[k + 1..];
    assert a[..p] + a[p + 1..] == b;
    assert a[p - 1] == keep[p - 1] && a[p] == l[k];
    assert l[k..] == [l[k]] + l[k + 1..];
    assert l[k] !in b by {
      assert forall i :: 0 <= i < p ==> a[i] == b[i] && a[i] != a[p];
      assert forall i :: p <= i < |b| ==> b[i] == a[i + 1] && a[p] != a[i + 1];
    }
    ChainFrame(jump, jump1, moved);
    PushFront(jump1, moved, l[k]);
    ChainFrame(jump1, jump1[l[k] := head], b);
    DistinctRemove(a, p);
  }

  /** What the arrays represent once the pass over class `src` is complete. */
  lemma SplittingDone(ecs: seq<nat>, jump: seq<nat>, lists: seq<seq<nat>>, n: nat, src: nat, head: nat,
                      jump': seq<nat>, keep: seq<nat>, moved: seq<nat>)
    requires IsPartition(lists, n) && Represents(ecs, jump, lists) && src < |lists| < |ecs|
    requires |jump'| == |jump|
    requires Splitting(jump', head, lists[src], |lists[src]|, keep, moved)
    requires forall s :: 0 <= s < |jump| && s !in lists[src] ==> jump'[s] == jump[s]
    ensures moved == [] ==> keep == lists[src] && Represents(ecs[|lists| := head], jump', lists)
    ensures moved != [] && moved[0] < SMALL_EC_FLAG ==>
              var lists' := lists[src := keep] + [moved];
              IsPartition(lists', n) && Represents(ecs[|lists| := head], jump', lists')
  {
    var l := lists[src];
    assert keep + l[|l|..] == keep;
    assert IsList(ecs[src], jump, l);
    forall i | 0 <= i < |lists| && i != src
      ensures IsList(ecs[i], jump', lists[i])
    {
      assert IsList(ecs[i], jump, lists[i]);
      ChainFrame(jump, jump', lists[i]);
    }
    if moved != [] {
      SplitPartition(lists, n, src, keep, moved);
    }
  }

  lemma DistinctRemove(l: seq<nat>, p: nat)
    requires Distinct(l) && p < |l|
    ensures Distinct(l[..p] + l[p + 1..])
  {
  }

  lemma ListOf(lists: seq<seq<nat>>, n: nat, cls: seq<nat>, s: nat)
    requires IsPartition(lists, n) && Indexes(cls, lists) && s < n
    ensures s < |cls| && cls[s] < |lists| && s in lists[cls[s]]
  {
    assert InSome(lists, s);
    var i :| 0 <= i < |lists| && s in lists[i];
  }

  lemma MemberBound(lists: seq<seq<nat>>, n: nat, i: nat)
    requires IsPartition(lists, n) && i < |lists|
    ensures forall k :: 0 <= k < |lists[i]| ==> lists[i][k] < n
  {
    assert forall k :: 0 <= k < |lists[i]| ==> lists[i][k] in lists[i];
  }

  /** Moving part of one class to a new one keeps a partition. */
  lemma SplitPartition(lists: seq<seq<nat>>, n: nat, src: nat, keep: seq<nat>, moved: seq<nat>)
    requires IsPartition(lists, n) && src < |lists|
    requires keep != [] && moved != [] && Distinct(keep) && Distinct(moved)
    requires forall s :: s in lists[src] <==> s in keep || s in moved
    requires forall s :: s in keep ==> s !in moved
    ensures IsPartition(lists[src := keep] + [moved], n)
  {
    var r := lists[src := keep] + [moved];
    forall s: nat | s < n
      ensures InSome(r, s)
    {
      assert InSome(lists, s);
      var i :| 0 <= i < |lists| && s in lists[i];
      if i != src {
        assert s in r[i];
      } else if s in keep {
        assert s in r[src];
      } else {
        assert s in r[|lists|];
      }
    }
  }

  lemma SwapPartition(lists: seq<seq<nat>>, n: nat, i: nat, j: nat)
    requires IsPartition(lists, n) && i < |lists| && j < |lists|
    ensures IsPartition(Swap(lists, i, j), n)
  {
    var r := Swap(lists, i, j);
    forall s: nat | s < n
      ensures InSome(r, s)
    {
      assert InSome(lists, s);
      var k :| 0 <= k < |lists| && s in lists[k];
      assert s in r[if k == i then j else if k == j then i else k];
    }
  }

  lemma SwapRepresents(ecs: seq<nat>, jump: seq<nat>, lists: seq<seq<nat>>, i: nat, j: nat)
    requires Represents(ecs, jump, lists) && i < |lists| && j < |lists|
    ensures Represents(Swap(ecs, i, j), jump, Swap(lists, i, j))
  {
  }

  /** Renumbering one class leaves the numbers of the others alone. */
  lemma Renumbered(cls: seq<nat>, cls': seq<nat>, lists: seq<seq<nat>>, n: nat, i: nat, stale: set<nat>)
    requires IsPartition(lists, n) && i < |lists| && n < |cls| == |cls'|
    requires IndexesExcept(cls, lists, stale)
    requires forall s :: s in lists[i] ==> s < |cls'| && cls'[s] == i
    requires forall s :: 0 <= s < |cls| && s !in lists[i] ==> cls'[s] == cls[s]
    ensures IndexesExcept(cls', lists, stale - {i})
  {
    forall j, s | 0 <= j < |lists| && j !in stale - {i} && s in lists[j]
      ensures s < |cls'| && cls'[s] == j
    {
      if j != i {
        assert s !in lists[i];
      }
    }
  }

  /** A new last class of two or more members moves to the boundary. */
  function Promote(lists: seq<seq<nat>>, done: nat): (r: seq<seq<nat>>)
    requires done < |lists|
    ensures |r| == |lists|
  {
    if |lists[|lists| - 1]| != 1 then Swap(lists, |lists| - 1, done) else lists
  }

  /** Where the classes end up after `src` lost members to the new last class: a new class
      of two or more moves to the front part, a `src` of one leaves it. */
  function Arrange(lists: seq<seq<nat>>, src: nat, done: nat): (r: seq<seq<nat>>)
    requires src < done < |lists|
    ensures |r| == |lists|
  {
    var l1 := Promote(lists, done);
    if |lists[src]| == 1 then Swap(l1, src, if |lists[|lists| - 1]| != 1 then done else done - 1) else l1
  }

  /** The offset that goes with `Arrange`. */
  function DoneAfter(lists: seq<seq<nat>>, src: nat, done: nat): nat
    requires src < done < |lists|
  {
    done + (if |lists[|lists| - 1]| != 1 then 1 else 0) - (if |lists[src]| == 1 then 1 else 0)
  }

  lemma ArrangeOrdered(lists: seq<seq<nat>>, src: nat, done: nat)
    requires src < done < |lists|
    requires forall i :: 0 <= i < |lists| ==> lists[i] != []
    requires forall i :: 0 <= i < done && i != src ==> |lists[i]| >= 2
    requires forall i :: done <= i < |lists| - 1 ==> |lists[i]| == 1
    ensures Ordered(Arrange(lists, src, done), DoneAfter(lists, src, done))
  {
  }

  function Heads(lists: seq<seq<nat>>, k: nat): (hs: set<nat>)
    requires k <= |lists| && forall i :: 0 <= i < |lists| ==> lists[i] != []
    ensures forall s :: s in hs <==> exists i :: 0 <= i < k && s == lists[i][0]
  {
    if k == 0 then {} else Heads(lists, k - 1) + {lists[k - 1][0]}
  }

  lemma {:induction false} HeadsSize(lists: seq<seq<nat>>, n: nat, k: nat)
    requires IsPartition(lists, n) && k <= |lists|
    ensures |Heads(lists, k)| == k
  {
    if k > 0 {
      HeadsSize(lists, n, k - 1);
      assert lists[k - 1][0] in lists[k - 1];
      forall i | 0 <= i < k - 1
        ensures lists[i][0] != lists[k - 1][0]
      {
        assert lists[i][0] in lists[i];
      }
    }
  }

  /** There are never more classes than states. */
  lemma ClassCount(lists: seq<seq<nat>>, n: nat)
    requires IsPartition(lists, n)
    ensures |lists| <= n
  {
    HeadsSize(lists, n, |lists|);
    forall s | s in Heads(lists, |lists|)
      ensures s in Below(n)
    {
      var i :| 0 <= i < |lists| && s == lists[i][0];
      assert lists[i][0] in lists[i];
    }
    SubsetSize(Heads(lists, |lists|), Below(n));
  }

  /** A head without a flag comes to the boundary `k`. */
  lemma PlainPromoted(ecs: seq<nat>, i: nat, k: nat)
    requires Plain(ecs, k) && k <= i < |ecs| && ecs[i] < SMALL_EC_FLAG
    ensures Plain(Swap(ecs, i, k), k + 1)
  {
  }

  /** Two heads below the boundary change places, and the boundary moves behind the second. */
  lemma PlainDemoted(ecs: seq<nat>, i: nat, k: nat)
    requires Plain(ecs, k) && i < k
    ensures Plain(Swap(ecs, i, k - 1), k - 1)
  {
  }

  // ----- moving one member to another class -----

  function Without(l: seq<nat>, p: nat): seq<nat>
    requires p < |l|
  {
    l[..p] + l[p + 1..]
  }

  lemma WithoutMembers(l: seq<nat>, p: nat)
    requires p < |l| && Distinct(l)
    ensures Distinct(Without(l, p)) && l[p] !in Without(l, p)
    ensures forall s :: s in l <==> s in Without(l, p) || s == l[p]
  {
    var r := Without(l, p);
    assert forall k :: 0 <= k < p ==> r[k] == l[k];
    assert forall k :: p <= k < |r| ==> r[k] == l[k + 1];
    forall s | s in l && s != l[p]
      ensures s in r
    {
      var k :| 0 <= k < |l| && l[k] == s;
      assert s == if k < p then r[k] else r[k - 1];
    }
  }

  /** The classes after member `p` of class `i` became a class of its own. */
  function MovedToNew(lists: seq<seq<nat>>, i: nat, p: nat): seq<seq<nat>>
    requires i < |lists| && p < |lists[i]|
  {
    lists[i := Without(lists[i], p)] + [[lists[i][p]]]
  }

  lemma MoveToNew(ecs: seq<nat>, jump: seq<nat>, lists: seq<seq<nat>>, n: nat, i: nat, p: nat)
    requires IsPartition(lists, n) && Represents(ecs, jump, lists) && i < |lists| < |ecs| && 0 < p < |lists[i]|
    requires n < |jump| && n < SMALL_EC_FLAG
    ensures var s, prev := lists[i][p], lists[i][p - 1];
            && s < n && prev < n
            && IsPartition(MovedToNew(lists, i, p), n)
            && Represents(ecs[|lists| := s], jump[prev := jump[s]][s := NO_ID], MovedToNew(lists, i, p))
  {
    MemberBound(lists, n, i);
    var l := lists[i];
    var s, r := l[p], Without(l, p);
    assert IsList(ecs[i], jump, l);
    WithoutMembers(l, p);
    assert l[p - 1] in l && r[0] == l[0];
    SplitPartition(lists, n, i, r, [s]);
    var jump1 := Unlink(jump, l, p);
    var jump2 := jump1[s := NO_ID];
    ChainFrame(jump1, jump2, r);
    PushFront(jump1, [], s);
    assert [s] + [] == [s];
    forall j | 0 <= j < |lists| && j != i
      ensures IsList(ecs[j], jump2, lists[j])
    {
      assert IsList(ecs[j], jump, lists[j]);
      ChainFrame(jump, jump2, lists[j]);
    }
  }

  /** The classes after member `p` of class `i` joined class `j`, behind its first member. */
  function MovedTo(lists: seq<seq<nat>>, i: nat, p: nat, j: nat): seq<seq<nat>>
    requires i < |lists| && p < |lists[i]| && j < |lists| && lists[j] != []
  {
    lists[i := Without(lists[i], p)][j := [lists[j][0], lists[i][p]] + lists[j][1..]]
  }

  lemma MoveTo(ecs: seq<nat>, jump: seq<nat>, lists: seq<seq<nat>>, n: nat, i: nat, p: nat, j: nat)
    requires IsPartition(lists, n) && Represents(ecs, jump, lists)
    requires i < |lists| && 0 < p < |lists[i]| && j < |lists| && j != i && n < |jump|
    ensures var s, prev, other := lists[i][p], lists[i][p - 1], lists[j][0];
            && s < n && prev < n && other < n && prev != other && s != other
            && IsPartition(MovedTo(lists, i, p, j), n)
            && Represents(ecs, jump[prev := jump[s]][s := jump[other]][other := s], MovedTo(lists, i, p, j))
  {
    MemberBound(lists, n, i);
    MemberBound(lists, n, j);
    var l, k := lists[i], lists[j];
    var s, r, other := l[p], Without(l, p), k[0];
    var g := [other, s] + k[1..];
    assert IsList(ecs[i], jump, l) && IsList(ecs[j], jump, k);
    WithoutMembers(l, p);
    assert l[p - 1] in l && s in l && r[0] == l[0] && other in k;
    var jump1 := Unlink(jump, l, p);
    ChainFrame(jump, jump1, k);
    InsertSecond(jump1, k, s);
    var jump2 := jump1[s := jump1[other]][other := s];
    ChainFrame(jump1, jump2, r);
    forall e | 0 <= e < |lists| && e != i && e != j
      ensures IsList(ecs[e], jump2, lists[e])
    {
      assert IsList(ecs[e], jump, lists[e]);
      ChainFrame(jump, jump2, lists[e]);
    }
    JoinPartition(lists, n, i, r, j, g, s);
  }

  lemma MoveToIndexes(cls: seq<nat>, lists: seq<seq<nat>>, n: nat, i: nat, p: nat, j: nat)
    requires IsPartition(lists, n) && Indexes(cls, lists) && n < |cls|
    requires i < |lists| && 0 < p < |lists[i]| && j < |lists| && j != i
    ensures lists[i][p] < n && lists[j][0] < n && cls[lists[j][0]] == j
    ensures Indexes(cls[lists[i][p] := j], MovedTo(lists, i, p, j))
  {
    var s, k, r := lists[i][p], lists[j], MovedTo(lists, i, p, j);
    assert s in lists[i] && k[0] in lists[j];
    WithoutMembers(lists[i], p);
    assert k == [k[0]] + k[1..];
    forall e, t | 0 <= e < |r| && t in r[e]
      ensures t < |cls| && cls[s := j][t] == e
    {
      assert t == s || t in lists[e];
      if e == i {
        assert t != s;
      } else if e != j {
        assert s !in lists[e];
      }
    }
  }

  lemma JoinPartition(lists: seq<seq<nat>>, n: nat, i: nat, r: seq<nat>, j: nat, g: seq<nat>, s: nat)
    requires IsPartition(lists, n) && i < |lists| && j < |lists| && i != j
    requires s in lists[i] && r != [] && Distinct(r) && s !in r
    requires forall t :: t in lists[i] <==> t in r || t == s
    requires lists[j] != [] && g == [lists[j][0], s] + lists[j][1..]
    ensures IsPartition(lists[i := r][j := g], n)
  {
    var k, q := lists[j], lists[i := r][j := g];
    assert k == [k[0]] + k[1..];
    assert forall t :: t in g <==> t in k || t == s;
    assert s !in k;
    assert forall x :: 2 <= x < |g| ==> g[x] == k[x - 1] && k[x - 1] in k;
    assert Distinct(g);
    forall t: nat | t < n
      ensures InSome(q, t)
    {
      assert InSome(lists, t);
      var e :| 0 <= e < |lists| && t in lists[e];
      assert t in q[if t == s then j else e];
    }
  }
}
