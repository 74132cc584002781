/** The minimiser: Moore's algorithm on in-place linked lists.

`MinEnv` is the working state of `build_minimised_mapping`. Its arrays are updated
one pointer at a time; `lists` is the abstract content of the classes, and
`Valid` says that the arrays represent a partition of the states in which the
classes before `doneOffset` have two members or more and the others exactly one.
*/
module Minimise {
  import opened Automata
  import opened Classes
  import opened Finite
  import opened Guard
  import opened Refinement
  import opened InitialClasses
  import opened EndMetadata
  import PV = PermutationVector

  const SMALL_EC_THRESHOLD: nat := 16
  const DFA_LABELS_THRESHOLD: nat := 4

  /** Where `c` leads from state `s`, and which symbols lead into the same class. Only the first
      group with the symbol counts, so this assumes determinism. Without an edge set, nothing
      is written to `labels`, which then are whatever `u` says. */
  method CheckEdges(m: Fsm, u: Unset, s: nat, c: Byte, stateEcs: array<nat>)
    returns (found: bool, to: nat, labels: set<Byte>)
    requires IsDfa(m) && NullsOf(m, u.nulls) && s < |m.states| && stateEcs.Length == |m.states| + 1
    requires IsClassMap(m, stateEcs[..])
    ensures found <==> Step(m, s, c) != |m.states|
    ensures found ==> to == Step(m, s, c)
    ensures labels == SeenLabels(m, stateEcs[..], u, s, c)
  {
    var es := m.states[s].edges;
    found, to := false, 0;
    if s in u.nulls {
      labels := u.junk(u.step, s);
      return;
    }
    labels := {};
    var i := 0;
    while i < |es| && !found
      invariant 0 <= i <= |es|
      invariant !found ==> forall j :: 0 <= j < i ==> c !in es[j].symbols
      invariant found ==> to == Step(m, s, c) < |m.states|
      decreases |es| - i, if found then 0 else 1
    {
      if c in es[i].symbols {
        FindIndexUnique(es, c, i);
        found, to := true, es[i].to;
      } else {
        i := i + 1;
      }
    }
    if !found {
      return;
    }
    var firstEc := stateEcs[to];
    for k := 0 to |es|
      invariant labels == UnionInto(es, stateEcs[..], firstEc, k)
    {
      if stateEcs[es[k].to] == firstEc {
        labels := labels + es[k].symbols;
      }
    }
    UnionIsSymbolsInto(m, stateEcs[..], s, firstEc);
  }

  /** The symbols of the first `k` groups that lead into class `ec`. */
  function UnionInto(es: seq<Group>, cls: seq<nat>, ec: nat, k: nat): (r: set<Byte>)
    requires k <= |es| && EdgesWithin(es, |cls|)
    ensures forall c :: c in r <==> exists j :: 0 <= j < k && cls[es[j].to] == ec && c in es[j].symbols
  {
    if k == 0 then {}
    else if cls[es[k - 1].to] == ec then UnionInto(es, cls, ec, k - 1) + es[k - 1].symbols
    else UnionInto(es, cls, ec, k - 1)
  }

  lemma UnionIsSymbolsInto(m: Fsm, cls: seq<nat>, s: nat, ec: nat)
    requires IsDfa(m) && s < |m.states| && IsClassMap(m, cls) && ec != NO_ID
    ensures EdgesWithin(m.states[s].edges, |cls|)
    ensures UnionInto(m.states[s].edges, cls, ec, |m.states[s].edges|) == SymbolsInto(m, cls, s, ec)
  {
    var es := m.states[s].edges;
    forall c: Byte
      ensures c in UnionInto(es, cls, ec, |es|) <==> ToEc(m, cls, s, c) == ec
    {
      if c in UnionInto(es, cls, ec, |es|) {
        var j :| 0 <= j < |es| && cls[es[j].to] == ec && c in es[j].symbols;
        FindIndexUnique(es, c, j);
      }
    }
  }

  /** The union of a state's groups: every symbol it has an edge on. */
  method StateSymbols(m: Fsm, s: nat) returns (r: set<Byte>)
    requires IsDfa(m) && s < |m.states|
    ensures r == UsedSymbols(m, s)
  {
    var es := m.states[s].edges;
    r := {};
    for i := 0 to |es|
      invariant forall c :: c in r <==> exists j :: 0 <= j < i && c in es[j].symbols
    {
      r := r + es[i].symbols;
    }
    forall c: Byte
      ensures c in r <==> Step(m, s, c) != |m.states|
    {
      var k := FindIndex(es, c);
    }
  }

  /** The members of a symbol set, in ascending order. */
  method SortedSymbols(symbols: set<Byte>) returns (r: seq<Byte>)
    ensures forall c :: c in r <==> c in symbols
    ensures forall i, j :: 0 <= i < j < |r| ==> r[i] < r[j]
  {
    r := [];
    for i := 0 to 256
      invariant forall c :: c in r <==> c in symbols && c < i
      invariant forall j, k :: 0 <= j < k < |r| ==> r[j] < r[k]
    {
      if i in symbols {
        assert forall j :: 0 <= j < |r| ==> r[j] in r;
        r := r + [i];
      }
    }
  }

  /** The symbols on which any state has an edge. */
  ghost function UsedBytes(m: Fsm): set<Byte> {
    set c: Byte | IsUsed(m, c)
  }

  ghost predicate IsUsed(m: Fsm, c: Byte) {
    exists s :: 0 <= s < |m.states| && c in UsedSymbols(m, s)
  }

  /** All symbols in use, in ascending order. */
  method CollectLabels(m: Fsm) returns (labels: seq<Byte>)
    requires IsDfa(m)
    ensures Elements(labels) == UsedBytes(m) && |labels| == |UsedBytes(m)|
    ensures forall i, j :: 0 <= i < j < |labels| ==> labels[i] < labels[j]
  {
    var all := {};
    for s := 0 to |m.states|
      invariant forall c :: c in all <==> exists t :: 0 <= t < s && c in UsedSymbols(m, t)
    {
      var r := StateSymbols(m, s);
      all := all + r;
    }
    labels := SortedSymbols(all);
    assert Elements(labels) == UsedBytes(m);
    ElementsSize(labels);
  }

  method ResetTable(htab: array<nat>)
    modifies htab
    ensures forall b :: 0 <= b < htab.Length ==> htab[b] == NO_ID
  {
    for i := 0 to htab.Length
      invariant forall b :: 0 <= b < i ==> htab[b] == NO_ID
    {
      htab[i] := NO_ID;
    }
  }

  /** The loop of `try_partition` in progress: `keep` agrees with the first member of `l`,
      `gone` does not, `prev` is the last member kept and `cur` the next to look at. */
  ghost predicate Passing(m: Fsm, cls: seq<nat>, u: Unset, c: Byte, jump: seq<nat>, head: nat, l: seq<nat>, keep: seq<nat>,
                          gone: seq<nat>, prev: nat, cur: nat)
    requires IsClassMap(m, cls)
  {
    && 0 < |keep| + |gone| <= |l|
    && (forall s :: s in l ==> s < |m.states|)
    && Splitting(jump, head, l, |keep| + |gone|, keep, gone)
    && prev == keep[|keep| - 1]
    && cur == (if |keep| + |gone| < |l| then l[|keep| + |gone|] else NO_ID)
    && (forall s :: s in keep ==> SameSignature(m, cls, u, l[0], s, c))
    && (forall s :: s in gone ==> !SameSignature(m, cls, u, l[0], s, c))
  }

  class MinEnv {
    const fsm: Fsm
    const dfaLabels: seq<Byte>
    const nulls: set<nat>
    const junk: (nat, nat) -> set<Byte>
    const ecs: array<nat>
    const jump: array<nat>
    const stateEcs: array<nat>
    var ecCount: nat
    var doneOffset: nat
    var steps: nat
    ghost var lists: seq<seq<nat>>

    ghost predicate Shape()
      reads this
    {
      && IsDfa(fsm) && NullsOf(fsm, nulls) && 0 < |fsm.states| < SMALL_EC_FLAG - 1
      && ecs.Length == jump.Length == stateEcs.Length == |fsm.states| + 1
      && ecs != jump && jump != stateEcs && ecs != stateEcs
    }

    /** The arrays represent the lists, and the lists are a partition. */
    ghost predicate Linked()
      reads this, ecs, jump, stateEcs
    {
      && Shape()
      && IsPartition(lists, |fsm.states|)
      && Represents(ecs[..], jump[..], lists)
      && stateEcs[|fsm.states|] == NO_ID
    }

    ghost predicate Valid()
      reads this, ecs, jump, stateEcs
    {
      && Linked()
      && |lists| == ecCount
      && Indexes(stateEcs[..], lists)
      && Ordered(lists, doneOffset)
    }

    /** What the unset arrays hold at this step. */
    function Now(): Unset
      reads this
    {
      Unset(nulls, junk, steps)
    }

    /** With so few labels overall, no class gathers its own. */
    ghost predicate FewLabels() {
      |dfaLabels| < DFA_LABELS_THRESHOLD
    }

    /** Number the members of class `i`, and flag its head when it is small. */
    method UpdateEcLinks(i: nat)
      requires Linked() && i < |lists|
      modifies ecs, stateEcs
      ensures Linked()
      ensures forall s :: s in lists[i] ==> s <= |fsm.states| && stateEcs[s] == i
      ensures forall s :: 0 <= s <= |fsm.states| && s !in lists[i] ==> stateEcs[s] == old(stateEcs[s])
      ensures forall k :: 0 <= k <= |fsm.states| && k != i ==> ecs[k] == old(ecs[k])
      ensures ecs[i] == if |lists[i]| <= SMALL_EC_THRESHOLD && |dfaLabels| >= DFA_LABELS_THRESHOLD
                        then SetSmallFlag(old(ecs[i])) else old(ecs[i])
    {
      ghost var l := lists[i];
      MemberBound(lists, |fsm.states|, i);
      var count := 0;
      var cur := Mask(ecs[i]);
      while cur != NO_ID
        invariant 0 <= count <= |l|
        invariant cur == if count < |l| then l[count] else NO_ID
        invariant forall k :: 0 <= k < count ==> l[k] <= |fsm.states| && stateEcs[l[k]] == i
        invariant forall s :: 0 <= s <= |fsm.states| && s !in l[..count] ==> stateEcs[s] == old(stateEcs[s])
        invariant ecs[..] == old(ecs[..])
        decreases |l| - count
      {
        assert LinkAt(jump[..], l, count);
        assert l[..count + 1] == l[..count] + [l[count]];
        stateEcs[cur] := i;
        cur := jump[cur];
        count := count + 1;
      }
      assert l[..count] == l;
      if count <= SMALL_EC_THRESHOLD && |dfaLabels| >= DFA_LABELS_THRESHOLD {
        ecs[i] := SetSmallFlag(ecs[i]);
      }
    }

    /** Does `s` agree with `first` on `symbol`, whose class and label set are given? */
    method Agrees(symbol: Byte, s: nat, firstEc: nat, firstLabels: set<Byte>, ghost first: nat) returns (same: bool)
      requires Shape() && IsClassMap(fsm, stateEcs[..]) && s < |fsm.states|
      requires firstEc == ToEc(fsm, stateEcs[..], first, symbol)
      requires firstLabels == SeenLabels(fsm, stateEcs[..], Now(), first, symbol)
      ensures same <==> SameSignature(fsm, stateEcs[..], Now(), first, s, symbol)
    {
      var found, to, labels := CheckEdges(fsm, Now(), s, symbol, stateEcs);
      var toEc := if found then stateEcs[to] else stateEcs[|fsm.states|];
      same := toEc == firstEc && firstLabels == labels;
    }

    /** Unlink `cur` from behind `prev` and link it in front of the list at `dst`. */
    method MoveToFront(prev: nat, cur: nat, dst: nat, ghost l: seq<nat>, ghost k: nat, ghost keep: seq<nat>,
                       ghost gone: seq<nat>)
      returns (next: nat)
      requires Shape() && dst <= |fsm.states| && k < |l|
      requires Splitting(jump[..], ecs[dst], l, k, keep, gone)
      requires prev == keep[|keep| - 1] && cur == l[k]
      modifies ecs, jump
      ensures ecs[..] == old(ecs[..])[dst := cur]
      ensures forall s :: 0 <= s <= |fsm.states| && s != prev && s != cur ==> jump[s] == old(jump[s])
      ensures Splitting(jump[..], ecs[dst], l, k + 1, keep, [cur] + gone)
      ensures next == if k + 1 < |l| then l[k + 1] else NO_ID
    {
      SplittingLinks(jump[..], ecs[dst], l, k, keep, gone);
      SplittingMove(jump[..], ecs[dst], l, k, keep, gone);
      next := jump[cur];
      jump[prev] := next;
      jump[cur] := ecs[dst];
      ecs[dst] := cur;
    }

    /** One turn of the pass: keep `cur` in place, or move it to the list at `dst`. */
    method SplitStep(symbol: Byte, prev: nat, cur: nat, dst: nat, firstEc: nat, firstLabels: set<Byte>,
                     ghost l: seq<nat>, ghost keep: seq<nat>, ghost gone: seq<nat>)
      returns (same: bool, prev': nat, cur': nat, ghost keep': seq<nat>, ghost gone': seq<nat>)
      requires Shape() && IsClassMap(fsm, stateEcs[..]) && dst <= |fsm.states|
      requires Passing(fsm, stateEcs[..], Now(), symbol, jump[..], ecs[dst], l, keep, gone, prev, cur)
      requires cur != NO_ID
      requires firstEc == ToEc(fsm, stateEcs[..], l[0], symbol)
      requires firstLabels == SeenLabels(fsm, stateEcs[..], Now(), l[0], symbol)
      modifies ecs, jump
      ensures Passing(fsm, stateEcs[..], Now(), symbol, jump[..], ecs[dst], l, keep', gone', prev', cur')
      ensures ecs[..] == old(ecs[..])[dst := ecs[dst]]
      ensures forall s :: 0 <= s <= |fsm.states| && s !in l ==> jump[s] == old(jump[s])
      ensures same ==> |keep'| == |keep| + 1 && |gone'| == |gone|
      ensures !same ==> |keep'| == |keep| && |gone'| == |gone| + 1
    {
      ghost var k := |keep| + |gone|;
      assert l[k] in l && prev in keep;
      same := Agrees(symbol, cur, firstEc, firstLabels, l[0]);
      keep', gone' := keep, gone;
      if same {
        SplittingLinks(jump[..], ecs[dst], l, k, keep, gone);
        SplittingKeep(jump[..], ecs[dst], l, k, keep, gone);
        keep' := keep + [cur];
        prev', cur' := cur, jump[cur];
      } else {
        cur' := MoveToFront(prev, cur, dst, l, k, keep, gone);
        gone' := [cur] + gone;
        prev' := prev;
      }
    }

    /** The pass over one class: unlink every member that disagrees with the first one
        on `symbol` and link it in front of the list at `dst`. */
    method SplitList(symbol: Byte, src: nat, dst: nat, ghost l: seq<nat>)
      returns (kept: nat, moved: nat, checked: set<Byte>, ghost keep: seq<nat>, ghost gone: seq<nat>)
      requires Shape() && IsClassMap(fsm, stateEcs[..])
      requires src <= |fsm.states| && dst <= |fsm.states| && src != dst
      requires IsList(ecs[src], jump[..], l) && Distinct(l)
      requires forall k :: 0 <= k < |l| ==> l[k] < |fsm.states|
      modifies ecs, jump
      ensures ecs[..] == old(ecs[..])[dst := ecs[dst]]
      ensures forall s :: 0 <= s <= |fsm.states| && s !in l ==> jump[s] == old(jump[s])
      ensures kept == |keep| && moved == |gone| && kept + moved == |l|
      ensures exists prev :: Passing(fsm, stateEcs[..], Now(), symbol, jump[..], ecs[dst], l, keep, gone, prev, NO_ID)
      ensures checked == CheckedLabels(fsm, stateEcs[..], l[0], symbol)
    {
      var cur := Mask(ecs[src]);
      var found, to, firstLabels := CheckEdges(fsm, Now(), cur, symbol, stateEcs);
      var firstEc := if found then stateEcs[to] else stateEcs[|fsm.states|];
      checked := if found then firstLabels else {};
      kept, moved := 1, 0;
      SplittingStart(jump[..], l);
      keep, gone := [l[0]], [];
      SplittingLinks(jump[..], NO_ID, l, 1, keep, gone);
      var prev := cur;
      cur := jump[cur];
      ecs[dst] := NO_ID;
      while cur != NO_ID
        invariant kept == |keep| && moved == |gone|
        invariant Passing(fsm, stateEcs[..], Now(), symbol, jump[..], ecs[dst], l, keep, gone, prev, cur)
        invariant ecs[..] == old(ecs[..])[dst := ecs[dst]]
        invariant forall s :: 0 <= s <= |fsm.states| && s !in l ==> jump[s] == old(jump[s])
        decreases |l| - kept - moved
      {
        var same;
        same, prev, cur, keep, gone := SplitStep(symbol, prev, cur, dst, firstEc, firstLabels, l, keep, gone);
        if same {
          kept := kept + 1;
        } else {
          moved := moved + 1;
        }
      }
    }

    /** Try to split class `src` on `symbol`, the new class going to the end, and report
        which symbols were compared on the way. */
    method TryPartition(symbol: Byte, src: nat, checked: set<Byte>)
      returns (kept: nat, moved: nat, checked': set<Byte>)
      requires Valid() && src < ecCount && IsClassMap(fsm, stateEcs[..])
      modifies ecs, jump, this`lists
      ensures Linked() && forall i :: 0 <= i < ecCount ==> ecs[i] == old(ecs[i])
      ensures checked' == checked + CheckedLabels(fsm, stateEcs[..], old(lists)[src][0], symbol)
      ensures moved == 0 ==> lists == old(lists) && MatchedOn(fsm, stateEcs[..], Now(), lists[src], symbol)
      ensures moved > 0 ==> SplitOff(fsm, stateEcs[..], Now(), symbol, old(lists), lists, src) &&
                            kept == |lists[src]| && moved == |lists[ecCount]| && ecs[ecCount] < SMALL_EC_FLAG
    {
      MemberBound(lists, |fsm.states|, src);
      ClassCount(lists, |fsm.states|);
      ghost var l, ecs0, jump0 := lists[src], ecs[..], jump[..];
      var alongside;
      ghost var keep, gone;
      kept, moved, alongside, keep, gone := SplitList(symbol, src, ecCount, l);
      checked' := checked + alongside;
      SplittingDone(ecs0, jump0, lists, |fsm.states|, src, ecs[ecCount], jump[..], keep, gone);
      assert l[|l|..] == [] && forall s :: s in l <==> s in keep || s in gone;
      if moved > 0 {
        assert gone[0] in l;
        lists := lists[src := keep] + [gone];
      }
    }

    /** Exchange two classes and renumber both. */
    method SwapClasses(i: nat, j: nat)
      requires Linked() && i < |lists| && j < |lists|
      requires IndexesExcept(stateEcs[..], lists, {i, j})
      modifies ecs, stateEcs, this`lists
      ensures Linked() && Indexes(stateEcs[..], lists)
      ensures lists == Swap(old(lists), i, j)
      ensures FewLabels() ==> ecs[..] == Swap(old(ecs[..]), i, j)
    {
      SwapPartition(lists, |fsm.states|, i, j);
      SwapRepresents(ecs[..], jump[..], lists, i, j);
      ecs[i], ecs[j] := ecs[j], ecs[i];
      lists := Swap(lists, i, j);
      assert ecs[..] == Swap(old(ecs[..]), i, j);
      RenumberClass(i, {i, j});
      RenumberClass(j, {i, j} - {i});
    }

    method RenumberClass(i: nat, ghost stale: set<nat>)
      requires Linked() && i < |lists|
      requires IndexesExcept(stateEcs[..], lists, stale)
      modifies ecs, stateEcs
      ensures Linked() && IndexesExcept(stateEcs[..], lists, stale - {i})
      ensures FewLabels() ==> ecs[..] == old(ecs[..])
    {
      ghost var cls := stateEcs[..];
      UpdateEcLinks(i);
      assert FewLabels() ==> ecs[..] == old(ecs[..]);
      Renumbered(cls, stateEcs[..], lists, |fsm.states|, i, stale);
    }

    /** Exchange class `i` for the one at the boundary, and move the boundary behind it. */
    method Promote(i: nat)
      requires Linked() && doneOffset <= i < |lists|
      requires IndexesExcept(stateEcs[..], lists, {i, doneOffset})
      modifies ecs, stateEcs, this`lists, this`doneOffset
      ensures Linked() && Indexes(stateEcs[..], lists)
      ensures lists == Swap(old(lists), i, old(doneOffset)) && doneOffset == old(doneOffset) + 1
      ensures FewLabels() ==> ecs[..] == Swap(old(ecs[..]), i, old(doneOffset))
      ensures FewLabels() && old(Plain(ecs[..], doneOffset)) && old(ecs[i]) < SMALL_EC_FLAG ==> Plain(ecs[..], doneOffset)
    {
      if Plain(ecs[..], doneOffset) && ecs[i] < SMALL_EC_FLAG {
        PlainPromoted(ecs[..], i, doneOffset);
      }
      SwapClasses(i, doneOffset);
      doneOffset := doneOffset + 1;
    }

    /** Exchange class `i` for the last one before the boundary, and move the boundary before it. */
    method Demote(i: nat)
      requires Linked() && i < doneOffset <= |lists| && Indexes(stateEcs[..], lists)
      modifies ecs, stateEcs, this`lists, this`doneOffset
      ensures Linked() && Indexes(stateEcs[..], lists)
      ensures lists == Swap(old(lists), i, old(doneOffset) - 1) && doneOffset == old(doneOffset) - 1
      ensures FewLabels() && old(Plain(ecs[..], doneOffset)) ==> Plain(ecs[..], doneOffset)
    {
      if Plain(ecs[..], doneOffset) {
        PlainDemoted(ecs[..], i, doneOffset);
      }
      SwapClasses(i, doneOffset - 1);
      doneOffset := doneOffset - 1;
    }

    /** Restore the order of the classes after a split; true when class `src` was exchanged
        for another one, which must then be looked at from its first label. */
    method UpdateAfterPartition(kept: nat, moved: nat, src: nat) returns (restart: bool)
      requires Linked() && |lists| == ecCount + 1 && src < doneOffset <= ecCount
      requires kept == |lists[src]| && moved == |lists[ecCount]|
      requires IndexesExcept(stateEcs[..], lists, {ecCount})
      requires forall i :: 0 <= i < doneOffset && i != src ==> |lists[i]| >= 2
      requires forall i :: doneOffset <= i < ecCount ==> |lists[i]| == 1
      requires FewLabels() ==> Plain(ecs[..], doneOffset) && ecs[ecCount] < SMALL_EC_FLAG
      modifies ecs, stateEcs, this`lists, this`doneOffset
      ensures Linked() && Indexes(stateEcs[..], lists)
      ensures lists == Arrange(old(lists), src, old(doneOffset))
      ensures doneOffset == DoneAfter(old(lists), src, old(doneOffset))
      ensures Ordered(lists, doneOffset)
      ensures restart <==> kept == 1
      ensures FewLabels() ==> Plain(ecs[..], doneOffset)
    {
      ArrangeOrdered(lists, src, doneOffset);
      restart := false;
      if moved == 1 {
        RenumberClass(ecCount, {ecCount});
      } else {
        Promote(ecCount);
      }
      if kept == 1 && doneOffset > 0 {
        Demote(src);
        restart := true;
      }
    }

    /** `Valid`, and every split so far was justified. */
    ghost predicate Refining()
      reads this, ecs, jump, stateEcs
    {
      && Shape() && doneOffset <= ecCount == |lists| <= |fsm.states|
      && forall b {:trigger Look(b)} :: Look(b) ==>
           && Valid() && Refined(fsm, nulls, junk, lists) && AllLive(fsm)
           && (FewLabels() ==> Plain(ecs[..], doneOffset))
    }

    lemma Separating()
      requires Refining()
      ensures IsClassMap(fsm, stateEcs[..])
      ensures Separated(fsm, nulls, junk, stateEcs[..]) && AllLive(fsm)
    {
      assert Look(true);
      ClassMapOfLists(fsm, lists, stateEcs[..]);
      RefinedSeparates(fsm, nulls, junk, lists, stateEcs[..]);
    }

    /** Every symbol of class `ec` was tried once more without a split. */
    ghost predicate Looked(ec: nat)
      reads this, stateEcs
      requires ec < |lists|
    {
      Compared(fsm, stateEcs[..], nulls, junk, lists[ec])
    }

    /** Try one symbol on class `ec`; when it splits, put the classes back in order. */
    method PartitionStep(symbol: Byte, ec: nat, checked: set<Byte>)
      returns (split: bool, restart: bool, checked': set<Byte>)
      requires Refining() && ec < doneOffset
      modifies this, ecs, jump, stateEcs
      ensures Refining()
      ensures split ==> ecCount == old(ecCount) + 1 && (!restart ==> ec < doneOffset)
      ensures !split ==> !restart && ecCount == old(ecCount) && doneOffset == old(doneOffset) &&
                         lists == old(lists) && stateEcs[..] == old(stateEcs[..])
      ensures !split ==> StableOn(fsm, stateEcs[..], lists[ec], {symbol} + (checked' - checked)) && Looked(ec)
      ensures checked <= checked'
    {
      Separating();
      assert Look(true);
      ghost var cls, before := stateEcs[..], lists;
      var kept, moved;
      steps := steps + 1;
      kept, moved, checked' := TryPartition(symbol, ec, checked);
      split, restart := moved > 0, false;
      if !split {
        MatchSettles(fsm, cls, Now(), lists[ec], symbol);
        assert MatchedOn(fsm, cls, Unset(nulls, junk, steps), lists[ec], symbol);
      } else {
        restart := SettleSplit(symbol, ec, kept, moved, before);
      }
    }

    /** Bring the classes in order after a split, and count the new one. */
    method SettleSplit(symbol: Byte, ec: nat, kept: nat, moved: nat, ghost before: seq<seq<nat>>) returns (restart: bool)
      requires Linked() && IsClassMap(fsm, stateEcs[..]) && |before| == ecCount && ec < doneOffset <= ecCount
      requires IsPartition(before, |fsm.states|) && Indexes(stateEcs[..], before) && Ordered(before, doneOffset)
      requires Refined(fsm, nulls, junk, before) && AllLive(fsm)
      requires Separated(fsm, nulls, junk, stateEcs[..])
      requires SplitOff(fsm, stateEcs[..], Now(), symbol, before, lists, ec)
      requires kept == |lists[ec]| && moved == |lists[ecCount]|
      requires FewLabels() ==> Plain(ecs[..], doneOffset) && ecs[ecCount] < SMALL_EC_FLAG
      modifies this, ecs, stateEcs
      ensures Refining() && ecCount == old(ecCount) + 1 && (!restart ==> ec < doneOffset)
    {
      RefinedSplit(fsm, stateEcs[..], Now(), symbol, before, lists, ec);
      RefinedArrange(fsm, nulls, junk, lists, ec, doneOffset);
      SplitIndexes(stateEcs[..], symbol, before, lists, ec);
      restart := UpdateAfterPartition(kept, moved, ec);
      ClassCount(lists, |fsm.states|);
      ecCount := ecCount + 1;
    }

    lemma SplitIndexes(cls: seq<nat>, symbol: Byte, before: seq<seq<nat>>, after: seq<seq<nat>>, src: nat)
      requires IsClassMap(fsm, cls) && Indexes(cls, before) && SplitOff(fsm, cls, Now(), symbol, before, after, src)
      ensures IndexesExcept(cls, after, {|before|})
    {
      forall i, s | 0 <= i < |before| && s in after[i]
        ensures s < |cls| && cls[s] == i
      {
        assert s in before[i];
      }
    }

    /** The DFA's label list misses nothing. */
    ghost predicate LabelsCover() {
      forall s :: 0 <= s < |fsm.states| ==> UsedWithin(fsm, s, dfaLabels)
    }

    /** The symbols that the members of class `ec` have edges on. */
    method GatherLabels(ec: nat) returns (labels: seq<Byte>)
      requires Linked() && ec < |lists|
      ensures forall s :: s in lists[ec] ==> UsedWithin(fsm, s, labels)
    {
      ghost var l, k := lists[ec], 0;
      MemberBound(lists, |fsm.states|, ec);
      var symbols := {};
      var cur := Mask(ecs[ec]);
      while cur != NO_ID
        invariant 0 <= k <= |l|
        invariant cur == if k < |l| then l[k] else NO_ID
        invariant forall j :: 0 <= j < k ==> UsedSymbols(fsm, l[j]) <= symbols
        decreases |l| - k
      {
        assert LinkAt(jump[..], l, k);
        var r := StateSymbols(fsm, cur);
        symbols := symbols + r;
        cur := jump[cur];
        k := k + 1;
      }
      labels := SortedSymbols(symbols);
    }

    /** Try the symbols of `labels` on class `ec`, skipping those already compared as part
        of another one's label set, until the class is exchanged for another. */
    method RefineByLabels(ec: nat, labels: seq<Byte>) returns (changed: bool, restart: bool)
      requires Refining() && ec < doneOffset
      modifies this, ecs, jump, stateEcs
      ensures Refining() && ecCount >= old(ecCount)
      ensures changed <==> ecCount > old(ecCount)
      ensures restart ==> changed
      ensures !changed ==> lists == old(lists) && stateEcs[..] == old(stateEcs[..]) &&
                           doneOffset == old(doneOffset) &&
                           StableOn(fsm, stateEcs[..], lists[ec], set c | c in labels)
      ensures !changed && labels != [] ==> Looked(ec)
    {
      Separating();
      var checked: set<Byte> := {};
      changed, restart := false, false;
      var i := 0;
      while i < |labels| && !restart
        invariant 0 <= i <= |labels|
        invariant Refining() && ecCount >= old(ecCount) && (!restart ==> ec < doneOffset)
        invariant changed <==> ecCount > old(ecCount)
        invariant restart ==> changed
        invariant !changed ==> lists == old(lists) && stateEcs[..] == old(stateEcs[..]) && doneOffset == old(doneOffset)
        invariant !changed ==> StableOn(fsm, stateEcs[..], lists[ec], checked + (set c | c in labels[..i]))
        invariant i == 0 ==> checked == {}
        invariant !changed && i > 0 ==> Looked(ec)
        decreases |labels| - i
      {
        var symbol := labels[i];
        i := i + 1;
        assert labels[..i] == labels[..i - 1] + [symbol];
        if symbol !in checked {
          var split;
          split, restart, checked := PartitionStep(symbol, ec, checked);
          changed := changed || split;
        }
      }
      assert labels[..|labels|] == labels;
    }

    /** The symbols to try on class `ec`, or none when it has a single member. */
    method LabelsToTry(ec: nat) returns (single: bool, labels: seq<Byte>)
      requires Refining() && LabelsCover() && ec < ecCount
      ensures !single ==> ec < doneOffset
      ensures ec < |lists| && lists[ec] != []
      ensures single ==> |lists[ec]| == 1
      ensures forall s :: s in lists[ec] ==> UsedWithin(fsm, s, labels)
      ensures FewLabels() && !single ==> labels == dfaLabels
    {
      assert Look(true);
      var head := ecs[ec];
      MemberBound(lists, |fsm.states|, ec);
      assert IsList(head, jump[..], lists[ec]) && LinkAt(jump[..], lists[ec], 0);
      single := head == NO_ID || jump[Mask(head)] == NO_ID;
      labels := dfaLabels;
      if head >= SMALL_EC_FLAG {
        labels := GatherLabels(ec);
      }
    }

    /** From `restart_EC` to the end of the label loop. */
    method RefineRound(ec: nat) returns (split: bool, restart: bool)
      requires Refining() && LabelsCover() && ec < ecCount
      modifies this, ecs, jump, stateEcs
      ensures Refining() && ecCount >= old(ecCount)
      ensures split <==> ecCount > old(ecCount)
      ensures restart ==> split
      ensures !split ==> lists == old(lists) && stateEcs[..] == old(stateEcs[..]) &&
                         doneOffset == old(doneOffset) &&
                         ec < |lists| && StableOn(fsm, stateEcs[..], lists[ec], AllBytes())
      ensures !split && FewLabels() && dfaLabels != [] && |lists[ec]| > 1 ==> Looked(ec)
    {
      Separating();
      var single, labels := LabelsToTry(ec);
      ghost var l, cls := lists[ec], stateEcs[..];
      split, restart := false, false;
      if !single {
        split, restart := RefineByLabels(ec, labels);
        if !split {
          UnusedSettled(fsm, cls, l, labels);
        }
      }
    }

    /** Work on class `ec` until it is settled, or single, or a full round of labels ends. */
    method RefineClass(ec: nat) returns (changed: bool)
      requires Refining() && LabelsCover() && ec < doneOffset
      modifies this, ecs, jump, stateEcs
      ensures Refining() && ecCount >= old(ecCount)
      ensures changed <==> ecCount > old(ecCount)
      ensures !changed ==> lists == old(lists) && stateEcs[..] == old(stateEcs[..]) &&
                           doneOffset == old(doneOffset) &&
                           StableOn(fsm, stateEcs[..], lists[ec], AllBytes())
      ensures !changed && FewLabels() && dfaLabels != [] && |lists[ec]| > 1 ==> Looked(ec)
    {
      changed := false;
      var again := true;
      while again
        invariant Refining() && ecCount >= old(ecCount) && ec < ecCount
        invariant changed <==> ecCount > old(ecCount)
        invariant again && !changed ==> ec < doneOffset
        invariant !changed ==> lists == old(lists) && stateEcs[..] == old(stateEcs[..]) && doneOffset == old(doneOffset)
        invariant !changed && !again ==> StableOn(fsm, stateEcs[..], lists[ec], AllBytes())
        invariant !changed && !again && FewLabels() && dfaLabels != [] && |lists[ec]| > 1 ==> Looked(ec)
        decreases |fsm.states| - ecCount, again
      {
        var split;
        split, again := RefineRound(ec);
        changed := changed || split;
      }
    }

    /** The first `k` classes, as far as they have two members, were all looked at. */
    ghost predicate AllLooked(k: nat)
      reads this, stateEcs
      requires k <= |lists|
    {
      FewLabels() && dfaLabels != [] ==> forall i :: 0 <= i < k && |lists[i]| > 1 ==> Looked(i)
    }

    /** One pass over the classes that can still be split. */
    method RefinePass() returns (changed: bool)
      requires Refining() && LabelsCover()
      modifies this, ecs, jump, stateEcs
      ensures Refining() && ecCount >= old(ecCount)
      ensures changed ==> ecCount > old(ecCount)
      ensures !changed ==> forall i :: 0 <= i < doneOffset ==> StableOn(fsm, stateEcs[..], lists[i], AllBytes())
      ensures !changed ==> AllLooked(doneOffset)
    {
      changed := false;
      var ec := 0;
      while ec < doneOffset
        invariant 0 <= ec && Refining() && ecCount >= old(ecCount)
        invariant changed ==> ecCount > old(ecCount)
        invariant !changed ==> ec <= doneOffset
        invariant !changed ==> forall i :: 0 <= i < ec ==> StableOn(fsm, stateEcs[..], lists[i], AllBytes())
        invariant !changed ==> AllLooked(ec)
        decreases |fsm.states| - ec
      {
        var split := RefineClass(ec);
        changed := changed || split;
        ec := ec + 1;
      }
    }

    constructor (m: Fsm, labels: seq<Byte>, nulls: set<nat>, junk: (nat, nat) -> set<Byte>)
      requires IsDfa(m) && NullsOf(m, nulls) && 0 < |m.states| < SMALL_EC_FLAG - 1
      ensures Shape() && fsm == m && dfaLabels == labels && this.nulls == nulls && this.junk == junk
      ensures fresh(ecs) && fresh(jump) && fresh(stateEcs)
    {
      fsm, dfaLabels, this.nulls, this.junk, steps := m, labels, nulls, junk, 0;
      ecs := new nat[|m.states| + 1];
      jump := new nat[|m.states| + 1];
      stateEcs := new nat[|m.states| + 1];
      ecCount, doneOffset, lists := 2, 2, [];
      new;
      ecs[0], ecs[1] := NO_ID, NO_ID;
    }

    /** Link every state in front of the list of its distance. */
    method LinkStates(sed: array<nat>, rank: array<nat>) returns (ghost ls: seq<seq<nat>>)
      requires Shape() && sed.Length == |fsm.states| && rank.Length <= |fsm.states|
      requires {sed, rank} !! {ecs, jump, stateEcs}
      requires IsPermutation(rank[..])
      requires forall s :: 0 <= s < sed.Length ==> sed[s] < rank.Length
      modifies ecs, jump, stateEcs
      ensures Assigning(sed[..], rank[..], ecs[..], jump[..], stateEcs[..], ls, |fsm.states|)
    {
      for i := 0 to rank.Length
        invariant forall k :: 0 <= k < i ==> ecs[k] == NO_ID
      {
        ecs[i] := NO_ID;
      }
      ls := seq(rank.Length, _ => []);
      ghost var dist, order := sed[..], rank[..];
      AssignNone(dist, order, ecs[..], jump[..], stateEcs[..], ls);
      for i := 0 to |fsm.states|
        invariant sed[..] == dist && rank[..] == order
        invariant Assigning(dist, order, ecs[..], jump[..], stateEcs[..], ls, i)
      {
        AssignOne(dist, order, ecs[..], jump[..], stateEcs[..], ls, i);
        var ec := rank[sed[i]];
        stateEcs[i] := ec;
        jump[i] := ecs[ec];
        ecs[ec] := i;
        ls := ls[ec := [i] + ls[ec]];
      }
    }

    /** The first class with fewer than two members, or the number of classes. */
    method FindDoneOffset(sed: array<nat>, counts: array<nat>, limit: nat) returns (done: nat)
      requires Shape() && |lists| == limit && sed.Length == |fsm.states|
      requires Grouped(sed[..], counts[..], ecs[..], jump[..], stateEcs[..], lists)
      ensures Ordered(lists, done)
    {
      done := 0;
      while done < limit && counts[sed[ecs[done]]] >= 2
        invariant 0 <= done <= limit
        invariant forall i :: 0 <= i < done ==> |lists[i]| >= 2
      {
        done := done + 1;
      }
      FirstSingle(lists, done);
    }

    /** Group the states by distance, and give the dead state no class. */
    method GroupByDistance(sed: array<nat>, counts: array<nat>, rank: array<nat>)
      requires Shape() && ExactDistances(fsm, sed[..])
      requires {sed, rank, counts} !! {ecs, jump, stateEcs}
      requires 0 < rank.Length <= |fsm.states| && rank.Length - 1 in sed[..]
      requires IsRanking(counts[..], rank[..])
      requires forall s :: 0 <= s < sed.Length ==> sed[s] < rank.Length
      requires forall d :: 0 <= d < counts.Length ==> counts[d] == PV.CountEq(sed[..], d)
      modifies this, ecs, jump, stateEcs
      ensures |lists| == ecCount == rank.Length && stateEcs[|fsm.states|] == NO_ID
      ensures Grouped(sed[..], counts[..], ecs[..], jump[..], stateEcs[..], lists)
    {
      ghost var dist, order, tallies := sed[..], rank[..], counts[..];
      ghost var ls := LinkStates(sed, rank);
      AssignedGrouped(fsm, dist, order, tallies, ecs[..], jump[..], stateEcs[..], ls);
      stateEcs[|fsm.states|] := NO_ID;
      lists := ls;
      ecCount := rank.Length;
    }

    /** The starting classes are the distance classes, all of them non-empty, in descending
        order of size, with the offset at the first single one. */
    method PopulateInitialEcs(sed: array<nat>)
      requires Shape() && ExactDistances(fsm, sed[..])
      requires {sed} !! {ecs, jump, stateEcs}
      modifies this, ecs, jump, stateEcs
      ensures Valid()
      ensures DistanceClasses(sed[..], lists) && Descending(lists) && Plain(ecs[..], ecCount)
    {
      var counts, sedMax, countMax := CountDistances(sed);
      ghost var dist := sed[..];
      assert dist[..sed.Length] == dist;
      ghost var top :| 0 <= top < sed.Length && sed[top] == sedMax;
      DistancesFit(fsm, dist, top);
      var rank := RankDistances(counts, sedMax, countMax);
      GroupByDistance(sed, counts, rank);
      doneOffset := FindDoneOffset(sed, counts, sedMax + 1);
    }

    /** Unlink `s` from behind `prev` in class `ec` and make it a class of its own. */
    method MoveToNewClass(ec: nat, prev: nat, s: nat, ghost p: nat)
      requires Linked() && Indexes(stateEcs[..], lists) && |lists| == ecCount && Plain(ecs[..], ecCount)
      requires ec < |lists| && 0 < p < |lists[ec]| && prev == lists[ec][p - 1] && s == lists[ec][p]
      modifies this, ecs, jump, stateEcs
      ensures Linked() && Indexes(stateEcs[..], lists) && |lists| == ecCount && doneOffset == old(doneOffset)
      ensures Plain(ecs[..], ecCount)
      ensures lists == MovedToNew(old(lists), ec, p)
    {
      ClassCount(lists, |fsm.states|);
      Classes.MoveToNew(ecs[..], jump[..], lists, |fsm.states|, ec, p);
      WithoutMembers(lists[ec], p);
      jump[prev] := jump[s];
      ecs[ecCount] := s;
      stateEcs[s] := ecCount;
      jump[s] := NO_ID;
      ecCount := ecCount + 1;
      lists := MovedToNew(lists, ec, p);
    }

    /** Unlink `s` from behind `prev` in class `ec` and link it behind `other`, the first
        member of another class. */
    method MoveToClass(ec: nat, prev: nat, s: nat, other: nat, ghost p: nat, ghost j: nat)
      requires Linked() && Indexes(stateEcs[..], lists) && |lists| == ecCount && Plain(ecs[..], ecCount)
      requires ec < |lists| && 0 < p < |lists[ec]| && prev == lists[ec][p - 1] && s == lists[ec][p]
      requires j < |lists| && j != ec && other == lists[j][0]
      modifies this, jump, stateEcs
      ensures Linked() && Indexes(stateEcs[..], lists) && |lists| == ecCount && doneOffset == old(doneOffset)
      ensures Plain(ecs[..], ecCount)
      ensures lists == MovedTo(old(lists), ec, p, j)
    {
      Classes.MoveTo(ecs[..], jump[..], lists, |fsm.states|, ec, p, j);
      MoveToIndexes(stateEcs[..], lists, |fsm.states|, ec, p, j);
      jump[prev] := jump[s];
      stateEcs[s] := stateEcs[other];
      jump[s] := jump[other];
      jump[other] := s;
      lists := MovedTo(lists, ec, p, j);
    }

    /** What holds between two turns of the metadata pass over class `ec`. */
    ghost predicate RegroupingAt(ec: nat, prev: nat, lists0: seq<seq<nat>>, k: nat, keep: seq<nat>, leaders: seq<nat>)
      reads this, ecs, jump, stateEcs
    {
      && Shape() && ec < |lists0| && ec <= |fsm.states| && k <= |lists0[ec]|
      && forall b {:trigger Look(b)} :: Look(b) ==>
           && Linked() && Indexes(stateEcs[..], lists) && |lists| == ecCount && Plain(ecs[..], ecCount)
           && Regrouping(fsm, lists0, lists, ec, k, keep, leaders)
           && Distinct(lists0[ec])
           && prev == if k == 0 then NO_ID else keep[|keep| - 1]
    }

    lemma RegroupEnter(ec: nat)
      requires Linked() && Indexes(stateEcs[..], lists) && |lists| == ecCount && ec < ecCount && Plain(ecs[..], ecCount)
      ensures RegroupingAt(ec, NO_ID, lists, 0, [], [])
      ensures lists[ec] != [] && lists[ec][0] == Mask(ecs[ec])
      ensures forall k :: 0 <= k < |lists[ec]| ==> lists[ec][k] < NO_ID
    {
      MemberBound(lists, |fsm.states|, ec);
      ClassCount(lists, |fsm.states|);
      RegroupStart(fsm, lists, ec);
    }

    lemma RegroupOpen(ec: nat, prev: nat, lists0: seq<seq<nat>>, k: nat, keep: seq<nat>, leaders: seq<nat>)
      requires RegroupingAt(ec, prev, lists0, k, keep, leaders)
      ensures Linked() && Indexes(stateEcs[..], lists) && |lists| == ecCount && Plain(ecs[..], ecCount)
      ensures Regrouping(fsm, lists0, lists, ec, k, keep, leaders)
    {
      assert Look(true);
    }

    /** A state with new metadata leads a group: it stays if it is the first of its class,
        else it becomes a class of its own. */
    method PlaceLeader(ec: nat, s: nat, prev: nat, ghost lists0: seq<seq<nat>>, ghost k: nat, ghost keep: seq<nat>,
                       ghost leaders: seq<nat>)
      returns (prev': nat, ghost keep': seq<nat>)
      requires RegroupingAt(ec, prev, lists0, k, keep, leaders)
      requires k < |lists0[ec]| && s == lists0[ec][k] < |fsm.states|
      requires forall y :: y in leaders ==> y < |fsm.states| && Metadata(fsm, s) != Metadata(fsm, y)
      modifies this, ecs, jump, stateEcs
      ensures RegroupingAt(ec, prev', lists0, k + 1, keep', leaders + [s])
      ensures doneOffset == old(doneOffset)
    {
      assert Look(true);
      assert k > 0 ==> keep[|keep| - 1] in keep;
      if prev == NO_ID {
        RegroupFirst(fsm, lists0, lists, ec, keep, leaders);
        prev', keep' := s, [s];
      } else {
        RegroupNew(fsm, lists0, lists, ec, k, keep, leaders);
        MoveToNewClass(ec, prev, s, |keep|);
        prev', keep' := prev, keep;
      }
    }

    /** A state whose metadata is known joins the group of `other`. */
    method PlaceMember(ec: nat, s: nat, prev: nat, other: nat, ghost lists0: seq<seq<nat>>, ghost k: nat,
                       ghost keep: seq<nat>, ghost leaders: seq<nat>)
      returns (prev': nat, ghost keep': seq<nat>)
      requires RegroupingAt(ec, prev, lists0, k, keep, leaders)
      requires k < |lists0[ec]| && s == lists0[ec][k] < |fsm.states|
      requires other in leaders && other < |fsm.states| && Metadata(fsm, other) == Metadata(fsm, s)
      modifies this, ecs, jump, stateEcs
      ensures RegroupingAt(ec, prev', lists0, k + 1, keep', leaders)
      ensures doneOffset == old(doneOffset)
    {
      assert Look(true);
      ghost var x := LeaderClass(lists0, lists, ec, k, keep, leaders, other);
      if stateEcs[other] == ec {
        RegroupKeep(fsm, lists0, lists, ec, k, keep, leaders);
        prev', keep' := s, keep + [s];
      } else {
        RegroupJoin(fsm, lists0, lists, ec, k, keep, leaders, x);
        MoveToClass(ec, prev, s, other, |keep|, x);
        prev', keep' := prev, keep;
      }
    }

    lemma NotLeader(ec: nat, prev: nat, lists0: seq<seq<nat>>, k: nat, keep: seq<nat>, leaders: seq<nat>)
      requires RegroupingAt(ec, prev, lists0, k, keep, leaders) && k < |lists0[ec]|
      ensures lists0[ec][k] < |fsm.states| && lists0[ec][k] !in leaders
    {
      assert Look(true);
      assert lists0[ec][k] == lists[ec][|keep|] && lists0[ec][k] in lists[ec];
    }

    ghost predicate CollectedIn(md: array<set<nat>>)
      reads md
    {
      md.Length == |fsm.states| && forall s :: 0 <= s < md.Length ==> md[s] == Metadata(fsm, s)
    }

    /** Place one state: keep it, give it a class of its own, or link it to its group. */
    method RegroupStep(hash: set<nat> -> nat, md: array<set<nat>>, htab: array<nat>, ec: nat, s: nat, prev: nat,
                       ghost lists0: seq<seq<nat>>, ghost k: nat, ghost keep: seq<nat>, ghost leaders: seq<nat>)
      returns (next: nat, prev': nat, ghost keep': seq<nat>, ghost leaders': seq<nat>)
      requires RegroupingAt(ec, prev, lists0, k, keep, leaders)
      requires k < |lists0[ec]| && s == lists0[ec][k]
      requires CollectedIn(md) && LeaderTable(fsm, hash, htab[..], leaders)
      requires htab !in {ecs, jump, stateEcs}
      modifies this, ecs, jump, stateEcs, htab
      ensures RegroupingAt(ec, prev', lists0, k + 1, keep', leaders')
      ensures LeaderTable(fsm, hash, htab[..], leaders')
      ensures doneOffset == old(doneOffset)
      ensures next == if k + 1 < |lists0[ec]| then lists0[ec][k + 1] else NO_ID
    {
      next := NextOf(ec, s, lists0, k, keep, leaders, prev);
      NotLeader(ec, prev, lists0, k, keep, leaders);
      ghost var d;
      var b;
      b, d := Probe(fsm, hash, md, htab, s, leaders);
      var other := htab[b];
      if other == NO_ID {
        InsertLeader(fsm, hash, htab[..], leaders, s, d);
        htab[b] := s;
        leaders' := leaders + [s];
        prev', keep' := PlaceLeader(ec, s, prev, lists0, k, keep, leaders);
      } else {
        leaders' := leaders;
        prev', keep' := PlaceMember(ec, s, prev, other, lists0, k, keep, leaders);
      }
    }

    /** The class a leader stands for. */
    lemma LeaderClass(lists0: seq<seq<nat>>, ls: seq<seq<nat>>, ec: nat, k: nat, keep: seq<nat>, leaders: seq<nat>,
                      y: nat)
      returns (j: nat)
      requires Regrouping(fsm, lists0, ls, ec, k, keep, leaders) && y in leaders
      ensures j < |ls| && y in ls[j]
      ensures j == ec ==> y == leaders[0]
      ensures j != ec ==> |lists0| <= j && y == ls[j][0]
      ensures k > 0
    {
      var i :| 0 <= i < |leaders| && leaders[i] == y;
      j := if i == 0 then ec else |lists0| + i - 1;
    }

    /** The pass over class `ec`, whose members are `l`, with an empty table. */
    method RegroupMembers(hash: set<nat> -> nat, md: array<set<nat>>, htab: array<nat>, ec: nat, ghost l: seq<nat>,
                          ghost lists0: seq<seq<nat>>)
      returns (prev: nat, ghost keep: seq<nat>, ghost leaders: seq<nat>)
      requires RegroupingAt(ec, NO_ID, lists0, 0, [], [])
      requires l == lists0[ec] != [] && l[0] == Mask(ecs[ec])
      requires forall k :: 0 <= k < |l| ==> l[k] < NO_ID
      requires CollectedIn(md) && LeaderTable(fsm, hash, htab[..], [])
      requires htab !in {ecs, jump, stateEcs}
      modifies this, ecs, jump, stateEcs, htab
      ensures RegroupingAt(ec, prev, lists0, |l|, keep, leaders)
      ensures doneOffset == old(doneOffset)
    {
      ghost var k := 0;
      keep, leaders := [], [];
      var s := Mask(ecs[ec]);
      prev := NO_ID;
      while s != NO_ID
        invariant 0 <= k <= |l| && s == if k < |l| then l[k] else NO_ID
        invariant RegroupingAt(ec, prev, lists0, k, keep, leaders)
        invariant LeaderTable(fsm, hash, htab[..], leaders)
        invariant doneOffset == old(doneOffset)
        decreases |l| - k
      {
        s, prev, keep, leaders := RegroupStep(hash, md, htab, ec, s, prev, lists0, k, keep, leaders);
        k := k + 1;
      }
    }

    /** Split class `ec` by metadata: the first member's group stays, every other group becomes
        a class at the end. */
    method RegroupClass(hash: set<nat> -> nat, md: array<set<nat>>, htab: array<nat>, ec: nat, ghost sed: seq<nat>)
      requires Linked() && Indexes(stateEcs[..], lists) && |lists| == ecCount && ec < ecCount && Plain(ecs[..], ecCount)
      requires CollectedIn(md) && 0 < |fsm.states| <= htab.Length
      requires htab !in {ecs, jump, stateEcs}
      requires ApartByKey(fsm, sed, lists)
      modifies this, ecs, jump, stateEcs, htab
      ensures Linked() && Indexes(stateEcs[..], lists) && |lists| == ecCount && doneOffset == old(doneOffset)
      ensures Plain(ecs[..], ecCount)
      ensures ApartByKey(fsm, sed, lists) && old(ecCount) <= ecCount
      ensures forall i :: 0 <= i < old(ecCount) && i != ec ==> lists[i] == old(lists)[i]
      ensures Uniform(fsm, lists, ec) && forall i :: old(ecCount) <= i < ecCount ==> Uniform(fsm, lists, i)
    {
      ghost var lists0 := lists;
      ResetTable(htab);
      EmptyLeaders(fsm, hash, htab[..]);
      RegroupEnter(ec);
      var prev;
      ghost var keep, leaders;
      prev, keep, leaders := RegroupMembers(hash, md, htab, ec, lists0[ec], lists0);
      RegroupOpen(ec, prev, lists0, |lists0[ec]|, keep, leaders);
      RegroupDone(fsm, sed, lists0, lists, ec, keep, leaders);
    }

    /** The successor of `s`, read before `s` is moved. */
    method NextOf(ec: nat, s: nat, ghost lists0: seq<seq<nat>>, ghost k: nat, ghost keep: seq<nat>,
                  ghost leaders: seq<nat>, ghost prev: nat)
      returns (next: nat)
      requires RegroupingAt(ec, prev, lists0, k, keep, leaders)
      requires k < |lists0[ec]| && s == lists0[ec][k]
      ensures next == if k + 1 < |lists0[ec]| then lists0[ec][k + 1] else NO_ID
    {
      assert Look(true);
      assert s == lists[ec][|keep|];
      assert IsList(ecs[ec], jump[..], lists[ec]) && LinkAt(jump[..], lists[ec], |keep|);
      next := jump[s];
    }

    /** Collect the end IDs class by class; a class is left at its first member without any,
        which is right because the members of a class are ends together or not at all. */
    method CollectMetadata(ghost sed: seq<nat>) returns (md: array<set<nat>>)
      requires Linked() && |lists| == ecCount
      requires ApartByKey(fsm, sed, lists) && ExactDistances(fsm, sed)
      ensures fresh(md) && CollectedIn(md)
    {
      md := new set<nat>[|fsm.states|](_ => {});
      var ec := 0;
      while ec < ecCount
        invariant 0 <= ec <= ecCount && md.Length == |fsm.states|
        invariant forall i, s {:trigger s in lists[i]} :: 0 <= i < ec && s in lists[i] ==> md[s] == Metadata(fsm, s)
        invariant forall i, s {:trigger s in lists[i]} :: ec <= i < ecCount && s in lists[i] ==> md[s] == {}
      {
        CollectClass(md, ec, sed);
        ec := ec + 1;
      }
      forall s | 0 <= s < |fsm.states|
        ensures md[s] == Metadata(fsm, s)
      {
        assert InSome(lists, s);
      }
    }

    method CollectClass(md: array<set<nat>>, ec: nat, ghost sed: seq<nat>)
      requires Linked() && |lists| == ecCount && ec < ecCount && md.Length == |fsm.states|
      requires ApartByKey(fsm, sed, lists) && ExactDistances(fsm, sed)
      requires forall s :: s in lists[ec] ==> s < md.Length && md[s] == {}
      modifies md
      ensures forall s :: s in lists[ec] ==> md[s] == Metadata(fsm, s)
      ensures forall s :: 0 <= s < md.Length && s !in lists[ec] ==> md[s] == old(md[s])
    {
      ghost var l, k := lists[ec], 0;
      MemberBound(lists, |fsm.states|, ec);
      EndsTogether(ec, sed);
      var s := Mask(ecs[ec]);
      while s != NO_ID && fsm.states[s].end
        invariant 0 <= k <= |l| && s == if k < |l| then l[k] else NO_ID
        invariant forall j :: 0 <= j < k ==> md[l[j]] == Metadata(fsm, l[j])
        invariant forall j :: k <= j < |l| ==> md[l[j]] == {}
        invariant forall t :: 0 <= t < md.Length && t !in l ==> md[t] == old(md[t])
        decreases |l| - k
      {
        assert LinkAt(jump[..], l, k);
        md[s] := fsm.states[s].endIds;
        s := jump[s];
        k := k + 1;
      }
    }

    lemma EndsTogether(ec: nat, sed: seq<nat>)
      requires Shape() && ec < |lists| && ApartByKey(fsm, sed, lists) && ExactDistances(fsm, sed)
      ensures forall s, t :: s in lists[ec] && t in lists[ec] ==>
                s < |fsm.states| && t < |fsm.states| && fsm.states[s].end == fsm.states[t].end
    {
      forall s, t | s in lists[ec] && t in lists[ec]
        ensures s < |fsm.states| && t < |fsm.states| && fsm.states[s].end == fsm.states[t].end
      {
        assert ExactAt(fsm, sed, s) && ExactAt(fsm, sed, t);
        DistanceZero(fsm, s, sed[s]);
        DistanceZero(fsm, t, sed[t]);
      }
    }

    /** Second pass: split every class by metadata, and pull the offset back to the first
        class that became single. */
    method RegroupAll(hash: set<nat> -> nat, md: array<set<nat>>, htab: array<nat>, ghost sed: seq<nat>)
      requires Valid() && ApartByKey(fsm, sed, lists) && Plain(ecs[..], ecCount)
      requires CollectedIn(md) && |fsm.states| <= htab.Length
      requires htab !in {ecs, jump, stateEcs}
      modifies this, ecs, jump, stateEcs, htab
      ensures Linked() && Indexes(stateEcs[..], lists) && |lists| == ecCount && doneOffset <= ecCount
      ensures Plain(ecs[..], ecCount)
      ensures ApartByKey(fsm, sed, lists) && forall i :: 0 <= i < ecCount ==> Uniform(fsm, lists, i)
      ensures forall i :: 0 <= i < doneOffset ==> |lists[i]| >= 2
    {
      var limit := ecCount;
      for ec := 0 to limit
        invariant Linked() && Indexes(stateEcs[..], lists) && |lists| == ecCount && limit <= ecCount
        invariant doneOffset <= limit && Plain(ecs[..], ecCount)
        invariant ApartByKey(fsm, sed, lists)
        invariant forall i :: 0 <= i < ec || limit <= i < ecCount ==> Uniform(fsm, lists, i)
        invariant forall i :: 0 <= i < doneOffset ==> |lists[i]| >= 2
      {
        ghost var lists0 := lists;
        RegroupClass(hash, md, htab, ec, sed);
        forall i | 0 <= i < ec || limit <= i < |lists0|
          ensures Uniform(fsm, lists, i)
        {
          assert lists[i] == lists0[i] && Uniform(fsm, lists0, i);
        }
        MemberBound(lists, |fsm.states|, ec);
        assert IsList(ecs[ec], jump[..], lists[ec]) && LinkAt(jump[..], lists[ec], 0);
        if jump[Mask(ecs[ec])] == NO_ID && ec < doneOffset {
          doneOffset := ec;
        }
      }
    }

    /** Single classes are where they belong as far as `ec`. */
    ghost predicate Sweeping(ec: nat)
      reads this, ecs, jump, stateEcs
    {
      && Shape() && doneOffset <= ec <= ecCount == |lists| && ecCount <= |fsm.states|
      && forall b {:trigger Look(b)} :: Look(b) ==>
           && Linked() && Indexes(stateEcs[..], lists) && Refined(fsm, nulls, junk, lists)
           && (forall i :: 0 <= i < doneOffset ==> |lists[i]| >= 2)
           && (forall i :: doneOffset <= i < ec ==> |lists[i]| == 1)
           && (FewLabels() ==> Plain(ecs[..], doneOffset) && forall i :: ec <= i < ecCount ==> ecs[i] < SMALL_EC_FLAG)
    }

    method SweepStep(ec: nat)
      requires Sweeping(ec) && ec < ecCount
      modifies this, ecs, stateEcs
      ensures Sweeping(ec + 1) && ecCount == old(ecCount)
    {
      assert Look(true);
      MemberBound(lists, |fsm.states|, ec);
      assert IsList(ecs[ec], jump[..], lists[ec]) && LinkAt(jump[..], lists[ec], 0);
      var head := Mask(ecs[ec]);
      if jump[head] == NO_ID {
        ecs[ec] := SetSmallFlag(head);
      } else {
        RefinedSwap(fsm, nulls, junk, lists, ec, doneOffset);
        Promote(ec);
      }
    }

    /** Sweep forward and exchange classes so that all single ones are at the end. */
    method SweepSingles()
      requires Linked() && Indexes(stateEcs[..], lists) && |lists| == ecCount && doneOffset <= ecCount
      requires forall i :: 0 <= i < doneOffset ==> |lists[i]| >= 2
      requires Refined(fsm, nulls, junk, lists) && Plain(ecs[..], ecCount)
      modifies this, ecs, stateEcs
      ensures Valid() && Refined(fsm, nulls, junk, lists)
      ensures FewLabels() ==> Plain(ecs[..], doneOffset)
    {
      ClassCount(lists, |fsm.states|);
      var ec: nat := doneOffset;
      while ec < ecCount
        invariant Sweeping(ec)
        decreases ecCount - ec
      {
        SweepStep(ec);
        ec := ec + 1;
      }
      assert Look(true);
    }

    /** Split the distance classes so that end states with different end IDs are apart. */
    method SplitEcsByEndMetadata(hash: set<nat> -> nat, ghost sed: seq<nat>)
      requires Valid() && ExactDistances(fsm, sed) && DistanceClasses(sed, lists) && Plain(ecs[..], ecCount)
      modifies this, ecs, jump, stateEcs
      ensures Refining()
    {
      DistanceClassesApart(fsm, sed, lists);
      var md := CollectMetadata(sed);
      var buckets := 1;
      while buckets < |fsm.states|
        invariant buckets >= 1
      {
        buckets := buckets * 2;
      }
      var htab := new nat[buckets];
      RegroupAll(hash, md, htab, sed);
      KeyedIsRefined(fsm, nulls, junk, sed, lists);
      SweepSingles();
      ExactIsLive(fsm, sed);
      ClassCount(lists, |fsm.states|);
    }

    /** Repeat passes until one changes nothing: the fixpoint is a congruence. */
    method RefineToFixpoint()
      requires Refining() && LabelsCover()
      modifies this, ecs, jump, stateEcs
      ensures Refining() && Congruent(fsm, stateEcs[..]) && AllLooked(|lists|)
    {
      var changed := RefinePass();
      while changed
        invariant Refining()
        invariant !changed ==> forall i :: 0 <= i < doneOffset ==> StableOn(fsm, stateEcs[..], lists[i], AllBytes())
        invariant !changed ==> AllLooked(doneOffset)
        decreases |fsm.states| - ecCount, changed
      {
        changed := RefinePass();
      }
      Separating();
      FixpointCongruent();
    }

    lemma FixpointCongruent()
      requires Refining() && IsClassMap(fsm, stateEcs[..])
      requires forall i :: 0 <= i < doneOffset ==> StableOn(fsm, stateEcs[..], lists[i], AllBytes())
      requires AllLooked(doneOffset)
      ensures Congruent(fsm, stateEcs[..]) && AllLooked(|lists|)
    {
      assert Look(true);
      forall i | doneOffset <= i < |lists|
        ensures StableOn(fsm, stateEcs[..], lists[i], AllBytes())
      {
        assert |lists[i]| == 1;
      }
      forall i, s | 0 <= i < |lists| && s in lists[i]
        ensures Observe(fsm, s) == Observe(fsm, lists[i][0])
      {
        assert lists[i][0] in lists[i];
      }
      StableIsCongruent(fsm, stateEcs[..], lists);
    }

    /** Number the states by class. The offset skips an empty first class, which no longer
        occurs when the starting classes are the distance classes. */
    method MapStates(mapping: array<nat>) returns (count: nat)
      requires Valid() && mapping.Length == |fsm.states| && mapping !in {ecs, jump, stateEcs}
      modifies mapping
      ensures count == ecCount
      ensures forall s :: 0 <= s < |fsm.states| ==> mapping[s] == stateEcs[s]
    {
      ListOf(lists, |fsm.states|, stateEcs[..], 0);
      MemberBound(lists, |fsm.states|, 0);
      assert IsList(ecs[0], jump[..], lists[0]);
      var offset := if ecs[0] == NO_ID then 1 else 0;
      for i := offset to ecCount
        invariant forall j, s {:trigger s in lists[j]} :: 0 <= j < i && s in lists[j] ==> mapping[s] == j
      {
        MapClass(mapping, i, i - offset);
      }
      forall s | 0 <= s < |fsm.states|
        ensures mapping[s] == stateEcs[s]
      {
        ListOf(lists, |fsm.states|, stateEcs[..], s);
      }
      count := ecCount - offset;
    }

    method MapClass(mapping: array<nat>, i: nat, value: nat)
      requires Linked() && i < |lists| && mapping.Length == |fsm.states| && mapping !in {ecs, jump, stateEcs}
      modifies mapping
      ensures forall s :: s in lists[i] ==> s < mapping.Length && mapping[s] == value
      ensures forall s :: 0 <= s < mapping.Length && s !in lists[i] ==> mapping[s] == old(mapping[s])
    {
      ghost var l, k := lists[i], 0;
      MemberBound(lists, |fsm.states|, i);
      var cur := Mask(ecs[i]);
      while cur != NO_ID
        invariant 0 <= k <= |l| && cur == if k < |l| then l[k] else NO_ID
        invariant forall j :: 0 <= j < k ==> mapping[l[j]] == value
        invariant forall s :: 0 <= s < mapping.Length && s !in l ==> mapping[s] == old(mapping[s])
        decreases |l| - k
      {
        assert LinkAt(jump[..], l, k);
        mapping[cur] := value;
        cur := jump[cur];
        k := k + 1;
      }
    }
  }

  /** Whatever the unset arrays hold, only equivalent states are given the same number, the
      numbering is a congruence, and equivalent states are given the same number unless unset
      arrays tell them apart at some step. If no state is equivalent to another one without an
      edge set, or the arrays hold nothing, two states are given the same number exactly when no
      suffix distinguishes them. And with few labels, states on which no symbol leads anywhere
      are merged only if their arrays happen to look the same at some step. */
  method BuildMinimisedMapping(m: Fsm, labels: seq<Byte>, sed: array<nat>, hash: set<nat> -> nat,
                               nulls: set<nat>, junk: (nat, nat) -> set<Byte>)
    returns (mapping: array<nat>, count: nat)
    requires IsDfa(m) && NullsOf(m, nulls) && 0 < |m.states| < SMALL_EC_FLAG - 1
    requires ExactDistances(m, sed[..])
    requires forall s :: 0 <= s < |m.states| ==> UsedWithin(m, s, labels)
    ensures IsCongruentMapping(m, mapping[..], count) && 0 < count <= |m.states|
    ensures KeepsTogether(m, nulls, junk, mapping[..])
    ensures NullsStandAlone(m, nulls) || AllBlank(nulls, junk) ==> IsNerodeMapping(m, mapping[..], count)
    ensures 0 < |labels| < DFA_LABELS_THRESHOLD ==> MergedLookSame(m, nulls, junk, mapping[..])
  {
    ghost var dist := sed[..];
    var env := new MinEnv(m, labels, nulls, junk);
    env.PopulateInitialEcs(sed);
    env.SplitEcsByEndMetadata(hash, dist);
    env.RefineToFixpoint();
    env.Separating();
    mapping := new nat[|m.states|];
    count := Finish(env, mapping);
  }

  /** States without symbols that share a number looked the same at some step. */
  ghost predicate MergedLookSame(m: Fsm, nulls: set<nat>, junk: (nat, nat) -> set<Byte>, mapping: seq<nat>) {
    forall s, t | 0 <= s < |mapping| && 0 <= t < |mapping| && s != t && mapping[s] == mapping[t] ::
      NoSymbols(m, s) && NoSymbols(m, t) ==> SometimesSame(nulls, junk, s, t)
  }

  method Finish(env: MinEnv, mapping: array<nat>) returns (count: nat)
    requires env.Refining() && Congruent(env.fsm, env.stateEcs[..]) && env.AllLooked(|env.lists|)
    requires Separated(env.fsm, env.nulls, env.junk, env.stateEcs[..]) && AllLive(env.fsm) && NullsOf(env.fsm, env.nulls)
    requires mapping.Length == |env.fsm.states| && mapping !in {env.ecs, env.jump, env.stateEcs}
    modifies mapping
    ensures IsCongruentMapping(env.fsm, mapping[..], count) && 0 < count <= |env.fsm.states|
    ensures KeepsTogether(env.fsm, env.nulls, env.junk, mapping[..])
    ensures NullsStandAlone(env.fsm, env.nulls) || AllBlank(env.nulls, env.junk) ==> IsNerodeMapping(env.fsm, mapping[..], count)
    ensures 0 < |env.dfaLabels| < DFA_LABELS_THRESHOLD ==>
              MergedLookSame(env.fsm, env.nulls, env.junk, mapping[..])
  {
    assert Look(true);
    ghost var cls := env.stateEcs[..];
    count := env.MapStates(mapping);
    ClassMapIsCongruent(env.fsm, cls, env.lists, mapping[..]);
    SeparatedKeeps(env.fsm, env.nulls, env.junk, cls, mapping[..]);
    if NullsStandAlone(env.fsm, env.nulls) || AllBlank(env.nulls, env.junk) {
      TogetherIsNerode(env.fsm, env.nulls, env.junk, mapping[..], count);
    }
    if 0 < |env.dfaLabels| < DFA_LABELS_THRESHOLD {
      LookedLookSame(env, mapping[..]);
    }
  }

  lemma LookedLookSame(env: MinEnv, mapping: seq<nat>)
    requires env.Valid() && env.AllLooked(|env.lists|) && env.FewLabels() && env.dfaLabels != []
    requires |mapping| == |env.fsm.states| && forall s :: 0 <= s < |mapping| ==> mapping[s] == env.stateEcs[s]
    ensures MergedLookSame(env.fsm, env.nulls, env.junk, mapping)
  {
    var m, lists := env.fsm, env.lists;
    forall s, t | 0 <= s < |mapping| && 0 <= t < |mapping| && s != t && mapping[s] == mapping[t] &&
                  NoSymbols(m, s) && NoSymbols(m, t)
      ensures SometimesSame(env.nulls, env.junk, s, t)
    {
      ListOf(lists, |m.states|, env.stateEcs[..], s);
      ListOf(lists, |m.states|, env.stateEcs[..], t);
      var i := mapping[s];
      assert |lists[i]| > 1;
      assert env.Looked(i);
      ComparedSame(m, env.stateEcs[..], env.nulls, env.junk, lists[i], s, t);
    }
  }

  lemma ClassMapIsCongruent(m: Fsm, cls: seq<nat>, lists: seq<seq<nat>>, mapping: seq<nat>)
    requires 0 < |m.states| && Congruent(m, cls)
    requires IsPartition(lists, |m.states|) && Indexes(cls, lists)
    requires |mapping| == |m.states| && forall s :: 0 <= s < |mapping| ==> mapping[s] == cls[s]
    ensures IsCongruentMapping(m, mapping, |lists|) && 0 < |lists|
  {
    assert ExtendsTo(m, mapping, cls);
    forall s, t | 0 <= s < |mapping| && 0 <= t < |mapping| && mapping[s] == mapping[t]
      ensures Equivalent(m, s, t)
    {
      CongruentEquivalent(m, cls, s, t);
    }
    forall s | 0 <= s < |mapping|
      ensures mapping[s] < |lists|
    {
      ListOf(lists, |m.states|, cls, s);
    }
    forall k | 0 <= k < |lists|
      ensures k in mapping
    {
      assert lists[k][0] in lists[k];
      assert mapping[lists[k][0]] == k;
    }
    assert mapping[0] < |lists|;
  }

  lemma SeparatedKeeps(m: Fsm, nulls: set<nat>, junk: (nat, nat) -> set<Byte>, cls: seq<nat>, mapping: seq<nat>)
    requires Separated(m, nulls, junk, cls) && |mapping| == |m.states|
    requires forall s :: 0 <= s < |mapping| ==> mapping[s] == cls[s]
    ensures KeepsTogether(m, nulls, junk, mapping)
  {
  }
}
