/** The edge set of a state: an array of groups sorted by destination, grown, shifted and
merged in place. What it denotes is a set of `(symbol, destination)` pairs; every
operation is specified by what it does to that set. */
module EdgeSets {
  import opened Automata
  import opened Finite
  import opened Guard
  import PV = PermutationVector

  /** The labelled edges that the groups stand for. */
  function Edges(es: seq<Group>): (r: set<(Byte, nat)>) {
    set i, c | 0 <= i < |es| && c in es[i].symbols :: (c, es[i].to)
  }

  function Labelled(symbols: set<Byte>, to: nat): (r: set<(Byte, nat)>) {
    set c | c in symbols :: (c, to)
  }

  // ----- groups as values -----

  lemma EdgesConcat(a: seq<Group>, b: seq<Group>)
    ensures Edges(a + b) == Edges(a) + Edges(b)
  {
    forall e | e in Edges(b)
      ensures e in Edges(a + b)
    {
      var i, c :| 0 <= i < |b| && c in b[i].symbols && e == (c, b[i].to);
      assert (a + b)[|a| + i] == b[i];
    }
    forall e | e in Edges(a)
      ensures e in Edges(a + b)
    {
      var i, c :| 0 <= i < |a| && c in a[i].symbols && e == (c, a[i].to);
      assert (a + b)[i] == a[i];
    }
  }

  lemma EdgesOne(g: Group)
    ensures Edges([g]) == Labelled(g.symbols, g.to)
  {
    forall e | e in Labelled(g.symbols, g.to)
      ensures e in Edges([g])
    {
      assert [g][0] == g;
    }
  }

  lemma EdgesAround(a: seq<Group>, g: Group, b: seq<Group>)
    ensures Edges(a + [g] + b) == Edges(a) + Labelled(g.symbols, g.to) + Edges(b)
  {
    EdgesConcat(a + [g], b);
    EdgesConcat(a, [g]);
    EdgesOne(g);
  }

  lemma EdgesSplit(es: seq<Group>, i: nat)
    requires i < |es|
    ensures Edges(es) == Edges(es[..i]) + Labelled(es[i].symbols, es[i].to) + Edges(es[i + 1..])
  {
    assert es == es[..i] + [es[i]] + es[i + 1..];
    EdgesAround(es[..i], es[i], es[i + 1..]);
  }

  /** A new destination goes in at its place in the order. */
  lemma InsertGroup(es: seq<Group>, pos: nat, g: Group)
    requires Sorted(es) && pos <= |es|
    requires forall i :: 0 <= i < pos ==> es[i].to < g.to
    requires forall i :: pos <= i < |es| ==> g.to < es[i].to
    ensures Sorted(es[..pos] + [g] + es[pos..])
    ensures Edges(es[..pos] + [g] + es[pos..]) == Edges(es) + Labelled(g.symbols, g.to)
  {
    EdgesAround(es[..pos], g, es[pos..]);
    EdgesConcat(es[..pos], es[pos..]);
    assert es == es[..pos] + es[pos..];
  }

  /** More symbols for a destination that is already there. */
  lemma WidenGroup(es: seq<Group>, i: nat, symbols: set<Byte>)
    requires Sorted(es) && i < |es|
    ensures var es' := es[i := Group(es[i].symbols + symbols, es[i].to)];
            Sorted(es') && Edges(es') == Edges(es) + Labelled(symbols, es[i].to)
  {
    var es' := es[i := Group(es[i].symbols + symbols, es[i].to)];
    EdgesSplit(es, i);
    EdgesSplit(es', i);
    assert es'[..i] == es[..i] && es'[i + 1..] == es[i + 1..];
    assert Labelled(es'[i].symbols, es[i].to) == Labelled(es[i].symbols, es[i].to) + Labelled(symbols, es[i].to);
  }

  /** Dropping a group drops exactly the edges to its destination. */
  lemma DropGroup(es: seq<Group>, i: nat)
    requires Sorted(es) && i < |es|
    ensures Sorted(es[..i] + es[i + 1..])
    ensures Edges(es[..i] + es[i + 1..]) == set e | e in Edges(es) && e.1 != es[i].to
  {
    var rest := es[..i] + es[i + 1..];
    EdgesSplit(es, i);
    EdgesConcat(es[..i], es[i + 1..]);
    forall e | e in Edges(rest)
      ensures e.1 != es[i].to
    {
      var k, c :| 0 <= k < |rest| && c in rest[k].symbols && e == (c, rest[k].to);
      assert rest[k] == if k < i then es[k] else es[k + 1];
    }
  }

  lemma NoGroupNoEdge(es: seq<Group>, state: nat)
    requires forall i :: 0 <= i < |es| ==> es[i].to != state
    ensures forall c: Byte :: (c, state) !in Edges(es)
  {
  }

  /** Every group has a symbol. */
  ghost predicate Tidy(es: seq<Group>) {
    forall i :: 0 <= i < |es| ==> es[i].symbols != {}
  }

  /** A symbol leads to one place at most. */
  ghost predicate Functional(r: set<(Byte, nat)>) {
    forall c: Byte, t: nat, u: nat :: (c, t) in r && (c, u) in r ==> t == u
  }

  lemma FunctionalGroups(es: seq<Group>)
    requires Sorted(es)
    ensures Functional(Edges(es)) <==> Deterministic(es)
  {
    if !Deterministic(es) {
      var i, j :| 0 <= i < j < |es| && !(es[i].symbols !! es[j].symbols);
      var c :| c in es[i].symbols && c in es[j].symbols;
      assert (c, es[i].to) in Edges(es) && (c, es[j].to) in Edges(es);
    }
  }

  /** In a DFA, a step follows the one edge there is. */
  lemma StepFollows(m: Fsm, s: nat, c: Byte)
    requires IsDfa(m) && s < |m.states|
    ensures forall t: nat :: (c, t) in Edges(m.states[s].edges) <==> t == Step(m, s, c) && t < |m.states|
  {
    var es := m.states[s].edges;
    forall t: nat | (c, t) in Edges(es)
      ensures t == Step(m, s, c) && t < |m.states|
    {
      var i, d :| 0 <= i < |es| && d in es[i].symbols && (c, t) == (d, es[i].to);
      FindIndexUnique(es, c, i);
    }
  }

  /** The merge loop of `CopyInto`: `si` groups of the source are in `gs`, and the first `di`
      groups there are behind the next one. */
  ghost predicate Merging(gs: seq<Group>, es: seq<Group>, ss: seq<Group>, si: nat, di: nat) {
    && si <= |ss| && di <= |gs|
    && forall b {:trigger Look(b)} :: Look(b) ==>
         && Sorted(ss) && Edges(gs) == Edges(es) + Edges(ss[..si])
         && (si < |ss| ==> forall k :: 0 <= k < di ==> gs[k].to < ss[si].to)
  }

  lemma MergeBegins(es: seq<Group>, ss: seq<Group>)
    requires Sorted(ss)
    ensures Merging(es, es, ss, 0, 0)
  {
    assert ss[..0] == [];
  }

  lemma MergeEnds(gs: seq<Group>, es: seq<Group>, ss: seq<Group>, di: nat)
    requires Merging(gs, es, ss, |ss|, di)
    ensures Edges(gs) == Edges(es) + Edges(ss)
  {
    assert Look(true);
    assert ss[..|ss|] == ss;
  }

  lemma MergeBehind(gs: seq<Group>, es: seq<Group>, ss: seq<Group>, si: nat, di: nat)
    requires Merging(gs, es, ss, si, di) && si < |ss|
    ensures forall k :: 0 <= k < di ==> gs[k].to < ss[si].to
  {
    assert Look(true);
  }

  lemma MergeAdvance(gs: seq<Group>, es: seq<Group>, ss: seq<Group>, si: nat, di: nat)
    requires Merging(gs, es, ss, si, di) && si < |ss| && di < |gs| && gs[di].to < ss[si].to
    ensures Merging(gs, es, ss, si, di + 1)
  {
    assert Look(true);
  }

  lemma MergeMore(gs: seq<Group>, gs': seq<Group>, es: seq<Group>, ss: seq<Group>, si: nat, di: nat, di': nat)
    requires Merging(gs, es, ss, si, di) && si < |ss| && di <= di' <= |gs'| && di' <= di + 1
    requires Edges(gs') == Edges(gs) + Labelled(ss[si].symbols, ss[si].to)
    requires forall k :: 0 <= k < di ==> gs'[k].to < ss[si].to
    requires di < di' ==> gs'[di].to == ss[si].to
    ensures Merging(gs', es, ss, si + 1, di')
  {
    assert Look(true);
    assert ss[..si + 1] == ss[..si] + [ss[si]];
    EdgesConcat(ss[..si], [ss[si]]);
    EdgesOne(ss[si]);
    if si + 1 < |ss| {
      assert ss[si].to < ss[si + 1].to;
    }
  }

  class EdgeSet {
    var groups: array<Group>
    var count: nat

    ghost predicate Valid()
      reads this, groups
    {
      0 < groups.Length && count <= groups.Length && Sorted(groups[..count])
    }

    ghost function Contents(): seq<Group>
      requires count <= groups.Length
      reads this, groups
    {
      groups[..count]
    }

    constructor ()
      ensures Valid() && fresh(groups) && count == 0
    {
      groups := new Group[1];
      count := 0;
    }

    /** Binary search for the first group whose destination is not below `state`, with a
        shortcut for appending. */
    method FindStatePosition(state: nat) returns (found: bool, pos: nat)
      requires Valid()
      ensures pos <= count
      ensures found ==> pos < count && groups[pos].to == state
      ensures !found ==> (forall i :: 0 <= i < pos ==> groups[i].to < state) &&
                         (forall i :: pos <= i < count ==> state < groups[i].to)
    {
      ghost var es := Contents();
      assert forall i :: 0 <= i < count ==> es[i] == groups[i];
      if count == 0 {
        return false, 0;
      }
      var last := groups[count - 1].to;
      if state > last {
        return false, count;
      } else if state == last {
        return true, count - 1;
      }
      var lo, hi := 0, count;
      pos := 0;
      while lo < hi
        invariant 0 <= lo <= hi <= count
        invariant forall i :: 0 <= i < lo ==> groups[i].to < state
        invariant forall i :: hi <= i < count ==> state < groups[i].to
        invariant lo == hi ==> pos == lo
      {
        pos := lo + (hi - lo) / 2;
        var cur := groups[pos].to;
        if state == cur {
          return true, pos;
        } else if state > cur {
          lo := pos + 1;
          if lo == hi {
            pos := lo;
          }
        } else {
          hi := pos;
        }
      }
      return false, pos;
    }

    method GrowGroups()
      requires Valid()
      modifies this
      ensures Valid() && fresh(groups) && groups.Length == 2 * old(groups.Length)
      ensures count == old(count) && Contents() == old(Contents())
    {
      var ng := new Group[2 * groups.Length];
      forall i | 0 <= i < count {
        ng[i] := groups[i];
      }
      assert ng[..count] == groups[..count];
      groups := ng;
    }

    static method ShiftIn(a: array<Group>, n: nat, pos: nat, g: Group)
      requires pos <= n < a.Length
      modifies a
      ensures a[..n + 1] == old(a[..n])[..pos] + [g] + old(a[..n])[pos..]
    {
      forall i | pos <= i < n {
        a[i + 1] := a[i];
      }
      a[pos] := g;
    }

    /** Shift the groups from `pos` on by one and put `g` there, growing as needed. */
    method InsertAt(pos: nat, g: Group)
      requires Valid() && pos <= count
      requires forall i :: 0 <= i < pos ==> groups[i].to < g.to
      requires forall i :: pos <= i < count ==> g.to < groups[i].to
      modifies this, groups
      ensures Valid() && (groups == old(groups) || fresh(groups))
      ensures Contents() == old(Contents())[..pos] + [g] + old(Contents())[pos..]
      ensures Edges(Contents()) == old(Edges(Contents())) + Labelled(g.symbols, g.to)
    {
      ghost var es := Contents();
      InsertGroup(es, pos, g);
      if count == groups.Length {
        GrowGroups();
      }
      ShiftIn(groups, count, pos, g);
      count := count + 1;
    }

    /** Add edges to `state` on all of `symbols`. */
    method AddBulk(symbols: set<Byte>, state: nat)
      requires Valid()
      modifies this, groups
      ensures Valid() && (groups == old(groups) || fresh(groups))
      ensures Edges(Contents()) == old(Edges(Contents())) + Labelled(symbols, state)
      ensures forall n: nat :: state < n && EdgesWithin(old(Contents()), n) ==> EdgesWithin(Contents(), n)
      ensures symbols != {} && Tidy(old(Contents())) ==> Tidy(Contents())
    {
      var found, pos := FindStatePosition(state);
      ghost var es := Contents();
      if found {
        WidenGroup(Contents(), pos, symbols);
        groups[pos] := Group(groups[pos].symbols + symbols, groups[pos].to);
        assert Contents() == es[pos := groups[pos]];
      } else {
        InsertAt(pos, Group(symbols, state));
      }
    }

    /** Remove every edge on `symbol`; groups that become empty stay. */
    method Remove(symbol: Byte)
      requires Valid()
      modifies groups
      ensures Valid()
      ensures Edges(Contents()) == set e | e in old(Edges(Contents())) && e.0 != symbol
    {
      ghost var es := Contents();
      forall i | 0 <= i < count {
        groups[i] := Group(groups[i].symbols - {symbol}, groups[i].to);
      }
      ghost var es' := Contents();
      assert forall i :: 0 <= i < count ==> es'[i] == Group(es[i].symbols - {symbol}, es[i].to);
      RemoveSymbol(es, es', symbol);
    }

    /** Take the group at `i` out, moving the later ones down. */
    method RemoveAt(i: nat)
      requires Valid() && i < count
      modifies this`count, groups
      ensures Valid() && count == old(count) - 1
      ensures Contents() == old(Contents())[..i] + old(Contents())[i + 1..]
      ensures Edges(Contents()) == set e | e in old(Edges(Contents())) && e.1 != old(groups[i].to)
    {
      ghost var es := Contents();
      DropGroup(es, i);
      forall k | i <= k < count - 1 {
        groups[k] := groups[k + 1];
      }
      count := count - 1;
      assert Contents() == es[..i] + es[i + 1..];
    }

    /** Remove every edge to `state`. */
    method RemoveState(state: nat)
      requires Valid()
      modifies this`count, groups
      ensures Valid()
      ensures Edges(Contents()) == set e | e in old(Edges(Contents())) && e.1 != state
    {
      ghost var es := Contents();
      var i := 0;
      while i < count
        invariant Valid() && 0 <= i <= count
        invariant forall k :: 0 <= k < i ==> groups[k].to != state
        invariant forall e :: e in Edges(Contents()) ==> e in Edges(es)
        invariant forall e :: e in Edges(es) && e.1 != state ==> e in Edges(Contents())
        decreases count - i
      {
        if groups[i].to == state {
          RemoveAt(i);
        } else {
          i := i + 1;
        }
      }
      NoGroupNoEdge(Contents(), state);
      assert forall e :: e in Edges(Contents()) ==> e.1 != state;
    }

    /** Let every edge to `from` lead to `to` instead, merging with the edges already there. */
    method ReplaceState(from: nat, to: nat)
      requires Valid()
      modifies this, groups
      ensures Valid() && (groups == old(groups) || fresh(groups))
      ensures Edges(Contents()) == Redirected(old(Edges(Contents())), from, to)
    {
      ghost var es := Contents();
      var i := 0;
      while i < count && groups[i].to != from
        invariant 0 <= i <= count
        invariant forall k :: 0 <= k < i ==> groups[k].to != from
      {
        i := i + 1;
      }
      if i == count {
        NoGroupNoEdge(es, from);
        NothingRedirected(Edges(es), from, to);
        return;
      }
      EdgesTo(es, i);
      var copy := groups[i];
      var found, symbol := FirstLabel(copy.symbols);
      if !found {
        NothingRedirected(Edges(es), from, to);
        return;
      }
      RemoveAt(i);
      AddBulk({symbol}, to);
      WidenAt(copy.symbols, to, symbol);
      RedirectedAs(Edges(es), from, to, copy.symbols, symbol);
    }

    /** Find the group of `to`, which has an edge on `symbol`, and add symbols to it. */
    method WidenAt(symbols: set<Byte>, to: nat, ghost symbol: Byte)
      requires Valid() && (symbol, to) in Edges(Contents())
      modifies groups
      ensures Valid()
      ensures Edges(Contents()) == old(Edges(Contents())) + Labelled(symbols, to)
    {
      ghost var es := Contents();
      var i := 0;
      while i < count && groups[i].to != to
        invariant 0 <= i <= count
        invariant forall k :: 0 <= k < i ==> groups[k].to != to
      {
        i := i + 1;
      }
      if i == count {
        NoGroupNoEdge(es, to);
        assert false;
      }
      WidenGroup(es, i, symbols);
      groups[i] := Group(groups[i].symbols + symbols, groups[i].to);
      assert Contents() == es[i := groups[i]];
    }

    /** Merge the groups of `src` into this set, walking both in order. */
    method CopyInto(src: EdgeSet)
      requires Valid() && src.Valid() && src != this && src.groups != groups
      modifies this, groups
      ensures Valid() && (groups == old(groups) || fresh(groups))
      ensures Edges(Contents()) == old(Edges(Contents())) + Edges(src.Contents())
    {
      ghost var es, ss := Contents(), src.Contents();
      var si, di := 0, 0;
      MergeBegins(es, ss);
      while si < src.count
        invariant Valid() && Merging(Contents(), es, ss, si, di) && (groups == old(groups) || fresh(groups))
        invariant src.Valid() && src.Contents() == ss && src.groups != groups
        decreases 2 * (src.count - si) + (count - di)
      {
        var g := src.groups[si];
        assert g == ss[si];
        if di < count && groups[di].to < g.to {
          assert Contents()[di] == groups[di];
          MergeAdvance(Contents(), es, ss, si, di);
          di := di + 1;
        } else {
          var merged := MergeGroup(g, di, es, ss, si);
          si := si + 1;
          if merged {
            di := di + 1;
          }
        }
      }
      MergeEnds(Contents(), es, ss, di);
    }

    /** Bring `g` in at its place `di`; an empty group is skipped unless its destination is
        already there. */
    method PlaceGroup(g: Group, di: nat) returns (merged: bool)
      requires Valid() && di <= count
      requires forall k :: 0 <= k < di ==> groups[k].to < g.to
      requires di < count ==> g.to <= groups[di].to
      modifies this, groups
      ensures Valid() && (groups == old(groups) || fresh(groups)) && di <= count
      ensures Edges(Contents()) == old(Edges(Contents())) + Labelled(g.symbols, g.to)
      ensures forall k :: 0 <= k < di ==> groups[k].to < g.to
      ensures merged ==> di < count && groups[di].to == g.to && count <= old(count) + 1
      ensures !merged ==> count == old(count)
    {
      merged := true;
      if di < count && groups[di].to == g.to {
        WidenAtIndex(di, g.symbols);
      } else {
        merged := AddAt(g, di);
      }
    }

    /** Make a group for the first symbol of `g`, then add the other symbols to it. */
    method AddAt(g: Group, di: nat) returns (added: bool)
      requires Valid() && di <= count
      requires forall k :: 0 <= k < di ==> groups[k].to < g.to
      requires di < count ==> g.to < groups[di].to
      modifies this, groups
      ensures Valid() && (groups == old(groups) || fresh(groups)) && di <= count
      ensures Edges(Contents()) == old(Edges(Contents())) + Labelled(g.symbols, g.to)
      ensures forall k :: 0 <= k < di ==> groups[k].to < g.to
      ensures added ==> di < count && groups[di].to == g.to && count == old(count) + 1
      ensures !added ==> count == old(count)
    {
      ghost var es := Contents();
      assert forall k :: 0 <= k < count ==> es[k] == groups[k];
      var symbol;
      added, symbol := FirstLabel(g.symbols);
      if added {
        InsertAt(di, Group({symbol}, g.to));
        assert Contents()[di] == groups[di] && forall k :: 0 <= k < di ==> Contents()[k] == groups[k];
        WidenAtIndex(di, g.symbols);
      }
    }

    method MergeGroup(g: Group, di: nat, ghost es: seq<Group>, ghost ss: seq<Group>, ghost si: nat)
      returns (merged: bool)
      requires Valid() && Merging(Contents(), es, ss, si, di) && si < |ss| && g == ss[si]
      requires di < count ==> g.to <= groups[di].to
      modifies this, groups
      ensures Valid() && (groups == old(groups) || fresh(groups))
      ensures Merging(Contents(), es, ss, si + 1, if merged then di + 1 else di)
      ensures count - (if merged then di + 1 else di) <= old(count) - di
    {
      ghost var gs := Contents();
      MergeBehind(gs, es, ss, si, di);
      assert forall k :: 0 <= k < di ==> gs[k] == groups[k];
      merged := PlaceGroup(g, di);
      assert forall k :: 0 <= k < count ==> Contents()[k] == groups[k];
      MergeMore(gs, Contents(), es, ss, si, di, if merged then di + 1 else di);
    }

    method WidenAtIndex(i: nat, symbols: set<Byte>)
      requires Valid() && i < count
      modifies groups
      ensures Valid()
      ensures forall k :: 0 <= k < groups.Length ==> groups[k].to == old(groups[k].to)
      ensures Edges(Contents()) == old(Edges(Contents())) + Labelled(symbols, groups[i].to)
    {
      ghost var es := Contents();
      WidenGroup(es, i, symbols);
      groups[i] := Group(groups[i].symbols + symbols, groups[i].to);
      assert Contents() == es[i := groups[i]];
    }

    /** Is there no edge at all? */
    method IsEmpty() returns (empty: bool)
      requires Valid()
      ensures empty <==> Edges(Contents()) == {}
    {
      ghost var es := Contents();
      for i := 0 to count
        invariant forall k :: 0 <= k < i ==> es[k].symbols == {}
      {
        assert es[i] == groups[i];
        var found, symbol := FirstLabel(groups[i].symbols);
        if found {
          assert (symbol, es[i].to) in Edges(es);
          return false;
        }
      }
      return true;
    }

    /** Renumber the destinations, dropping those mapped to `NO_STATE` and merging those that
        meet. */
    method Compact(remap: nat -> nat)
      requires Valid() && forall t :: remap(t) <= NO_STATE
      modifies this
      ensures Valid() && (groups == old(groups) || fresh(groups))
      ensures Edges(Contents()) == Remapped(old(Edges(Contents())), remap)
      ensures if old(Edges(Contents())) == {} then Contents() == old(Contents()) else KeptAll(old(Contents()), remap, Contents())
    {
      var empty := IsEmpty();
      if empty {
        return;
      }
      var es := groups[..count];
      var slots, n := ComputeSlots(es, remap);
      var ng := Condense(es, remap, slots, n, groups.Length);
      groups, count := ng, n;
    }

    constructor FromGroups(gs: seq<Group>)
      requires Sorted(gs)
      ensures Valid() && fresh(groups) && Contents() == gs
    {
      var a := new Group[|gs| + 1](_ => Group({}, 0));
      for i := 0 to |gs|
        invariant forall k :: 0 <= k < i ==> a[k] == gs[k]
      {
        a[i] := gs[i];
      }
      groups, count := a, |gs|;
    }

    /** A copy of this set in memory of its own; a set without edges is copied as a new one. */
    method Copy() returns (dst: EdgeSet)
      requires Valid()
      ensures fresh(dst) && fresh(dst.groups) && dst.Valid()
      ensures Edges(dst.Contents()) == Edges(Contents())
      ensures dst.Contents() == if Edges(Contents()) == {} then [] else Contents()
    {
      var empty := IsEmpty();
      if empty {
        dst := new EdgeSet();
      } else {
        dst := new EdgeSet.FromGroups(groups[..count]);
      }
    }
  }

  /** The edge relation with `to` for `from`. */
  function Redirected(r: set<(Byte, nat)>, from: nat, to: nat): set<(Byte, nat)> {
    set e | e in r :: if e.1 == from then (e.0, to) else e
  }

  lemma NothingRedirected(r: set<(Byte, nat)>, from: nat, to: nat)
    requires forall c: Byte :: (c, from) !in r
    ensures Redirected(r, from, to) == r
  {
    forall e | e in r
      ensures e in Redirected(r, from, to)
    {
      assert e == (e.0, e.1);
    }
  }

  lemma RedirectedAs(r: set<(Byte, nat)>, from: nat, to: nat, symbols: set<Byte>, symbol: Byte)
    requires forall c: Byte :: (c, from) in r <==> c in symbols
    requires symbol in symbols
    ensures (set e | e in r && e.1 != from) + Labelled({symbol}, to) + Labelled(symbols, to) == Redirected(r, from, to)
  {
    var lhs := (set e | e in r && e.1 != from) + Labelled({symbol}, to) + Labelled(symbols, to);
    forall e | e in lhs
      ensures e in Redirected(r, from, to)
    {
      if e in Labelled(symbols, to) || e in Labelled({symbol}, to) {
        assert (e.0, from) in r;
      }
    }
    forall e | e in Redirected(r, from, to)
      ensures e in lhs
    {
      var d :| d in r && e == if d.1 == from then (d.0, to) else d;
      assert d == (d.0, d.1);
    }
  }

  lemma EdgesTo(es: seq<Group>, i: nat)
    requires Sorted(es) && i < |es|
    ensures forall c: Byte :: (c, es[i].to) in Edges(es) <==> c in es[i].symbols
  {
    forall c: Byte | (c, es[i].to) in Edges(es)
      ensures c in es[i].symbols
    {
      var k, d :| 0 <= k < |es| && d in es[k].symbols && (c, es[i].to) == (d, es[k].to);
      assert k == i;
    }
  }

  /** The lowest symbol of a group, if it has any. */
  method FirstLabel(symbols: set<Byte>) returns (found: bool, symbol: Byte)
    ensures found <==> symbols != {}
    ensures found ==> symbol in symbols && forall c :: c in symbols ==> symbol <= c
  {
    found, symbol := false, 0;
    for i := 0 to 256
      invariant forall c :: c in symbols ==> c >= i
    {
      if i in symbols {
        return true, i;
      }
    }
    assert forall c :: c in symbols ==> false;
  }

  lemma RemoveSymbol(es: seq<Group>, es': seq<Group>, symbol: Byte)
    requires Sorted(es) && |es'| == |es|
    requires forall i :: 0 <= i < |es| ==> es'[i] == Group(es[i].symbols - {symbol}, es[i].to)
    ensures Sorted(es')
    ensures Edges(es') == set e | e in Edges(es) && e.0 != symbol
  {
    forall e | e in Edges(es) && e.0 != symbol
      ensures e in Edges(es')
    {
      var i, c :| 0 <= i < |es| && c in es[i].symbols && e == (c, es[i].to);
      assert c in es'[i].symbols;
    }
    forall e | e in Edges(es')
      ensures e in Edges(es) && e.0 != symbol
    {
      var i, c :| 0 <= i < |es'| && c in es'[i].symbols && e == (c, es'[i].to);
      assert c in es[i].symbols;
    }
  }

  // ----- compaction: renumbering destinations -----

  const NO_STATE: nat := 0xFFFF_FFFF

  /** The relation after every destination `t` becomes `remap(t)`, or is dropped. */
  function Remapped(r: set<(Byte, nat)>, remap: nat -> nat): set<(Byte, nat)> {
    set e | e in r && remap(e.1) != NO_STATE :: (e.0, remap(e.1))
  }

  datatype ToInfo = ToInfo(oldTo: nat, newTo: nat, assignment: nat)

  ghost predicate SortedBy(s: seq<ToInfo>, key: ToInfo -> nat) {
    forall i, j :: 0 <= i < j < |s| ==> key(s[i]) <= key(s[j])
  }

  method InsertInfo(r: seq<ToInfo>, x: ToInfo, key: ToInfo -> nat) returns (r': seq<ToInfo>, ghost p: nat)
    requires SortedBy(r, key)
    ensures SortedBy(r', key) && p <= |r| && r' == r[..p] + [x] + r[p..]
  {
    var i := 0;
    while i < |r| && key(r[i]) <= key(x)
      invariant 0 <= i <= |r|
      invariant forall k :: 0 <= k < i ==> key(r[k]) <= key(x)
    {
      i := i + 1;
    }
    InsertSorted(r, i, x, key);
    r' := r[..i] + [x] + r[i..];
    p := i;
  }

  lemma InsertSorted(r: seq<ToInfo>, p: nat, x: ToInfo, key: ToInfo -> nat)
    requires SortedBy(r, key) && p <= |r| && (p < |r| ==> key(x) <= key(r[p]))
    requires forall k :: 0 <= k < p ==> key(r[k]) <= key(x)
    ensures SortedBy(r[..p] + [x] + r[p..], key)
  {
    var t := r[..p] + [x] + r[p..];
    assert forall k :: 0 <= k < |t| ==> t[k] == if k < p then r[k] else if k == p then x else r[k - 1];
    forall i, j | 0 <= i < j < |t|
      ensures key(t[i]) <= key(t[j])
    {
      if i < p {
        assert j < p ==> key(r[i]) <= key(r[j]);
        assert j > p ==> key(r[i]) <= key(r[j - 1]);
      } else if i == p {
        assert j - 1 > p ==> key(r[p]) <= key(r[j - 1]);
      } else {
        assert key(r[i - 1]) <= key(r[j - 1]);
      }
    }
  }

  /** A sorting routine, in the place of the C library's; `perm` says where entries came from. */
  method SortBy(s: seq<ToInfo>, key: ToInfo -> nat) returns (r: seq<ToInfo>, ghost perm: seq<nat>)
    ensures SortedBy(r, key) && Permuted(s, r, perm)
  {
    r, perm := [], [];
    for i := 0 to |s|
      invariant SortedBy(r, key) && Permuted(s[..i], r, perm)
    {
      ghost var p;
      var before := r;
      r, p := InsertInfo(r, s[i], key);
      PermutedInsert(s, i, before, perm, p);
      perm := perm[..p] + [i] + perm[p..];
    }
    assert s[..|s|] == s;
  }

  /** `r` lists the entries of `s` in the order `perm`. */
  ghost predicate Permuted(s: seq<ToInfo>, r: seq<ToInfo>, perm: seq<nat>) {
    && |r| == |s| == |perm| && IsPermutation(perm)
    && (forall i :: 0 <= i < |r| ==> r[i] == s[perm[i]])
  }

  lemma PermutedInsert(s: seq<ToInfo>, i: nat, r: seq<ToInfo>, perm: seq<nat>, p: nat)
    requires i < |s| && Permuted(s[..i], r, perm) && p <= |r|
    ensures Permuted(s[..i + 1], r[..p] + [s[i]] + r[p..], perm[..p] + [i] + perm[p..])
  {
    var q := perm[..p] + [i] + perm[p..];
    assert forall k :: 0 <= k < |q| ==> q[k] == if k < p then perm[k] else if k == p then i else perm[k - 1];
  }

  function NewTo(x: ToInfo): nat { x.newTo }

  function OldTo(x: ToInfo): nat { x.oldTo }

  /** The first `n` entries are numbered in steps: a new number for each new destination. */
  ghost predicate InSteps(r: seq<ToInfo>, n: nat) {
    && 0 < n <= |r| && r[0].assignment == 0
    && (forall k :: 0 < k < n ==> StepAt(r, k))
  }

  ghost predicate StepAt(r: seq<ToInfo>, k: nat)
    requires 0 < k < |r|
  {
    && r[k - 1].newTo <= r[k].newTo
    && r[k].assignment == r[k - 1].assignment + if r[k].newTo == r[k - 1].newTo then 0 else 1
  }

  lemma {:induction false} StepsOrder(r: seq<ToInfo>, n: nat, i: nat, j: nat)
    requires InSteps(r, n) && i <= j < n
    ensures r[i].newTo <= r[j].newTo && r[i].assignment <= r[j].assignment
    ensures r[i].newTo == r[j].newTo <==> r[i].assignment == r[j].assignment
    decreases j - i
  {
    if i < j {
      StepsOrder(r, n, i, j - 1);
      assert StepAt(r, j);
    }
  }

  lemma {:induction false} StepsCover(r: seq<ToInfo>, n: nat, k: nat) returns (p: nat)
    requires InSteps(r, n) && k <= r[n - 1].assignment
    ensures p < n && r[p].assignment == k
    decreases n
  {
    if n == 1 || r[n - 1].assignment == k {
      p := n - 1;
    } else {
      assert StepAt(r, n - 1);
      p := StepsCover(r, n - 1, k);
    }
  }

  lemma RestDropped(info: seq<ToInfo>, live: nat)
    requires SortedBy(info, NewTo) && live <= |info|
    requires forall i :: 0 <= i < |info| ==> info[i].newTo <= NO_STATE
    requires live < |info| ==> info[live].newTo == NO_STATE
    ensures forall k :: live <= k < |info| ==> info[k].newTo == NO_STATE
  {
    forall k | live <= k < |info|
      ensures info[k].newTo == NO_STATE
    {
      assert live < k ==> NewTo(info[live]) <= NewTo(info[k]);
    }
  }

  /** Number the distinct new destinations in ascending order. Entries to be dropped come last
      and get no number; the first entry is numbered 0 in any case. */
  method AssignSlots(info: seq<ToInfo>) returns (r: seq<ToInfo>, n: nat, ghost live: nat)
    requires info != [] && SortedBy(info, NewTo)
    requires forall i :: 0 <= i < |info| ==> info[i].newTo <= NO_STATE
    ensures |r| == |info| && forall i :: 0 <= i < |r| ==> r[i].oldTo == info[i].oldTo && r[i].newTo == info[i].newTo
    ensures live <= |r| && 0 < n <= |r|
    ensures if live == 0 then n == 1 else InSteps(r, live) && n == r[live - 1].assignment + 1
    ensures forall k :: 0 <= k < live ==> r[k].newTo != NO_STATE
    ensures forall k :: live <= k < |r| ==> r[k].newTo == NO_STATE
  {
    r, n := info[0 := info[0].(assignment := 0)], 1;
    var i := 1;
    while i < |r| && info[i].newTo != NO_STATE
      invariant 1 <= i <= |r| == |info|
      invariant forall k :: 0 <= k < |r| ==> r[k].oldTo == info[k].oldTo && r[k].newTo == info[k].newTo
      invariant InSteps(r, i) && n == r[i - 1].assignment + 1 <= i
      invariant i > 1 ==> forall k :: 0 <= k < i ==> r[k].newTo != NO_STATE
    {
      assert NewTo(info[i - 1]) <= NewTo(info[i]) && NewTo(info[0]) <= NewTo(info[i]);
      ghost var before := r;
      if r[i].newTo == r[i - 1].newTo {
        r := r[i := r[i].(assignment := r[i - 1].assignment)];
      } else {
        r := r[i := r[i].(assignment := r[i - 1].assignment + 1)];
        n := n + 1;
      }
      StepsFrame(before, r, i);
      i := i + 1;
    }
    live := if i == 1 && info[0].newTo == NO_STATE then 0 else i;
    RestDropped(info, live);
  }

  lemma StepsFrame(before: seq<ToInfo>, after: seq<ToInfo>, i: nat)
    requires InSteps(before, i) && i <= |after| && after[..i] == before[..i]
    ensures InSteps(after, i)
  {
    assert forall k :: 0 <= k < i ==> after[..i][k] == after[k] && before[..i][k] == before[k];
    forall k | 0 < k < i
      ensures StepAt(after, k)
    {
      assert StepAt(before, k);
    }
  }

  /** A slot for every kept group, ordered like the new destinations; all slots are used, but
      for the one slot that remains when nothing is kept. */
  ghost predicate SlotsFor(es: seq<Group>, remap: nat -> nat, slots: seq<nat>, n: nat) {
    && |slots| == |es|
    && (forall i :: 0 <= i < |es| && remap(es[i].to) != NO_STATE ==> slots[i] < n)
    && (forall i, j :: 0 <= i < |es| && 0 <= j < |es| && remap(es[i].to) != NO_STATE && remap(es[j].to) != NO_STATE ==>
          (remap(es[i].to) < remap(es[j].to) <==> slots[i] < slots[j]))
    && (n == 1 || forall k: nat :: k < n ==> SlotUsed(es, remap, slots, k))
  }

  ghost predicate SlotUsed(es: seq<Group>, remap: nat -> nat, slots: seq<nat>, k: nat) {
    exists i :: 0 <= i < |es| && i < |slots| && remap(es[i].to) != NO_STATE && slots[i] == k
  }

  /** First half of compaction: sort by new destination, number, and sort back. */
  method ComputeSlots(es: seq<Group>, remap: nat -> nat) returns (slots: seq<nat>, n: nat)
    requires es != [] && Sorted(es) && forall t :: remap(t) <= NO_STATE
    ensures SlotsFor(es, remap, slots, n) && 0 < n <= |es|
  {
    var numbered;
    ghost var info, p, live;
    numbered, n, info, p, live := NumberByNewTo(es, remap);
    var byOld;
    ghost var q;
    byOld, q := SortBy(numbered, OldTo);
    slots := seq(|byOld|, i requires 0 <= i < |byOld| => byOld[i].assignment);
    SortedBack(es, remap, info, p, numbered, q, byOld);
    SlotsRight(es, remap, numbered, q, byOld, slots, n, live);
  }

  method NumberByNewTo(es: seq<Group>, remap: nat -> nat)
    returns (numbered: seq<ToInfo>, n: nat, ghost info: seq<ToInfo>, ghost p: seq<nat>, ghost live: nat)
    requires es != [] && Sorted(es) && forall t :: remap(t) <= NO_STATE
    ensures |info| == |es| && forall i :: 0 <= i < |es| ==> info[i] == ToInfo(es[i].to, remap(es[i].to), 0)
    ensures |numbered| == |p| == |es| && IsPermutation(p)
    ensures forall i :: 0 <= i < |es| ==> numbered[i].oldTo == info[p[i]].oldTo && numbered[i].newTo == info[p[i]].newTo
    ensures live <= |es| && 0 < n <= |es|
    ensures if live == 0 then n == 1 else InSteps(numbered, live) && n == numbered[live - 1].assignment + 1
    ensures forall k :: 0 <= k < live ==> numbered[k].newTo != NO_STATE
    ensures forall k :: live <= k < |numbered| ==> numbered[k].newTo == NO_STATE
  {
    var infos := seq(|es|, i requires 0 <= i < |es| => ToInfo(es[i].to, remap(es[i].to), 0));
    info := infos;
    var byNew;
    byNew, p := SortBy(infos, NewTo);
    numbered, n, live := AssignSlots(byNew);
  }

  /** The second sort restores the order of the groups. */
  lemma SortedBack(es: seq<Group>, remap: nat -> nat, info: seq<ToInfo>, p: seq<nat>, numbered: seq<ToInfo>,
                   q: seq<nat>, byOld: seq<ToInfo>)
    requires Sorted(es) && |info| == |es|
    requires forall i :: 0 <= i < |es| ==> info[i] == ToInfo(es[i].to, remap(es[i].to), 0)
    requires |numbered| == |p| == |es| && IsPermutation(p)
    requires forall i :: 0 <= i < |es| ==> numbered[i].oldTo == info[p[i]].oldTo && numbered[i].newTo == info[p[i]].newTo
    requires Permuted(numbered, byOld, q) && SortedBy(byOld, OldTo)
    ensures forall i :: 0 <= i < |es| ==> byOld[i].oldTo == es[i].to && byOld[i].newTo == remap(es[i].to)
  {
    var f := seq(|es|, i requires 0 <= i < |es| => p[q[i]]);
    forall i, j | 0 <= i < j < |es|
      ensures f[i] < f[j]
    {
      assert OldTo(byOld[i]) <= OldTo(byOld[j]);
      assert q[i] != q[j] && p[q[i]] != p[q[j]];
      assert byOld[i].oldTo == es[f[i]].to && byOld[j].oldTo == es[f[j]].to;
    }
    forall i | 0 <= i < |es|
      ensures byOld[i].oldTo == es[i].to && byOld[i].newTo == remap(es[i].to)
    {
      PV.IncreasingLow(f, i);
      PV.IncreasingHigh(f, i);
      assert f[i] == i && byOld[i] == numbered[q[i]];
    }
  }

  lemma SlotsRight(es: seq<Group>, remap: nat -> nat, numbered: seq<ToInfo>, q: seq<nat>, byOld: seq<ToInfo>,
                   slots: seq<nat>, n: nat, live: nat)
    requires |numbered| == |es| && live <= |es| && Permuted(numbered, byOld, q)
    requires forall i :: 0 <= i < |es| ==> byOld[i].newTo == remap(es[i].to)
    requires |slots| == |es| && forall i :: 0 <= i < |es| ==> slots[i] == byOld[i].assignment
    requires if live == 0 then n == 1 else InSteps(numbered, live) && n == numbered[live - 1].assignment + 1
    requires forall k :: 0 <= k < live ==> numbered[k].newTo != NO_STATE
    requires forall k :: live <= k < |numbered| ==> numbered[k].newTo == NO_STATE
    ensures SlotsFor(es, remap, slots, n)
  {
    forall i | 0 <= i < |es| && remap(es[i].to) != NO_STATE
      ensures q[i] < live && slots[i] < n
    {
      assert numbered[q[i]].newTo != NO_STATE;
      StepsOrder(numbered, live, q[i], live - 1);
    }
    forall i, j | 0 <= i < |es| && 0 <= j < |es| && remap(es[i].to) != NO_STATE && remap(es[j].to) != NO_STATE
      ensures remap(es[i].to) < remap(es[j].to) <==> slots[i] < slots[j]
    {
      if q[i] <= q[j] {
        StepsOrder(numbered, live, q[i], q[j]);
      } else {
        StepsOrder(numbered, live, q[j], q[i]);
      }
    }
    if live > 0 {
      forall k: nat | k < n
        ensures SlotUsed(es, remap, slots, k)
      {
        var x := StepsCover(numbered, live, k);
        PermutationOnto(q, x);
        var i :| 0 <= i < |q| && q[i] == x;
      }
    }
  }

  /** Second half of compaction, in progress: the first `i` groups are in their slots. */
  ghost predicate Condensing(es: seq<Group>, remap: nat -> nat, slots: seq<nat>, n: nat, ng: seq<Group>, i: nat) {
    && SlotsFor(es, remap, slots, n) && n <= |ng| && i <= |es|
    && (forall j :: 0 <= j < i && remap(es[j].to) != NO_STATE ==>
          ng[slots[j]].to == remap(es[j].to) && es[j].symbols <= ng[slots[j]].symbols)
    && (forall k, c :: 0 <= k < n && c in ng[k].symbols ==> FromGroup(es, remap, slots, i, k, c))
  }

  ghost predicate FromGroup(es: seq<Group>, remap: nat -> nat, slots: seq<nat>, i: nat, k: nat, c: Byte) {
    exists j :: 0 <= j < i && j < |es| && j < |slots| && remap(es[j].to) != NO_STATE && slots[j] == k && c in es[j].symbols
  }

  lemma CondenseOne(es: seq<Group>, remap: nat -> nat, slots: seq<nat>, n: nat, ng: seq<Group>, i: nat)
    requires Condensing(es, remap, slots, n, ng, i) && i < |es|
    ensures remap(es[i].to) == NO_STATE ==> Condensing(es, remap, slots, n, ng, i + 1)
    ensures remap(es[i].to) != NO_STATE ==>
              var k := slots[i];
              k < n && Condensing(es, remap, slots, n, ng[k := Group(ng[k].symbols + es[i].symbols, remap(es[i].to))], i + 1)
  {
    var keep := remap(es[i].to) != NO_STATE;
    var ng' := if keep then ng[slots[i] := Group(ng[slots[i]].symbols + es[i].symbols, remap(es[i].to))] else ng;
    forall k, c | 0 <= k < n && c in ng'[k].symbols
      ensures FromGroup(es, remap, slots, i + 1, k, c)
    {
      if c in ng[k].symbols {
        assert FromGroup(es, remap, slots, i, k, c);
        var j :| 0 <= j < i && remap(es[j].to) != NO_STATE && slots[j] == k && c in es[j].symbols;
      }
    }
  }

  lemma CondensedEdges(es: seq<Group>, remap: nat -> nat, slots: seq<nat>, n: nat, ng: seq<Group>)
    requires Condensing(es, remap, slots, n, ng, |es|) && n > 0
    ensures Sorted(ng[..n])
    ensures Edges(ng[..n]) == Remapped(Edges(es), remap)
  {
    forall k, l | 0 <= k < l < n
      ensures ng[k].to < ng[l].to
    {
      assert SlotUsed(es, remap, slots, k) && SlotUsed(es, remap, slots, l);
      var i :| 0 <= i < |es| && remap(es[i].to) != NO_STATE && slots[i] == k;
      var j :| 0 <= j < |es| && remap(es[j].to) != NO_STATE && slots[j] == l;
    }
    forall e | e in Edges(ng[..n])
      ensures e in Remapped(Edges(es), remap)
    {
      var k, c :| 0 <= k < n && c in ng[..n][k].symbols && e == (c, ng[..n][k].to);
      assert FromGroup(es, remap, slots, |es|, k, c);
      var j :| 0 <= j < |es| && remap(es[j].to) != NO_STATE && slots[j] == k && c in es[j].symbols;
      assert (c, es[j].to) in Edges(es);
    }
    forall e | e in Remapped(Edges(es), remap)
      ensures e in Edges(ng[..n])
    {
      var d :| d in Edges(es) && remap(d.1) != NO_STATE && e == (d.0, remap(d.1));
      var j, c :| 0 <= j < |es| && c in es[j].symbols && d == (c, es[j].to);
      assert ng[..n][slots[j]] == ng[slots[j]];
    }
  }

  /** Compaction makes up no destinations. */
  ghost predicate KeptAll(es: seq<Group>, remap: nat -> nat, ng: seq<Group>) {
    forall k :: 0 <= k < |ng| ==> KeptTo(es, remap, ng[k].to)
  }

  ghost predicate KeptTo(es: seq<Group>, remap: nat -> nat, t: nat) {
    t == 0 || exists j :: 0 <= j < |es| && remap(es[j].to) == t != NO_STATE
  }

  /** Put every kept group into its slot, joining the symbols of groups that meet. */
  method Condense(es: seq<Group>, remap: nat -> nat, slots: seq<nat>, n: nat, ceil: nat) returns (ng: array<Group>)
    requires SlotsFor(es, remap, slots, n) && 0 < n <= |es| <= ceil
    ensures fresh(ng) && ng.Length == ceil
    ensures Sorted(ng[..n]) && Edges(ng[..n]) == Remapped(Edges(es), remap)
    ensures KeptAll(es, remap, ng[..n])
  {
    ng := new Group[ceil](_ => Group({}, 0));
    for i := 0 to |es|
      invariant Condensing(es, remap, slots, n, ng[..], i)
      invariant KeptAll(es, remap, ng[..])
    {
      CondenseOne(es, remap, slots, n, ng[..], i);
      if remap(es[i].to) != NO_STATE {
        ng[slots[i]] := Group(ng[slots[i]].symbols + es[i].symbols, remap(es[i].to));
      }
    }
    CondensedEdges(es, remap, slots, n, ng[..]);
  }

  // ----- every sequence of operations -----

  datatype Op =
    | Add(symbol: Byte, state: nat)
    | AddBulk(symbols: set<Byte>, state: nat)
    | Remove(symbol: Byte)
    | RemoveState(state: nat)
    | ReplaceState(from: nat, to: nat)
    | Compact(remap: nat -> nat)
    | Copy
    | CopyFrom(gs: seq<Group>)

  ghost predicate ValidOp(op: Op) {
    match op
    case Compact(remap) => forall t :: remap(t) <= NO_STATE
    case CopyFrom(gs) => Sorted(gs)
    case _ => true
  }

  /** The naive model: what each operation does to a plain set of edges. */
  function Apply(op: Op, r: set<(Byte, nat)>): set<(Byte, nat)> {
    match op
    case Add(c, t) => r + {(c, t)}
    case AddBulk(cs, t) => r + Labelled(cs, t)
    case Remove(c) => set e | e in r && e.0 != c
    case RemoveState(t) => set e | e in r && e.1 != t
    case ReplaceState(from, to) => Redirected(r, from, to)
    case Compact(remap) => Remapped(r, remap)
    case Copy => r
    case CopyFrom(gs) => r + Edges(gs)
  }

  function ApplyAll(ops: seq<Op>, r: set<(Byte, nat)>): set<(Byte, nat)> {
    if ops == [] then r else Apply(ops[|ops| - 1], ApplyAll(ops[..|ops| - 1], r))
  }

  method RunOp(es: EdgeSet, op: Op) returns (r: EdgeSet)
    requires es.Valid() && ValidOp(op)
    modifies es, es.groups
    ensures r.Valid() && (r == es || fresh(r)) && (r.groups == old(es.groups) || fresh(r.groups))
    ensures Edges(r.Contents()) == Apply(op, old(Edges(es.Contents())))
  {
    r := es;
    match op
    case Add(c, t) =>
      assert Labelled({c}, t) == {(c, t)};
      es.AddBulk({c}, t);
    case AddBulk(cs, t) => es.AddBulk(cs, t);
    case Remove(c) => es.Remove(c);
    case RemoveState(t) => es.RemoveState(t);
    case ReplaceState(from, to) => es.ReplaceState(from, to);
    case Compact(remap) => es.Compact(remap);
    case Copy => r := es.Copy();
    case CopyFrom(gs) => CopyGroupsInto(es, gs);
  }

  method CopyGroupsInto(es: EdgeSet, gs: seq<Group>)
    requires es.Valid() && Sorted(gs)
    modifies es, es.groups
    ensures es.Valid() && (es.groups == old(es.groups) || fresh(es.groups))
    ensures Edges(es.Contents()) == old(Edges(es.Contents())) + Edges(gs)
  {
    var src := new EdgeSet.FromGroups(gs);
    es.CopyInto(src);
  }

  /** After every sequence of operations the groups are sorted without duplicates and denote
      exactly the edges of the naive model. */
  method RunOps(ops: seq<Op>) returns (es: EdgeSet)
    requires forall i :: 0 <= i < |ops| ==> ValidOp(ops[i])
    ensures es.Valid() && Edges(es.Contents()) == ApplyAll(ops, {})
  {
    es := new EdgeSet();
    for i := 0 to |ops|
      invariant fresh(es) && fresh(es.groups) && es.Valid()
      invariant Edges(es.Contents()) == ApplyAll(ops[..i], {})
    {
      assert ops[..i + 1][..i] == ops[..i];
      es := RunOp(es, ops[i]);
    }
    assert ops[..|ops|] == ops;
  }

  // ----- iterating over groups -----

  datatype GroupInfo = GroupInfo(symbols: set<Byte>, to: nat, unique: bool)

  /** What one group yields: first its symbols that occur nowhere else, then the rest. */
  function GroupYields(g: Group, shared: set<Byte>): seq<GroupInfo> {
    (if g.symbols - shared != {} then [GroupInfo(g.symbols - shared, g.to, true)] else []) + SharedYield(g, shared)
  }

  function SharedYield(g: Group, shared: set<Byte>): seq<GroupInfo> {
    if g.symbols * shared != {} then [GroupInfo(g.symbols * shared, g.to, false)] else []
  }

  /** What the groups from index `i` on yield. */
  function Yields(es: seq<Group>, shared: set<Byte>, i: nat): seq<GroupInfo>
    requires i <= |es|
    decreases |es| - i
  {
    if i == |es| then [] else GroupYields(es[i], shared) + Yields(es, shared, i + 1)
  }

  ghost predicate OccursTwice(es: seq<Group>, c: Byte) {
    exists i, j :: 0 <= i < j < |es| && c in es[i].symbols && c in es[j].symbols
  }

  /** The iterator in its mode that separates unique symbols from shared ones. */
  class UniqueGroupIter {
    const es: seq<Group>
    const shared: set<Byte>
    var i: nat
    var nonUniqueNext: bool

    ghost predicate Valid()
      reads this
    {
      i <= |es| && (nonUniqueNext ==> i < |es|)
    }

    /** What is still to come. */
    ghost function Rest(): seq<GroupInfo>
      requires Valid()
      reads this
    {
      if nonUniqueNext then SharedYield(es[i], shared) + Yields(es, shared, i + 1) else Yields(es, shared, i)
    }

    constructor (gs: seq<Group>)
      ensures Valid() && es == gs && Rest() == Yields(gs, shared, 0)
      ensures forall c: Byte :: c in shared <==> OccursTwice(gs, c)
    {
      es := gs;
      var twice := SharedSymbols(gs);
      shared := twice;
      i, nonUniqueNext := 0, false;
    }

    /** Look at the unique half of the current group, or at its shared half, which ends it. */
    method Advance() returns (found: bool, info: GroupInfo)
      requires Valid() && i < |es|
      modifies this
      ensures Valid()
      ensures if found then old(Rest()) == [info] + Rest() else old(Rest()) == Rest()
      ensures i > old(i) || (i == old(i) && nonUniqueNext && !old(nonUniqueNext))
    {
      var g := es[i];
      ghost var tail := Yields(es, shared, i + 1);
      if nonUniqueNext {
        SharedNext(g, shared, tail);
        nonUniqueNext := false;
        i := i + 1;
        info := GroupInfo(g.symbols * shared, g.to, false);
      } else {
        UniqueFirst(g, shared, tail);
        nonUniqueNext := true;
        info := GroupInfo(g.symbols - shared, g.to, true);
      }
      found := info.symbols != {};
    }

    method Next() returns (more: bool, info: GroupInfo)
      requires Valid()
      modifies this
      ensures Valid()
      ensures more <==> old(Rest()) != []
      ensures more ==> old(Rest()) == [info] + Rest()
    {
      info := GroupInfo({}, 0, false);
      more := false;
      while i < |es| && !more
        invariant Valid()
        invariant if more then old(Rest()) == [info] + Rest() else old(Rest()) == Rest()
        decreases |es| - i, !nonUniqueNext
      {
        more, info := Advance();
      }
    }
  }

  lemma UniqueFirst(g: Group, shared: set<Byte>, tail: seq<GroupInfo>)
    ensures var rest := SharedYield(g, shared) + tail;
            GroupYields(g, shared) + tail ==
            if g.symbols - shared != {} then [GroupInfo(g.symbols - shared, g.to, true)] + rest else rest
  {
    if g.symbols - shared != {} {
      var one := [GroupInfo(g.symbols - shared, g.to, true)];
      assert (one + SharedYield(g, shared)) + tail == one + (SharedYield(g, shared) + tail);
    } else {
      assert [] + SharedYield(g, shared) == SharedYield(g, shared);
    }
  }

  lemma SharedNext(g: Group, shared: set<Byte>, tail: seq<GroupInfo>)
    ensures SharedYield(g, shared) + tail ==
            if g.symbols * shared != {} then [GroupInfo(g.symbols * shared, g.to, false)] + tail else tail
  {
    assert [] + tail == tail;
  }

  /** `y` says of some symbols of one group, correctly, whether they are shared. */
  ghost predicate YieldOf(es: seq<Group>, i: nat, shared: set<Byte>, y: GroupInfo) {
    && y.symbols != {}
    && (exists j :: i <= j < |es| && GroupAt(es, j, y))
    && (forall c :: c in y.symbols ==> (y.unique <==> c !in shared))
  }

  ghost predicate GroupAt(es: seq<Group>, j: nat, y: GroupInfo)
    requires j < |es|
  {
    es[j].to == y.to && y.symbols <= es[j].symbols
  }

  ghost predicate Yielded(ys: seq<GroupInfo>, c: Byte, t: nat) {
    exists k :: 0 <= k < |ys| && ys[k].to == t && c in ys[k].symbols
  }

  /** No edge is yielded twice. */
  ghost predicate YieldsApart(ys: seq<GroupInfo>) {
    forall k, l :: 0 <= k < l < |ys| && ys[k].to == ys[l].to ==> ys[k].symbols !! ys[l].symbols
  }

  lemma YieldedConcat(xs: seq<GroupInfo>, ys: seq<GroupInfo>, c: Byte, t: nat)
    ensures Yielded(xs, c, t) || Yielded(ys, c, t) ==> Yielded(xs + ys, c, t)
  {
    if Yielded(xs, c, t) {
      var k :| 0 <= k < |xs| && xs[k].to == t && c in xs[k].symbols;
      assert (xs + ys)[k] == xs[k];
    }
    if Yielded(ys, c, t) {
      var k :| 0 <= k < |ys| && ys[k].to == t && c in ys[k].symbols;
      assert (xs + ys)[|xs| + k] == ys[k];
    }
  }

  lemma YieldsApartConcat(xs: seq<GroupInfo>, ys: seq<GroupInfo>)
    requires YieldsApart(xs) && YieldsApart(ys)
    requires forall k, l :: 0 <= k < |xs| && 0 <= l < |ys| ==> xs[k].to < ys[l].to
    ensures YieldsApart(xs + ys)
  {
    var zs := xs + ys;
    forall k, l | 0 <= k < l < |zs| && zs[k].to == zs[l].to
      ensures zs[k].symbols !! zs[l].symbols
    {
      if l < |xs| {
        assert zs[k] == xs[k] && zs[l] == xs[l];
      } else if k >= |xs| {
        assert zs[k] == ys[k - |xs|] && zs[l] == ys[l - |xs|];
      }
    }
  }

  /** `ys` holds every edge of the groups from `i` on exactly once, flagged correctly. */
  ghost predicate YieldedExactly(es: seq<Group>, shared: set<Byte>, i: nat, ys: seq<GroupInfo>) {
    forall b {:trigger Look(b)} :: Look(b) ==>
      && (forall k :: 0 <= k < |ys| ==> YieldOf(es, i, shared, ys[k]))
      && YieldsApart(ys)
      && (forall j, c :: i <= j < |es| && c in es[j].symbols ==> Yielded(ys, c, es[j].to))
  }

  lemma PrependGroup(es: seq<Group>, shared: set<Byte>, i: nat, gy: seq<GroupInfo>, tail: seq<GroupInfo>)
    requires Sorted(es) && i < |es|
    requires YieldedExactly(es, shared, i + 1, tail)
    requires forall k :: 0 <= k < |gy| ==> gy[k].to == es[i].to && YieldOf(es, i, shared, gy[k])
    requires YieldsApart(gy)
    requires forall c :: c in es[i].symbols ==> Yielded(gy, c, es[i].to)
    ensures YieldedExactly(es, shared, i, gy + tail)
  {
    assert Look(true);
    forall k | 0 <= k < |tail|
      ensures YieldOf(es, i, shared, tail[k]) && es[i].to < tail[k].to
    {
      assert YieldOf(es, i + 1, shared, tail[k]);
    }
    YieldsApartConcat(gy, tail);
    forall j, c | i <= j < |es| && c in es[j].symbols
      ensures Yielded(gy + tail, c, es[j].to)
    {
      YieldedConcat(gy, tail, c, es[j].to);
    }
  }

  lemma NothingYielded(es: seq<Group>, shared: set<Byte>)
    ensures YieldedExactly(es, shared, |es|, [])
  {
  }

  lemma GroupYieldsExact(es: seq<Group>, shared: set<Byte>, i: nat, tail: seq<GroupInfo>)
    requires Sorted(es) && i < |es| && YieldedExactly(es, shared, i + 1, tail)
    ensures YieldedExactly(es, shared, i, GroupYields(es[i], shared) + tail)
  {
    var g, gy := es[i], GroupYields(es[i], shared);
    forall k | 0 <= k < |gy|
      ensures gy[k].to == g.to && YieldOf(es, i, shared, gy[k])
    {
      assert GroupAt(es, i, gy[k]);
    }
    forall c | c in g.symbols
      ensures Yielded(gy, c, g.to)
    {
      var k := if c in shared then |gy| - 1 else 0;
      assert c in (if c in shared then g.symbols * shared else g.symbols - shared);
      assert c in gy[k].symbols;
    }
    PrependGroup(es, shared, i, gy, tail);
  }

  /** The iteration yields every edge exactly once, and says of it correctly whether its
      symbol occurs in one group only. */
  lemma {:induction false} YieldsExact(es: seq<Group>, shared: set<Byte>, i: nat) returns (ys: seq<GroupInfo>)
    requires Sorted(es) && i <= |es|
    ensures ys == Yields(es, shared, i) && YieldedExactly(es, shared, i, ys)
    decreases |es| - i
  {
    if i < |es| {
      var tail := YieldsExact(es, shared, i + 1);
      GroupYieldsExact(es, shared, i, tail);
      ys := GroupYields(es[i], shared) + tail;
    } else {
      NothingYielded(es, shared);
      ys := [];
    }
  }

  /** A deterministic state shares no symbols. */
  lemma DeterministicShares(es: seq<Group>, c: Byte)
    requires Deterministic(es)
    ensures !OccursTwice(es, c)
  {
  }

  /** Without shared symbols the groups with symbols are yielded whole, in order. */
  lemma {:induction false} UnsharedYields(es: seq<Group>, i: nat, j: nat)
    requires i <= j <= |es| && forall k :: i <= k < j ==> es[k].symbols == {}
    ensures j == |es| ==> Yields(es, {}, i) == []
    ensures j < |es| && es[j].symbols != {} ==>
              Yields(es, {}, i) == [GroupInfo(es[j].symbols, es[j].to, true)] + Yields(es, {}, j + 1)
    decreases j - i
  {
    if i < j {
      UnsharedYields(es, i + 1, j);
      assert es[i].symbols - {} == {} && es[i].symbols * {} == {};
      assert GroupYields(es[i], {}) == [];
    } else if j < |es| {
      assert es[j].symbols - {} == es[j].symbols && es[j].symbols * {} == {};
    }
  }

  /** For a deterministic state, the iteration that separates shared symbols yields the groups with
      symbols as they are: the next one after index `i` is the first that has any. */
  lemma DeterministicYields(es: seq<Group>, shared: set<Byte>, i: nat, j: nat)
    requires Deterministic(es) && forall c: Byte :: c in shared <==> OccursTwice(es, c)
    requires i <= j <= |es| && forall k :: i <= k < j ==> es[k].symbols == {}
    ensures j == |es| ==> Yields(es, shared, i) == []
    ensures j < |es| && es[j].symbols != {} ==>
              Yields(es, shared, i) == [GroupInfo(es[j].symbols, es[j].to, true)] + Yields(es, shared, j + 1)
  {
    forall c: Byte
      ensures c !in shared
    {
      DeterministicShares(es, c);
    }
    assert shared == {};
    UnsharedYields(es, i, j);
  }

  /** The symbols that occur in more than one group. */
  method SharedSymbols(es: seq<Group>) returns (shared: set<Byte>)
    ensures forall c: Byte :: c in shared <==> OccursTwice(es, c)
  {
    shared := {};
    var seen: set<Byte> := {};
    for i := 0 to |es|
      invariant forall c: Byte :: c in seen <==> exists k :: 0 <= k < i && c in es[k].symbols
      invariant forall c: Byte :: c in shared <==> OccursTwice(es[..i], c)
    {
      SharedStep(es, i, seen, shared);
      shared := shared + es[i].symbols * seen;
      seen := seen + es[i].symbols;
    }
    assert es[..|es|] == es;
  }

  lemma SharedStep(es: seq<Group>, i: nat, seen: set<Byte>, shared: set<Byte>)
    requires i < |es|
    requires forall c: Byte :: c in seen <==> exists k :: 0 <= k < i && c in es[k].symbols
    requires forall c: Byte :: c in shared <==> OccursTwice(es[..i], c)
    ensures forall c: Byte :: c in shared + es[i].symbols * seen <==> OccursTwice(es[..i + 1], c)
  {
    forall c: Byte
      ensures c in shared + es[i].symbols * seen <==> OccursTwice(es[..i + 1], c)
    {
      var t := es[..i + 1];
      assert t[i] == es[i] && forall k :: 0 <= k < i ==> t[k] == es[k] && es[..i][k] == es[k];
      if c in shared {
        var j, k :| 0 <= j < k < i && c in es[..i][j].symbols && c in es[..i][k].symbols;
        assert c in t[j].symbols && c in t[k].symbols;
      } else if c in es[i].symbols * seen {
        var k :| 0 <= k < i && c in es[k].symbols;
        assert c in t[k].symbols && c in t[i].symbols;
      }
      if OccursTwice(t, c) {
        var j, k :| 0 <= j < k < |t| && c in t[j].symbols && c in t[k].symbols;
        if k < i {
          assert c in es[..i][j].symbols && c in es[..i][k].symbols;
        }
      }
    }
  }
}
