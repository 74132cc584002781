/** The reference minimiser: table filling over all pairs of states, after Hopcroft and
Ullman, with the dead state as an extra row. */
module Oracle {
  import opened Automata
  import opened Refinement
  import opened Classes

  /** Is the pair marked? Only the half of the table below the diagonal is used. */
  function Check(table: array2<bool>, i: nat, j: nat): bool
    requires i < table.Length0 && j < table.Length1 && table.Length0 == table.Length1
    reads table
  {
    if i >= j then table[i, j] else table[j, i]
  }

  ghost function UnmarkedPairs(table: array2<bool>): set<(nat, nat)>
    reads table
  {
    set i, j | 0 <= i < table.Length0 && 0 <= j < table.Length1 && !table[i, j] :: (i, j)
  }

  ghost predicate TableShape(m: Fsm, table: array2<bool>)
    reads table
  {
    && IsDfa(m)
    && table.Length0 == table.Length1 == |m.states| + 1
    && (forall i :: 0 <= i < table.Length0 ==> !table[i, i])
  }

  /** Every mark is justified by some input. */
  ghost predicate Sound(m: Fsm, table: array2<bool>)
    requires table.Length0 == table.Length1
    reads table
  {
    forall i: nat, j: nat {:trigger Differ(m, i, j)} :: j < i < table.Length0 && table[i, j] ==> Differ(m, i, j)
  }

  ghost predicate Differ(m: Fsm, i: nat, j: nat) {
    !Equivalent(m, i, j)
  }

  /** Every pair that differs at once is marked. */
  ghost predicate Seeded(m: Fsm, table: array2<bool>)
    requires table.Length0 == table.Length1
    reads table
  {
    forall i: nat, j: nat {:trigger Alike(m, i, j)} :: j < i < table.Length0 && !table[i, j] ==> Alike(m, i, j)
  }

  ghost predicate Alike(m: Fsm, i: nat, j: nat) {
    Observe(m, i) == Observe(m, j)
  }

  /** Following `c` from this unmarked pair reaches an unmarked pair. */
  ghost predicate ClosedAt(m: Fsm, table: array2<bool>, i: nat, j: nat, c: Byte)
    requires TableShape(m, table)
    requires i < table.Length0 && j < table.Length1
    reads table
  {
    !Check(table, Step(m, i, c), Step(m, j, c))
  }

  ghost predicate Closed(m: Fsm, table: array2<bool>, i: nat, j: nat)
    requires TableShape(m, table)
    requires i < table.Length0 && j < table.Length1
    reads table
  {
    forall c: Byte :: ClosedAt(m, table, i, j, c)
  }

  ghost predicate AllClosed(m: Fsm, table: array2<bool>)
    requires TableShape(m, table)
    reads table
  {
    forall i: nat, j: nat {:trigger Closed(m, table, i, j)} ::
      j < i < table.Length0 && !table[i, j] ==> Closed(m, table, i, j)
  }

  /** At the fixpoint, unmarked pairs look alike for ever. */
  lemma {:induction false} UnmarkedRun(m: Fsm, table: array2<bool>, i: nat, j: nat, w: seq<Byte>)
    requires TableShape(m, table) && Seeded(m, table)
    requires AllClosed(m, table)
    requires i < table.Length0 && j < table.Length1 && !Check(table, i, j)
    ensures Observe(m, Run(m, i, w)) == Observe(m, Run(m, j, w))
    decreases |w|
  {
    var a, b := if i > j then i else j, if i > j then j else i;
    if w == [] {
      assert Alike(m, a, b);
    } else if i != j {
      assert Closed(m, table, a, b);
      assert ClosedAt(m, table, a, b, w[0]);
      UnmarkedRun(m, table, Step(m, i, w[0]), Step(m, j, w[0]), w[1..]);
    }
  }

  lemma UnmarkedEquivalent(m: Fsm, table: array2<bool>, i: nat, j: nat)
    requires TableShape(m, table) && Seeded(m, table)
    requires AllClosed(m, table)
    requires j < i < table.Length0 && !table[i, j]
    ensures Equivalent(m, i, j)
  {
    forall w: seq<Byte>
      ensures Observe(m, Run(m, i, w)) == Observe(m, Run(m, j, w))
    {
      UnmarkedRun(m, table, i, j, w);
    }
  }

  // ----- seeding the table -----

  /** The group whose leader carries exactly `ids`, or the number of groups. */
  method FindGroup(m: Fsm, leaders: seq<nat>, ids: set<nat>) returns (g: nat)
    requires |leaders| >= 1 && forall h :: 0 < h < |leaders| ==> leaders[h] < |m.states|
    ensures 1 <= g <= |leaders|
    ensures g < |leaders| ==> m.states[leaders[g]].endIds == ids
    ensures g == |leaders| ==> forall h :: 0 < h < |leaders| ==> m.states[leaders[h]].endIds != ids
  {
    g := 1;
    while g < |leaders|
      invariant 1 <= g <= |leaders|
      invariant forall h :: 0 < h < g ==> m.states[leaders[h]].endIds != ids
    {
      if m.states[leaders[g]].endIds == ids {
        return;
      }
      g := g + 1;
    }
  }

  /** `groups` numbers the first `i` end states by their IDs; `leaders` are examples. */
  ghost predicate Grouping(m: Fsm, leaders: seq<nat>, groups: seq<nat>, i: nat) {
    && i <= |m.states| == |groups| && |leaders| >= 1
    && (forall g :: 0 < g < |leaders| ==> leaders[g] < |m.states| && m.states[leaders[g]].endIds != {})
    && (forall g, h :: 0 < g < h < |leaders| ==> m.states[leaders[g]].endIds != m.states[leaders[h]].endIds)
    && (forall k :: 0 <= k < i && m.states[k].end ==> GroupedAs(m, leaders, groups[k], k))
  }

  ghost predicate GroupedAs(m: Fsm, leaders: seq<nat>, g: nat, k: nat) {
    && k < |m.states| && g < |leaders|
    && if g == 0 then m.states[k].endIds == {}
       else leaders[g] < |m.states| && m.states[k].endIds == m.states[leaders[g]].endIds
  }

  lemma GroupOne(m: Fsm, leaders: seq<nat>, groups: seq<nat>, i: nat, g: nat)
    requires Grouping(m, leaders, groups, i) && i < |m.states| && g <= |leaders|
    requires g == 0 ==> m.states[i].end ==> m.states[i].endIds == {}
    requires 0 < g < |leaders| ==> m.states[leaders[g]].endIds == m.states[i].endIds
    requires g == |leaders| ==> m.states[i].endIds != {} &&
                                forall h :: 0 < h < |leaders| ==> m.states[leaders[h]].endIds != m.states[i].endIds
    ensures Grouping(m, if g == |leaders| then leaders + [i] else leaders, groups[i := g], i + 1)
  {
    var leaders', groups' := if g == |leaders| then leaders + [i] else leaders, groups[i := g];
    forall k | 0 <= k < i + 1 && m.states[k].end
      ensures GroupedAs(m, leaders', groups'[k], k)
    {
      assert k < i ==> GroupedAs(m, leaders, groups[k], k);
    }
  }

  /** Group the end states by their end IDs; group 0 is for the empty set. */
  method GroupByEndIds(m: Fsm) returns (groups: array<nat>)
    ensures fresh(groups) && groups.Length == |m.states|
    ensures SameGroups(m, groups[..])
  {
    groups := new nat[|m.states|](_ => 0);
    var leaders: seq<nat> := [0];
    for i := 0 to |m.states|
      invariant Grouping(m, leaders, groups[..], i)
    {
      var g := 0;
      if m.states[i].end && m.states[i].endIds != {} {
        g := FindGroup(m, leaders, m.states[i].endIds);
      }
      GroupOne(m, leaders, groups[..], i, g);
      groups[i] := g;
      if g == |leaders| {
        leaders := leaders + [i];
      }
    }
    GroupingSame(m, leaders, groups[..]);
  }

  /** End states share a group exactly when they share their IDs. */
  ghost predicate SameGroups(m: Fsm, groups: seq<nat>) {
    && |groups| == |m.states|
    && forall i, j :: 0 <= i < |m.states| && 0 <= j < |m.states| && m.states[i].end && m.states[j].end ==>
         (groups[i] == groups[j] <==> m.states[i].endIds == m.states[j].endIds)
  }

  lemma GroupingSame(m: Fsm, leaders: seq<nat>, groups: seq<nat>)
    requires Grouping(m, leaders, groups, |m.states|)
    ensures SameGroups(m, groups)
  {
    forall i, j | 0 <= i < |m.states| && 0 <= j < |m.states| && m.states[i].end && m.states[j].end
      ensures groups[i] == groups[j] <==> m.states[i].endIds == m.states[j].endIds
    {
      assert GroupedAs(m, leaders, groups[i], i) && GroupedAs(m, leaders, groups[j], j);
    }
  }

  predicate EndOf(m: Fsm, s: nat) {
    s < |m.states| && m.states[s].end
  }

  /** Mark end states against all others, the dead state included. */
  method SeedEnds(m: Fsm, table: array2<bool>)
    requires table.Length0 == table.Length1 == |m.states| + 1
    requires forall i, j :: 0 <= i < table.Length0 && 0 <= j < table.Length1 ==> !table[i, j]
    modifies table
    ensures forall a, b :: 0 <= a < table.Length0 && 0 <= b < table.Length1 ==>
              (table[a, b] <==> b < a && EndOf(m, a) != EndOf(m, b))
  {
    var n := |m.states|;
    for i := 0 to n + 1
      invariant forall a, b :: 0 <= a <= n && 0 <= b <= n ==>
                  (table[a, b] <==> b < a < i && EndOf(m, a) != EndOf(m, b))
    {
      for j := 0 to i
        invariant forall a, b :: 0 <= a <= n && 0 <= b <= n ==>
                    (table[a, b] <==> b < a && (a < i || (a == i && b < j)) && EndOf(m, a) != EndOf(m, b))
      {
        if EndOf(m, i) != EndOf(m, j) {
          table[i, j] := true;
        }
      }
    }
  }

  /** Mark end states that carry different end IDs. */
  method SeedEndIds(m: Fsm, table: array2<bool>, groups: array<nat>)
    requires table.Length0 == table.Length1 == |m.states| + 1
    requires SameGroups(m, groups[..])
    requires forall a, b :: 0 <= a < table.Length0 && 0 <= b < table.Length1 ==>
               (table[a, b] <==> b < a && EndOf(m, a) != EndOf(m, b))
    modifies table
    ensures forall a, b :: 0 <= a < table.Length0 && 0 <= b < table.Length1 ==>
              (table[a, b] <==> b < a && Observe(m, a) != Observe(m, b))
  {
    var n := |m.states|;
    for i := 0 to n
      invariant forall a, b :: 0 <= a <= n && 0 <= b <= n ==>
                  (table[a, b] <==> b < a && (EndOf(m, a) != EndOf(m, b) || (a < i && Observe(m, a) != Observe(m, b))))
    {
      if m.states[i].end {
        for j := 0 to i
          invariant forall a, b :: 0 <= a <= n && 0 <= b <= n ==>
                      (table[a, b] <==> b < a && (EndOf(m, a) != EndOf(m, b) ||
                                                  ((a < i || (a == i && b < j)) && Observe(m, a) != Observe(m, b))))
        {
          assert groups[i] == groups[..][i] && groups[j] == groups[..][j];
          if m.states[j].end && groups[i] != groups[j] {
            table[i, j] := true;
          }
        }
      }
    }
  }

  // ----- filling the table -----

  /** Look for a symbol that leads the pair to a marked pair. */
  method FindMarkedStep(m: Fsm, table: array2<bool>, i: nat, j: nat) returns (found: bool)
    requires TableShape(m, table) && Sound(m, table) && j < i < table.Length0
    ensures found ==> !Equivalent(m, i, j)
    ensures !found ==> Closed(m, table, i, j)
  {
    found := false;
    for c := 0 to 256
      invariant forall d: Byte :: d < c ==> ClosedAt(m, table, i, j, d)
    {
      var toI, toJ := Step(m, i, c), Step(m, j, c);
      var marked := if toI >= toJ then table[toI, toJ] else table[toJ, toI];
      if marked {
        MarkedStep(m, table, i, j, c);
        return true;
      }
      assert ClosedAt(m, table, i, j, c);
    }
  }

  lemma MarkedStep(m: Fsm, table: array2<bool>, i: nat, j: nat, c: Byte)
    requires TableShape(m, table) && Sound(m, table) && i < table.Length0 && j < table.Length0
    requires Check(table, Step(m, i, c), Step(m, j, c))
    ensures !Equivalent(m, i, j)
  {
    var a, b := Step(m, i, c), Step(m, j, c);
    assert Differ(m, a, b) || Differ(m, b, a);
    if Equivalent(m, i, j) {
      EquivalentStep(m, i, j, c);
      EquivalentSym(m, a, b);
    }
  }

  lemma EquivalentSym(m: Fsm, s: nat, t: nat)
    requires Equivalent(m, s, t)
    ensures Equivalent(m, t, s)
  {
  }

  /** One pass over all pairs. */
  method FillPass(m: Fsm, table: array2<bool>) returns (changed: bool)
    requires TableShape(m, table) && Sound(m, table) && Seeded(m, table)
    modifies table
    ensures TableShape(m, table) && Sound(m, table) && Seeded(m, table)
    ensures changed ==> UnmarkedPairs(table) < old(UnmarkedPairs(table))
    ensures !changed ==> UnmarkedPairs(table) == old(UnmarkedPairs(table)) && AllClosed(m, table)
  {
    changed := false;
    for i := 0 to table.Length0
      invariant TableShape(m, table) && Sound(m, table) && Seeded(m, table)
      invariant changed ==> UnmarkedPairs(table) < old(UnmarkedPairs(table))
      invariant !changed ==> UnmarkedPairs(table) == old(UnmarkedPairs(table))
      invariant !changed ==> ClosedBelow(m, table, i)
    {
      ghost var before := UnmarkedPairs(table);
      var rowChanged := FillRow(m, table, i);
      changed := changed || rowChanged;
    }
  }

  ghost predicate ClosedBelow(m: Fsm, table: array2<bool>, n: nat)
    requires TableShape(m, table) && n <= table.Length0
    reads table
  {
    forall i: nat, j: nat {:trigger Closed(m, table, i, j)} :: j < i < n && !table[i, j] ==> Closed(m, table, i, j)
  }

  method FillRow(m: Fsm, table: array2<bool>, i: nat) returns (changed: bool)
    requires TableShape(m, table) && Sound(m, table) && Seeded(m, table) && i < table.Length0
    modifies table
    ensures TableShape(m, table) && Sound(m, table) && Seeded(m, table)
    ensures changed ==> UnmarkedPairs(table) < old(UnmarkedPairs(table))
    ensures !changed ==> UnmarkedPairs(table) == old(UnmarkedPairs(table))
    ensures !changed && old(ClosedBelow(m, table, i)) ==> ClosedBelow(m, table, i + 1)
  {
    changed := false;
    for j := 0 to i
      invariant TableShape(m, table) && Sound(m, table) && Seeded(m, table)
      invariant changed ==> UnmarkedPairs(table) < old(UnmarkedPairs(table))
      invariant !changed ==> UnmarkedPairs(table) == old(UnmarkedPairs(table))
      invariant !changed && old(ClosedBelow(m, table, i)) ==> ClosedBelow(m, table, i)
      invariant !changed ==> forall b: nat {:trigger Closed(m, table, i, b)} ::
                               b < j && !table[i, b] ==> Closed(m, table, i, b)
    {
      if !table[i, j] {
        var found := FindMarkedStep(m, table, i, j);
        if found {
          Mark(m, table, i, j);
          changed := true;
        }
      }
    }
  }

  method Mark(m: Fsm, table: array2<bool>, i: nat, j: nat)
    requires TableShape(m, table) && Sound(m, table) && Seeded(m, table)
    requires j < i < table.Length0 && !table[i, j] && !Equivalent(m, i, j)
    modifies table
    ensures TableShape(m, table) && Sound(m, table) && Seeded(m, table)
    ensures UnmarkedPairs(table) < old(UnmarkedPairs(table))
  {
    ghost var before := UnmarkedPairs(table);
    assert (i, j) in before;
    table[i, j] := true;
    assert UnmarkedPairs(table) == before - {(i, j)};
  }

  /** The table at its fixpoint marks exactly the pairs that some input tells apart. */
  method FillTable(m: Fsm) returns (table: array2<bool>)
    requires IsDfa(m)
    ensures fresh(table) && table.Length0 == table.Length1 == |m.states| + 1
    ensures forall i, j :: 0 <= j < i < table.Length0 ==> (table[i, j] <==> !Equivalent(m, i, j))
  {
    table := new bool[|m.states| + 1, |m.states| + 1]((_, _) => false);
    SeedEnds(m, table);
    var groups := GroupByEndIds(m);
    SeedEndIds(m, table, groups);
    SeedIsSound(m, table);
    var changed := FillPass(m, table);
    while changed
      invariant fresh(table) && TableShape(m, table) && Sound(m, table) && Seeded(m, table)
      invariant !changed ==> AllClosed(m, table)
      decreases UnmarkedPairs(table), changed
    {
      changed := FillPass(m, table);
    }
    FixpointExact(m, table);
  }

  lemma SeedIsSound(m: Fsm, table: array2<bool>)
    requires table.Length0 == table.Length1
    requires forall a, b :: 0 <= a < table.Length0 && 0 <= b < table.Length1 ==>
               (table[a, b] <==> b < a && Observe(m, a) != Observe(m, b))
    ensures Sound(m, table) && Seeded(m, table)
  {
    forall i: nat, j: nat | j < i < table.Length0 && table[i, j]
      ensures Differ(m, i, j)
    {
      if Equivalent(m, i, j) {
        EquivalentObserve(m, i, j);
      }
    }
  }

  lemma FixpointExact(m: Fsm, table: array2<bool>)
    requires TableShape(m, table) && Sound(m, table) && Seeded(m, table) && AllClosed(m, table)
    ensures forall i, j :: 0 <= j < i < table.Length0 ==> (table[i, j] <==> !Equivalent(m, i, j))
  {
    forall i, j | 0 <= j < i < table.Length0
      ensures table[i, j] <==> !Equivalent(m, i, j)
    {
      if table[i, j] {
        assert Differ(m, i, j);
      } else {
        UnmarkedEquivalent(m, table, i, j);
      }
    }
  }

  // ----- reading the mapping off the table -----

  /** For each state, the last earlier state it cannot be told apart from, or `NO_ID`. */
  method MergeTargets(m: Fsm, table: array2<bool>) returns (earlier: array<nat>)
    requires |m.states| < NO_ID && table.Length0 == table.Length1 == |m.states| + 1
    requires forall i, j :: 0 <= j < i < table.Length0 ==> (table[i, j] <==> !Equivalent(m, i, j))
    ensures fresh(earlier) && earlier.Length == |m.states|
    ensures forall i :: 0 <= i < |m.states| ==> MergedInto(m, i, earlier[i])
  {
    earlier := new nat[|m.states|](_ => NO_ID);
    for i := 0 to |m.states|
      invariant forall k :: 0 <= k < i ==> MergedInto(m, k, earlier[k])
      invariant forall k :: i <= k < |m.states| ==> earlier[k] == NO_ID
    {
      for j := 0 to i
        invariant forall k :: 0 <= k < i ==> MergedInto(m, k, earlier[k])
        invariant forall k :: i < k < |m.states| ==> earlier[k] == NO_ID
        invariant earlier[i] == NO_ID ==> forall b :: 0 <= b < j ==> table[i, b]
        invariant earlier[i] != NO_ID ==> earlier[i] < j && !table[i, earlier[i]]
      {
        if !table[i, j] {
          earlier[i] := j;
        }
      }
      assert MergedInto(m, i, earlier[i]);
    }
  }

  ghost predicate MergedInto(m: Fsm, i: nat, j: nat) {
    if j == NO_ID then forall b :: 0 <= b < i ==> !Equivalent(m, i, b)
    else j < i && Equivalent(m, i, j)
  }

  /** The first `i` states are numbered, `count` numbers are in use. */
  ghost predicate Numbered(m: Fsm, mapping: seq<nat>, i: nat, count: nat) {
    && i <= |mapping|
    && (forall s, t :: 0 <= s < i && 0 <= t < i ==> (mapping[s] == mapping[t] <==> Equivalent(m, s, t)))
    && (forall s :: 0 <= s < i ==> mapping[s] < count)
    && (forall k :: 0 <= k < count ==> k in mapping[..i])
  }

  lemma NumberOne(m: Fsm, mapping: seq<nat>, i: nat, count: nat, j: nat)
    requires Numbered(m, mapping, i, count) && i < |mapping| && i < NO_ID && MergedInto(m, i, j)
    ensures j == NO_ID ==> Numbered(m, mapping[i := count], i + 1, count + 1)
    ensures j != NO_ID ==> j < i && Numbered(m, mapping[i := mapping[j]], i + 1, count)
  {
    var mapping' := if j == NO_ID then mapping[i := count] else mapping[i := mapping[j]];
    assert mapping'[..i + 1] == mapping[..i] + [mapping'[i]];
    forall s | 0 <= s < i
      ensures mapping'[s] == mapping'[i] <==> Equivalent(m, s, i)
      ensures Equivalent(m, s, i) <==> Equivalent(m, i, s)
    {
      if Equivalent(m, s, i) {
        EquivalentSym(m, s, i);
      }
      if j != NO_ID && Equivalent(m, s, j) {
        EquivalentTrans(m, i, j, s);
      }
      if j != NO_ID && Equivalent(m, s, i) {
        EquivalentTrans(m, s, i, j);
      }
    }
    assert Equivalent(m, i, i);
  }

  lemma EquivalentTrans(m: Fsm, s: nat, t: nat, u: nat)
    requires Equivalent(m, s, t) && (Equivalent(m, t, u) || Equivalent(m, u, t))
    ensures Equivalent(m, s, u) && Equivalent(m, u, s)
  {
  }

  /** For every DFA, trimmed or not, the reference algorithm numbers the equivalence classes. */
  method MinimiseTestOracle(m: Fsm) returns (mapping: array<nat>, count: nat)
    requires IsDfa(m) && |m.states| < NO_ID
    ensures IsNerodeMapping(m, mapping[..], count)
  {
    var table := FillTable(m);
    var earlier := MergeTargets(m, table);
    mapping, count := NumberStates(m, earlier);
  }

  method NumberStates(m: Fsm, earlier: array<nat>) returns (mapping: array<nat>, count: nat)
    requires |m.states| < NO_ID && earlier.Length == |m.states|
    requires forall i :: 0 <= i < |m.states| ==> MergedInto(m, i, earlier[i])
    ensures IsNerodeMapping(m, mapping[..], count)
  {
    mapping := new nat[|m.states|];
    count := 0;
    for i := 0 to |m.states|
      invariant forall k :: 0 <= k < |m.states| ==> MergedInto(m, k, earlier[k])
      invariant Numbered(m, mapping[..], i, count)
    {
      NumberOne(m, mapping[..], i, count, earlier[i]);
      if earlier[i] != NO_ID {
        mapping[i] := mapping[earlier[i]];
      } else {
        mapping[i] := count;
        count := count + 1;
      }
    }
    assert mapping[..][..mapping.Length] == mapping[..];
  }
}
