/** Analysing where a set of NFA states leads: for every label the set of targets, grouped into
entries of labels that lead to the same set. Analyses of single states are cached, and those of
larger sets are put together pairwise, with the results of pairs cached as well. */
module Analysis {
  import opened Automata
  import opened Finite
  import opened Guard
  import opened SortDedup
  import opened EdgeSets

  /** All states that `c` leads to from states of `x`. */
  ghost function TargetsOf(m: Fsm, x: set<nat>, c: Byte): set<nat> {
    set s, t | s in x && s < |m.states| && t in Targets(m.states[s].edges, c) :: t
  }

  lemma TargetsUnion(m: Fsm, x: set<nat>, y: set<nat>, c: Byte)
    ensures TargetsOf(m, x + y, c) == TargetsOf(m, x, c) + TargetsOf(m, y, c)
  {
  }

  lemma TargetsSingle(m: Fsm, s: nat, c: Byte)
    requires s < |m.states|
    ensures TargetsOf(m, {s}, c) == Targets(m.states[s].edges, c)
  {
  }

  // ----- results -----

  /** Labels that all lead to one set of states, stored in a shared buffer. */
  datatype Entry = Entry(labels: set<Byte>, offset: nat, count: nat)

  function ToSet(buf: seq<nat>, e: Entry): (l: seq<nat>) {
    if e.offset + e.count <= |buf| then buf[e.offset..e.offset + e.count] else []
  }

  /** `l` lists the targets of `c` from `x`. */
  ghost predicate Hits(m: Fsm, x: set<nat>, c: Byte, l: seq<nat>) {
    forall t :: t in l <==> t in TargetsOf(m, x, c)
  }

  ghost predicate ListOk(m: Fsm, x: set<nat>, labels: set<Byte>, l: seq<nat>) {
    labels != {} && l != [] && Ascending(l) && forall c :: c in labels ==> Hits(m, x, c, l)
  }

  ghost predicate EntryOk(m: Fsm, buf: seq<nat>, e: Entry, x: set<nat>) {
    e.offset + e.count <= |buf| && ListOk(m, x, e.labels, ToSet(buf, e))
  }

  function LabelsOf(es: seq<Entry>): (r: set<Byte>) {
    set i, c | 0 <= i < |es| && c in es[i].labels :: c
  }

  ghost predicate LabelsDisjoint(es: seq<Entry>) {
    forall i, j :: 0 <= i < j < |es| ==> es[i].labels !! es[j].labels
  }

  /** Entries for some of the labels. */
  ghost predicate EntriesOk(m: Fsm, buf: seq<nat>, es: seq<Entry>, x: set<nat>) {
    LabelsDisjoint(es) && forall i :: 0 <= i < |es| ==> EntryOk(m, buf, es[i], x)
  }

  /** Entries for all labels that lead anywhere. */
  ghost predicate ResultOk(m: Fsm, buf: seq<nat>, es: seq<Entry>, x: set<nat>) {
    EntriesOk(m, buf, es, x) && forall c: Byte :: TargetsOf(m, x, c) != {} ==> c in LabelsOf(es)
  }

  lemma LabelsMore(es: seq<Entry>, e: Entry)
    ensures LabelsOf(es + [e]) == LabelsOf(es) + e.labels
  {
    var r := es + [e];
    forall c | c in LabelsOf(es)
      ensures c in LabelsOf(r)
    {
      var i :| 0 <= i < |es| && c in es[i].labels;
      assert c in r[i].labels;
    }
    forall c | c in e.labels
      ensures c in LabelsOf(r)
    {
      assert c in r[|es|].labels;
    }
  }

  lemma AddEntry(m: Fsm, buf: seq<nat>, es: seq<Entry>, x: set<nat>, e: Entry)
    requires EntriesOk(m, buf, es, x) && EntryOk(m, buf, e, x) && e.labels !! LabelsOf(es)
    ensures EntriesOk(m, buf, es + [e], x) && LabelsOf(es + [e]) == LabelsOf(es) + e.labels
  {
    LabelsMore(es, e);
    forall i | 0 <= i < |es|
      ensures es[i].labels !! e.labels
    {
      assert es[i].labels <= LabelsOf(es);
    }
  }

  lemma LongerBuf(m: Fsm, buf: seq<nat>, more: seq<nat>, es: seq<Entry>, x: set<nat>)
    requires EntriesOk(m, buf, es, x) && buf <= more
    ensures EntriesOk(m, more, es, x)
    ensures ResultOk(m, buf, es, x) ==> ResultOk(m, more, es, x)
  {
    forall i | 0 <= i < |es|
      ensures EntryOk(m, more, es[i], x)
    {
      assert EntryOk(m, buf, es[i], x);
      assert ToSet(more, es[i]) == ToSet(buf, es[i]);
    }
  }

  // ----- one state: splitting its groups -----

  /** `gs` holds the groups of `es` at `idx`, which are those with symbols among the first `i`. */
  ghost predicate Collecting(es: seq<Group>, i: nat, gs: seq<Group>, idx: seq<nat>) {
    && i <= |es| && |gs| == |idx|
    && (forall k :: 0 <= k < |gs| ==> idx[k] < i && gs[k] == es[idx[k]] && gs[k].symbols != {})
    && (forall j, k :: 0 <= j < k < |idx| ==> idx[j] < idx[k])
    && (forall k :: 0 <= k < i && es[k].symbols != {} ==> k in idx)
  }

  lemma CollectedTargets(es: seq<Group>, gs: seq<Group>, idx: seq<nat>, c: Byte)
    requires Collecting(es, |es|, gs, idx)
    ensures Targets(gs, c) == Targets(es, c)
  {
    forall t | t in Targets(es, c)
      ensures t in Targets(gs, c)
    {
      var k :| 0 <= k < |es| && c in es[k].symbols && es[k].to == t;
      assert k in idx;
      var j :| 0 <= j < |idx| && idx[j] == k;
      assert c in gs[j].symbols;
    }
    forall t | t in Targets(gs, c)
      ensures t in Targets(es, c)
    {
      var k :| 0 <= k < |gs| && c in gs[k].symbols && gs[k].to == t;
      assert c in es[idx[k]].symbols;
    }
  }

  /** The groups with symbols, in order. */
  method CollectGroups(es: seq<Group>) returns (gs: seq<Group>)
    requires Sorted(es)
    ensures Sorted(gs) && (forall i :: 0 <= i < |gs| ==> gs[i].symbols != {})
    ensures forall c: Byte :: Targets(gs, c) == Targets(es, c)
  {
    gs := [];
    ghost var idx: seq<nat> := [];
    for i := 0 to |es|
      invariant Collecting(es, i, gs, idx)
    {
      if es[i].symbols != {} {
        gs := gs + [es[i]];
        ghost var before := idx;
        idx := idx + [i];
        assert forall k :: k in idx <==> k in before || k == i;
      }
    }
    forall c: Byte
      ensures Targets(gs, c) == Targets(es, c)
    {
      CollectedTargets(es, gs, idx, c);
    }
  }

  /** Choosing groups that share labels with the one at `base`: the labels left are in all the
      groups chosen and in none of the others. */
  ghost predicate Selecting(gs: seq<Group>, base: nat, o: nat, labels: set<Byte>, chosen: seq<nat>) {
    && base < o <= |gs| && labels != {} && chosen != [] && chosen[0] == base
    && (forall k :: 0 <= k < |chosen| ==> base <= chosen[k] < o && labels <= gs[chosen[k]].symbols)
    && (forall j, k :: 0 <= j < k < |chosen| ==> chosen[j] < chosen[k])
    && (forall j :: base <= j < o && j !in chosen ==> labels !! gs[j].symbols)
  }

  method SelectGroups(gs: seq<Group>, base: nat) returns (labels: set<Byte>, chosen: seq<nat>)
    requires base < |gs| && gs[base].symbols != {}
    ensures Selecting(gs, base, |gs|, labels, chosen)
  {
    labels, chosen := gs[base].symbols, [base];
    for o := base + 1 to |gs|
      invariant Selecting(gs, base, o, labels, chosen)
    {
      SelectStep(gs, base, o, labels, chosen);
      if labels * gs[o].symbols != {} {
        labels, chosen := labels * gs[o].symbols, chosen + [o];
      }
    }
  }

  lemma SelectStep(gs: seq<Group>, base: nat, o: nat, labels: set<Byte>, chosen: seq<nat>)
    requires Selecting(gs, base, o, labels, chosen) && o < |gs|
    ensures labels * gs[o].symbols != {} ==> Selecting(gs, base, o + 1, labels * gs[o].symbols, chosen + [o])
    ensures labels * gs[o].symbols == {} ==> Selecting(gs, base, o + 1, labels, chosen)
  {
    var more := labels * gs[o].symbols;
    forall j | base <= j < o && j !in chosen
      ensures more !! gs[j].symbols
    {
      assert labels !! gs[j].symbols;
    }
    assert forall j :: j in chosen + [o] <==> j in chosen || j == o;
    assert forall c :: c in labels && c in gs[o].symbols ==> c in more;
  }

  /** The destinations of the chosen groups. */
  function Destinations(gs: seq<Group>, chosen: seq<nat>): (dst: seq<nat>)
    requires forall k :: 0 <= k < |chosen| ==> chosen[k] < |gs|
    ensures |dst| == |chosen|
  {
    seq(|chosen|, k requires 0 <= k < |chosen| => gs[chosen[k]].to)
  }

  lemma SelectedTargets(gs: seq<Group>, base: nat, labels: set<Byte>, chosen: seq<nat>, c: Byte)
    requires Sorted(gs) && Selecting(gs, base, |gs|, labels, chosen) && c in labels
    requires forall j :: 0 <= j < base ==> gs[j].symbols == {}
    ensures Ascending(Destinations(gs, chosen))
    ensures forall t :: t in Destinations(gs, chosen) <==> t in Targets(gs, c)
  {
    var dst := Destinations(gs, chosen);
    forall t | t in Targets(gs, c)
      ensures t in dst
    {
      var j :| 0 <= j < |gs| && c in gs[j].symbols && gs[j].to == t;
      assert j in chosen;
      var k :| 0 <= k < |chosen| && chosen[k] == j;
      assert dst[k] == t;
    }
    forall t | t in dst
      ensures t in Targets(gs, c)
    {
      var k :| 0 <= k < |dst| && dst[k] == t;
      assert c in gs[chosen[k]].symbols;
    }
  }

  /** `gs` with `labels` taken out of every group. */
  ghost predicate Cleared(gs: seq<Group>, labels: set<Byte>, r: seq<Group>) {
    |r| == |gs| && forall i :: 0 <= i < |gs| ==> r[i] == Group(gs[i].symbols - labels, gs[i].to)
  }

  /** Clear the labels from the chosen groups; the others do not have them. */
  method ClearGroups(gs: seq<Group>, base: nat, labels: set<Byte>, chosen: seq<nat>) returns (r: seq<Group>)
    requires Selecting(gs, base, |gs|, labels, chosen)
    requires forall j :: 0 <= j < base ==> gs[j].symbols == {}
    ensures Cleared(gs, labels, r)
  {
    r := gs;
    for k := 0 to |chosen|
      invariant |r| == |gs|
      invariant forall i :: 0 <= i < |gs| && i !in chosen[..k] ==> r[i] == gs[i]
      invariant forall i :: 0 <= i < |gs| && i in chosen[..k] ==> r[i] == Group(gs[i].symbols - labels, gs[i].to)
    {
      assert chosen[..k + 1] == chosen[..k] + [chosen[k]];
      r := r[chosen[k] := Group(r[chosen[k]].symbols - labels, r[chosen[k]].to)];
    }
    assert chosen[..|chosen|] == chosen;
    forall i | 0 <= i < |gs|
      ensures r[i] == Group(gs[i].symbols - labels, gs[i].to)
    {
      if i !in chosen {
        assert gs[i].symbols - labels == gs[i].symbols;
      }
    }
  }

  /** The partition of the groups of `s`, in progress: `done` labels have entries, and `cur` is
      what is left of the groups `gs`. */
  ghost predicate Splitting(m: Fsm, s: nat, gs: seq<Group>, cur: seq<Group>, buf: seq<nat>, es: seq<Entry>, done: set<Byte>) {
    && s < |m.states| && Sorted(gs) && (forall c: Byte :: Targets(gs, c) == Targets(m.states[s].edges, c))
    && Cleared(gs, done, cur) && EntriesOk(m, buf, es, {s}) && LabelsOf(es) == done
  }

  lemma ClearedTargets(gs: seq<Group>, done: set<Byte>, cur: seq<Group>, c: Byte)
    requires Cleared(gs, done, cur) && c !in done
    ensures Targets(cur, c) == Targets(gs, c)
  {
    forall t | t in Targets(gs, c)
      ensures t in Targets(cur, c)
    {
      var i :| 0 <= i < |gs| && c in gs[i].symbols && gs[i].to == t;
      assert c in cur[i].symbols;
    }
  }

  /** The labels selected lead to the destinations selected. */
  lemma SplitEntry(m: Fsm, s: nat, gs: seq<Group>, cur: seq<Group>, buf: seq<nat>, es: seq<Entry>, done: set<Byte>,
                   base: nat, labels: set<Byte>, chosen: seq<nat>)
    requires Splitting(m, s, gs, cur, buf, es, done) && Selecting(cur, base, |cur|, labels, chosen)
    requires forall j :: 0 <= j < base ==> cur[j].symbols == {}
    ensures labels !! done && ListOk(m, {s}, labels, Destinations(cur, chosen))
  {
    assert labels <= cur[chosen[0]].symbols;
    var c0 :| c0 in labels;
    SelectedTargets(cur, base, labels, chosen, c0);
    forall c | c in labels
      ensures Hits(m, {s}, c, Destinations(cur, chosen))
    {
      SelectedTargets(cur, base, labels, chosen, c);
      ClearedTargets(gs, done, cur, c);
      TargetsSingle(m, s, c);
    }
  }

  lemma SplitStep(m: Fsm, s: nat, gs: seq<Group>, cur: seq<Group>, buf: seq<nat>, es: seq<Entry>, done: set<Byte>,
                  labels: set<Byte>, e: Entry, cur': seq<Group>, buf': seq<nat>)
    requires Splitting(m, s, gs, cur, buf, es, done) && labels !! done && buf <= buf'
    requires e.labels == labels && EntryOk(m, buf', e, {s}) && Cleared(cur, labels, cur')
    ensures Splitting(m, s, gs, cur', buf', es + [e], done + labels)
  {
    LongerBuf(m, buf, buf', es, {s});
    AddEntry(m, buf', es, {s}, e);
    forall i | 0 <= i < |gs|
      ensures cur'[i] == Group(gs[i].symbols - (done + labels), gs[i].to)
    {
      assert gs[i].symbols - done - labels == gs[i].symbols - (done + labels);
    }
  }

  lemma SplitEnds(m: Fsm, s: nat, gs: seq<Group>, cur: seq<Group>, buf: seq<nat>, es: seq<Entry>, done: set<Byte>)
    requires Splitting(m, s, gs, cur, buf, es, done) && forall j :: 0 <= j < |cur| ==> cur[j].symbols == {}
    ensures ResultOk(m, buf, es, {s})
  {
    forall c: Byte | TargetsOf(m, {s}, c) != {}
      ensures c in done
    {
      TargetsSingle(m, s, c);
      var t :| t in Targets(gs, c);
      var i :| 0 <= i < |gs| && c in gs[i].symbols && gs[i].to == t;
      assert c in cur[i].symbols || c in done;
    }
  }

  // ----- putting two results together -----

  /** The first pass: labels of the left result, split along the right one. `checked` labels have
      entries for both results together. */
  ghost predicate Joining(m: Fsm, buf: seq<nat>, l: seq<Entry>, x: set<nat>, r: seq<Entry>, y: set<nat>, i: nat,
                          es: seq<Entry>, checked: set<Byte>)
  {
    && i <= |l|
    && (forall b {:trigger Look(b)} :: Look(b) ==>
          && ResultOk(m, buf, l, x) && ResultOk(m, buf, r, y)
          && EntriesOk(m, buf, es, x + y) && LabelsOf(es) == checked && checked <= LabelsOf(l)
          && (forall k :: 0 <= k < i ==> l[k].labels <= checked))
  }

  lemma JoinOpen(m: Fsm, buf: seq<nat>, l: seq<Entry>, x: set<nat>, r: seq<Entry>, y: set<nat>, i: nat,
                 es: seq<Entry>, checked: set<Byte>)
    requires Joining(m, buf, l, x, r, y, i, es, checked)
    ensures ResultOk(m, buf, l, x) && ResultOk(m, buf, r, y)
  {
    assert Look(true);
  }

  lemma JoinBegins(m: Fsm, buf: seq<nat>, l: seq<Entry>, x: set<nat>, r: seq<Entry>, y: set<nat>)
    requires ResultOk(m, buf, l, x) && ResultOk(m, buf, r, y)
    ensures Joining(m, buf, l, x, r, y, 0, [], {})
  {
  }

  lemma JoinSkip(m: Fsm, buf: seq<nat>, l: seq<Entry>, x: set<nat>, r: seq<Entry>, y: set<nat>, i: nat,
                 es: seq<Entry>, checked: set<Byte>)
    requires Joining(m, buf, l, x, r, y, i, es, checked) && i < |l| && l[i].labels - checked == {}
    ensures Joining(m, buf, l, x, r, y, i + 1, es, checked)
  {
    assert Look(true);
    assert forall c :: c in l[i].labels && c !in checked ==> c in l[i].labels - checked;
  }

  /** Narrowing the labels of one left entry along the right entries below `k`: at most one of
      them overlaps. */
  ghost predicate Narrowing(r: seq<Entry>, k: nat, labels: set<Byte>, hit: Option<nat>) {
    && k <= |r| && labels != {}
    && match hit
       case None => forall j :: 0 <= j < k ==> labels !! r[j].labels
       case Some(h) => h < k && labels <= r[h].labels
  }

  lemma NarrowStep(r: seq<Entry>, k: nat, labels: set<Byte>, hit: Option<nat>)
    requires LabelsDisjoint(r) && Narrowing(r, k, labels, hit) && k < |r|
    ensures labels * r[k].labels != {} ==> hit.None? && Narrowing(r, k + 1, labels * r[k].labels, Some(k))
    ensures labels * r[k].labels == {} ==> Narrowing(r, k + 1, labels, hit)
  {
    var more := labels * r[k].labels;
    assert forall c :: c in labels && c in r[k].labels ==> c in more;
    if hit.Some? {
      assert r[hit.value].labels !! r[k].labels;
    }
  }

  /** The labels of one left entry that have no entry yet, narrowed to those that go the same
      way on the right, with the targets of both sides, unsorted. */
  method NarrowLabels(buf: seq<nat>, el: Entry, r: seq<Entry>, checked: set<Byte>)
    returns (labels: set<Byte>, tmp: seq<nat>, ghost hit: Option<nat>)
    requires LabelsDisjoint(r) && el.labels - checked != {}
    ensures labels <= el.labels - checked && Narrowing(r, |r|, labels, hit)
    ensures tmp == ToSet(buf, el) + if hit.Some? then ToSet(buf, r[hit.value]) else []
  {
    labels, tmp, hit := el.labels - checked, ToSet(buf, el), None;
    for k := 0 to |r|
      invariant labels <= el.labels - checked && Narrowing(r, k, labels, hit)
      invariant tmp == ToSet(buf, el) + if hit.Some? then ToSet(buf, r[hit.value]) else []
    {
      NarrowStep(r, k, labels, hit);
      if labels * r[k].labels != {} {
        labels := labels * r[k].labels;
        tmp := tmp + ToSet(buf, r[k]);
        hit := Some(k);
      }
    }
  }

  lemma NoEntryNoTargets(m: Fsm, buf: seq<nat>, r: seq<Entry>, y: set<nat>, c: Byte)
    requires ResultOk(m, buf, r, y) && forall j :: 0 <= j < |r| ==> c !in r[j].labels
    ensures TargetsOf(m, y, c) == {}
  {
    assert c !in LabelsOf(r);
  }

  /** Sorted, these are the targets of the two sets together. */
  lemma NarrowedEntry(m: Fsm, buf: seq<nat>, l: seq<Entry>, x: set<nat>, r: seq<Entry>, y: set<nat>, i: nat,
                      es: seq<Entry>, checked: set<Byte>, labels: set<Byte>, tmp: seq<nat>, hit: Option<nat>, sorted: seq<nat>)
    requires Joining(m, buf, l, x, r, y, i, es, checked) && i < |l|
    requires labels <= l[i].labels - checked && Narrowing(r, |r|, labels, hit)
    requires tmp == ToSet(buf, l[i]) + if hit.Some? then ToSet(buf, r[hit.value]) else []
    requires SortedOf(sorted, tmp)
    ensures ListOk(m, x + y, labels, sorted) && labels !! checked
  {
    assert Look(true);
    var a := ToSet(buf, l[i]);
    var b := if hit.Some? then ToSet(buf, r[hit.value]) else [];
    assert EntryOk(m, buf, l[i], x);
    assert a[0] in tmp && tmp[0] in sorted;
    forall c | c in labels
      ensures Hits(m, x + y, c, sorted)
    {
      TargetsUnion(m, x, y, c);
      assert Hits(m, x, c, a);
      if hit.Some? {
        assert EntryOk(m, buf, r[hit.value], y);
        assert Hits(m, y, c, b);
      } else {
        NoEntryNoTargets(m, buf, r, y, c);
      }
    }
  }

  lemma JoinStep(m: Fsm, buf: seq<nat>, l: seq<Entry>, x: set<nat>, r: seq<Entry>, y: set<nat>, i: nat,
                 es: seq<Entry>, checked: set<Byte>, e: Entry, buf': seq<nat>)
    requires Joining(m, buf, l, x, r, y, i, es, checked) && i < |l| && buf <= buf'
    requires e.labels <= l[i].labels && e.labels !! checked && EntryOk(m, buf', e, x + y)
    ensures Joining(m, buf', l, x, r, y, i, es + [e], checked + e.labels)
  {
    assert Look(true);
    LongerBuf(m, buf, buf', l, x);
    LongerBuf(m, buf, buf', r, y);
    LongerBuf(m, buf, buf', es, x + y);
    AddEntry(m, buf', es, x + y, e);
    assert l[i].labels <= LabelsOf(l);
  }

  /** The second pass: what is left on the right has nothing on the left. */
  ghost predicate Remaining(m: Fsm, buf: seq<nat>, l: seq<Entry>, x: set<nat>, r: seq<Entry>, y: set<nat>, k: nat,
                            es: seq<Entry>, checked: set<Byte>)
  {
    k <= |r| && forall b {:trigger Look(b)} :: Look(b) ==> RemainingBody(m, buf, l, x, r, y, k, es, checked)
  }

  ghost predicate RemainingBody(m: Fsm, buf: seq<nat>, l: seq<Entry>, x: set<nat>, r: seq<Entry>, y: set<nat>, k: nat,
                                es: seq<Entry>, checked: set<Byte>)
  {
    && k <= |r| && ResultOk(m, buf, l, x) && ResultOk(m, buf, r, y)
    && EntriesOk(m, buf, es, x + y) && LabelsOf(l) <= checked <= LabelsOf(es)
    && (forall j :: 0 <= j < k ==> r[j].labels <= LabelsOf(es))
    && (forall j :: k <= j < |r| ==> (r[j].labels - checked) !! LabelsOf(es))
  }

  lemma RemainSkip(m: Fsm, buf: seq<nat>, l: seq<Entry>, x: set<nat>, r: seq<Entry>, y: set<nat>, k: nat,
                   es: seq<Entry>, checked: set<Byte>)
    requires Remaining(m, buf, l, x, r, y, k, es, checked) && k < |r| && r[k].labels - checked == {}
    ensures Remaining(m, buf, l, x, r, y, k + 1, es, checked)
  {
    assert Look(true);
    assert forall c :: c in r[k].labels && c !in checked ==> c in r[k].labels - checked;
  }

  lemma RemainBegins(m: Fsm, buf: seq<nat>, l: seq<Entry>, x: set<nat>, r: seq<Entry>, y: set<nat>,
                     es: seq<Entry>, checked: set<Byte>)
    requires Joining(m, buf, l, x, r, y, |l|, es, checked)
    ensures Remaining(m, buf, l, x, r, y, 0, es, checked)
  {
    assert Look(true);
  }

  lemma RemainEntry(m: Fsm, buf: seq<nat>, l: seq<Entry>, x: set<nat>, r: seq<Entry>, y: set<nat>, k: nat,
                    es: seq<Entry>, checked: set<Byte>)
    requires Remaining(m, buf, l, x, r, y, k, es, checked) && k < |r| && r[k].labels - checked != {}
    ensures ListOk(m, x + y, r[k].labels - checked, ToSet(buf, r[k]))
  {
    assert Look(true);
    assert EntryOk(m, buf, r[k], y);
    forall c | c in r[k].labels - checked
      ensures Hits(m, x + y, c, ToSet(buf, r[k]))
    {
      TargetsUnion(m, x, y, c);
      assert c !in LabelsOf(l);
      assert Hits(m, y, c, ToSet(buf, r[k]));
    }
  }

  lemma RemainLabels(r: seq<Entry>, k: nat, checked: set<Byte>, before: set<Byte>, labels: set<Byte>)
    requires LabelsDisjoint(r) && k < |r| && labels == r[k].labels - checked && checked <= before
    requires forall j :: 0 <= j < k ==> r[j].labels <= before
    requires forall j :: k <= j < |r| ==> (r[j].labels - checked) !! before
    ensures forall j :: 0 <= j < k + 1 ==> r[j].labels <= before + labels
    ensures forall j :: k + 1 <= j < |r| ==> (r[j].labels - checked) !! (before + labels)
  {
    forall j | k + 1 <= j < |r|
      ensures (r[j].labels - checked) !! (before + labels)
    {
      assert r[k].labels !! r[j].labels;
      assert (r[j].labels - checked) !! before;
    }
  }

  lemma RemainBodyStep(m: Fsm, buf: seq<nat>, l: seq<Entry>, x: set<nat>, r: seq<Entry>, y: set<nat>, k: nat,
                       es: seq<Entry>, checked: set<Byte>, e: Entry, buf': seq<nat>)
    requires RemainingBody(m, buf, l, x, r, y, k, es, checked) && k < |r| && buf <= buf'
    requires e.labels == r[k].labels - checked && EntryOk(m, buf', e, x + y)
    ensures RemainingBody(m, buf', l, x, r, y, k + 1, es + [e], checked)
  {
    assert ResultOk(m, buf', l, x) && ResultOk(m, buf', r, y) by {
      LongerBuf(m, buf, buf', l, x);
      LongerBuf(m, buf, buf', r, y);
    }
    assert (r[k].labels - checked) !! LabelsOf(es);
    assert EntriesOk(m, buf', es + [e], x + y) && LabelsOf(es + [e]) == LabelsOf(es) + e.labels by {
      LongerBuf(m, buf, buf', es, x + y);
      AddEntry(m, buf', es, x + y, e);
    }
    RemainLabels(r, k, checked, LabelsOf(es), e.labels);
  }

  lemma RemainStep(m: Fsm, buf: seq<nat>, l: seq<Entry>, x: set<nat>, r: seq<Entry>, y: set<nat>, k: nat,
                   es: seq<Entry>, checked: set<Byte>, e: Entry, buf': seq<nat>)
    requires Remaining(m, buf, l, x, r, y, k, es, checked) && k < |r| && buf <= buf'
    requires e.labels == r[k].labels - checked && EntryOk(m, buf', e, x + y)
    ensures Remaining(m, buf', l, x, r, y, k + 1, es + [e], checked)
  {
    assert RemainingBody(m, buf, l, x, r, y, k, es, checked) by {
      assert Look(true);
    }
    RemainBodyStep(m, buf, l, x, r, y, k, es, checked, e, buf');
  }

  lemma RemainEnds(m: Fsm, buf: seq<nat>, l: seq<Entry>, x: set<nat>, r: seq<Entry>, y: set<nat>,
                   es: seq<Entry>, checked: set<Byte>)
    requires Remaining(m, buf, l, x, r, y, |r|, es, checked)
    ensures ResultOk(m, buf, es, x + y)
  {
    assert Look(true);
    forall c: Byte | TargetsOf(m, x + y, c) != {}
      ensures c in LabelsOf(es)
    {
      TargetsUnion(m, x, y, c);
      if TargetsOf(m, x, c) != {} {
        assert c in LabelsOf(l);
      } else {
        assert c in LabelsOf(r);
        var j :| 0 <= j < |r| && c in r[j].labels;
        assert r[j].labels <= LabelsOf(es);
      }
    }
  }

  // ----- the caches -----

  const RESULT_BIT: nat := 0x8000_0000

  /** The offset where a run of states is in the buffer. */
  ghost predicate IndexedAt(buf: seq<nat>, l: seq<nat>, offset: nat) {
    offset + |l| <= |buf| && buf[offset..offset + |l|] == l
  }

  /** Each result is the analysis of its own set of states. */
  ghost predicate ResultAt(m: Fsm, buf: seq<nat>, results: seq<seq<Entry>>, leaves: seq<set<nat>>, r: nat)
    requires r < |results| == |leaves|
  {
    && leaves[r] != {} && (forall s :: s in leaves[r] ==> s < |m.states|)
    && ResultOk(m, buf, results[r], leaves[r])
  }

  ghost predicate SingleAt(leaves: seq<set<nat>>, s: nat, r: nat) {
    r < |leaves| && leaves[r] == {s}
  }

  ghost predicate PairAt(leaves: seq<set<nat>>, p: (nat, nat), r: nat) {
    p.0 < p.1 < |leaves| && r < |leaves| && leaves[r] == leaves[p.0] + leaves[p.1]
  }

  /** Whatever has been cached: a result found for a state is the analysis of that state, and one
      found for a pair of results is the analysis of their states together. */
  ghost predicate CacheOk(m: Fsm, buf: seq<nat>, index: map<seq<nat>, nat>, results: seq<seq<Entry>>, leaves: seq<set<nat>>,
                          singles: map<nat, nat>, pairs: map<(nat, nat), nat>)
  {
    && |results| == |leaves|
    && (forall b {:trigger Look(b)} :: Look(b) ==>
          && (forall l :: l in index ==> IndexedAt(buf, l, index[l]))
          && (forall r :: 0 <= r < |results| ==> ResultAt(m, buf, results, leaves, r))
          && (forall s :: s in singles ==> SingleAt(leaves, s, singles[s]))
          && (forall p :: p in pairs ==> PairAt(leaves, p, pairs[p])))
  }

  lemma CacheResult(m: Fsm, buf: seq<nat>, index: map<seq<nat>, nat>, results: seq<seq<Entry>>, leaves: seq<set<nat>>,
                    singles: map<nat, nat>, pairs: map<(nat, nat), nat>, r: nat)
    requires CacheOk(m, buf, index, results, leaves, singles, pairs) && r < |results|
    ensures ResultAt(m, buf, results, leaves, r)
  {
    assert Look(true);
  }

  lemma CacheIndexed(m: Fsm, buf: seq<nat>, index: map<seq<nat>, nat>, results: seq<seq<Entry>>, leaves: seq<set<nat>>,
                     singles: map<nat, nat>, pairs: map<(nat, nat), nat>, l: seq<nat>)
    requires CacheOk(m, buf, index, results, leaves, singles, pairs) && l in index
    ensures IndexedAt(buf, l, index[l])
  {
    assert Look(true);
  }

  lemma CacheSave(m: Fsm, buf: seq<nat>, index: map<seq<nat>, nat>, results: seq<seq<Entry>>, leaves: seq<set<nat>>,
                  singles: map<nat, nat>, pairs: map<(nat, nat), nat>, l: seq<nat>)
    requires CacheOk(m, buf, index, results, leaves, singles, pairs)
    ensures CacheOk(m, buf + l, index[l := |buf|], results, leaves, singles, pairs)
    ensures IndexedAt(buf + l, l, |buf|) && buf <= buf + l
  {
    assert Look(true);
    var b, i := buf + l, index[l := |buf|];
    assert b[|buf|..|buf| + |l|] == l;
    forall k | k in i
      ensures IndexedAt(b, k, i[k])
    {
      if k != l {
        assert IndexedAt(buf, k, index[k]);
        assert b[index[k]..index[k] + |k|] == k;
      }
    }
    forall r | 0 <= r < |results|
      ensures ResultAt(m, b, results, leaves, r)
    {
      assert ResultAt(m, buf, results, leaves, r);
      LongerBuf(m, buf, b, results[r], leaves[r]);
    }
  }

  lemma CacheCommit(m: Fsm, buf: seq<nat>, index: map<seq<nat>, nat>, results: seq<seq<Entry>>, leaves: seq<set<nat>>,
                    singles: map<nat, nat>, pairs: map<(nat, nat), nat>, es: seq<Entry>, x: set<nat>)
    requires CacheOk(m, buf, index, results, leaves, singles, pairs)
    requires ResultOk(m, buf, es, x) && x != {} && forall s :: s in x ==> s < |m.states|
    ensures CacheOk(m, buf, index, results + [es], leaves + [x], singles, pairs)
  {
    assert Look(true);
    var rs, ls := results + [es], leaves + [x];
    forall r | 0 <= r < |rs|
      ensures ResultAt(m, buf, rs, ls, r)
    {
      if r < |results| {
        assert ResultAt(m, buf, results, leaves, r);
      }
    }
    forall s | s in singles
      ensures SingleAt(ls, s, singles[s])
    {
      assert SingleAt(leaves, s, singles[s]);
    }
    forall p | p in pairs
      ensures PairAt(ls, p, pairs[p])
    {
      assert PairAt(leaves, p, pairs[p]);
    }
  }

  lemma CacheSingle(m: Fsm, buf: seq<nat>, index: map<seq<nat>, nat>, results: seq<seq<Entry>>, leaves: seq<set<nat>>,
                    singles: map<nat, nat>, pairs: map<(nat, nat), nat>, s: nat, r: nat)
    requires CacheOk(m, buf, index, results, leaves, singles, pairs) && SingleAt(leaves, s, r)
    ensures CacheOk(m, buf, index, results, leaves, singles[s := r], pairs)
  {
    assert Look(true);
  }

  lemma CacheSingleHit(m: Fsm, buf: seq<nat>, index: map<seq<nat>, nat>, results: seq<seq<Entry>>, leaves: seq<set<nat>>,
                       singles: map<nat, nat>, pairs: map<(nat, nat), nat>, s: nat)
    requires CacheOk(m, buf, index, results, leaves, singles, pairs) && s in singles
    ensures SingleAt(leaves, s, singles[s])
  {
    assert Look(true);
  }

  lemma CachePair(m: Fsm, buf: seq<nat>, index: map<seq<nat>, nat>, results: seq<seq<Entry>>, leaves: seq<set<nat>>,
                  singles: map<nat, nat>, pairs: map<(nat, nat), nat>, p: (nat, nat), r: nat)
    requires CacheOk(m, buf, index, results, leaves, singles, pairs) && PairAt(leaves, p, r)
    ensures CacheOk(m, buf, index, results, leaves, singles, pairs[p := r])
  {
    assert Look(true);
  }

  lemma CachePairHit(m: Fsm, buf: seq<nat>, index: map<seq<nat>, nat>, results: seq<seq<Entry>>, leaves: seq<set<nat>>,
                     singles: map<nat, nat>, pairs: map<(nat, nat), nat>, p: (nat, nat))
    requires CacheOk(m, buf, index, results, leaves, singles, pairs) && p in pairs
    ensures PairAt(leaves, p, pairs[p])
  {
    assert Look(true);
  }

  // ----- the reduction -----

  /** What the buffers of the reduction hold: a state, or a result marked as one. */
  datatype Id = StateId(s: nat) | ResultId(r: nat)

  /** The states that an ID stands for. */
  function LeavesOf(leaves: seq<set<nat>>, id: Id): set<nat> {
    match id
    case StateId(s) => {s}
    case ResultId(r) => if r < |leaves| then leaves[r] else {}
  }

  ghost predicate IdOk(m: Fsm, leaves: seq<set<nat>>, id: Id) {
    match id
    case StateId(s) => s < |m.states|
    case ResultId(r) => r < |leaves|
  }

  ghost predicate Apart(parts: seq<set<nat>>) {
    forall i, j :: 0 <= i < j < |parts| ==> parts[i] !! parts[j]
  }

  ghost predicate MakeUp(parts: seq<set<nat>>, x: set<nat>) {
    forall s :: s in x <==> InSome(parts, s)
  }

  ghost predicate InSome(parts: seq<set<nat>>, s: nat) {
    exists i :: 0 <= i < |parts| && s in parts[i]
  }

  lemma JoinedApart(front: seq<set<nat>>, p: set<nat>, q: set<nat>, back: seq<set<nat>>)
    requires Apart(front + [p, q] + back)
    ensures Apart(front + [p + q] + back)
  {
    var ps, r, n := front + [p, q] + back, front + [p + q] + back, |front|;
    assert ps[n] == p && ps[n + 1] == q && r[n] == p + q;
    assert forall i :: 0 <= i < n ==> r[i] == ps[i];
    assert forall i :: n < i < |r| ==> r[i] == ps[i + 1];
    forall i, j | 0 <= i < j < |r|
      ensures r[i] !! r[j]
    {
      if j == n {
        assert ps[i] !! ps[n] && ps[i] !! ps[n + 1];
      } else if i == n {
        assert ps[n] !! ps[j + 1] && ps[n + 1] !! ps[j + 1];
      }
    }
  }

  lemma JoinedMakeUp(front: seq<set<nat>>, p: set<nat>, q: set<nat>, back: seq<set<nat>>, s: nat)
    ensures InSome(front + [p, q] + back, s) <==> InSome(front + [p + q] + back, s)
  {
    var ps, r, n := front + [p, q] + back, front + [p + q] + back, |front|;
    assert ps[n] == p && ps[n + 1] == q && r[n] == p + q;
    assert forall i :: 0 <= i < n ==> r[i] == ps[i];
    assert forall i :: n < i < |r| ==> r[i] == ps[i + 1];
    if InSome(ps, s) {
      var i :| 0 <= i < |ps| && s in ps[i];
      assert s in r[if i <= n then i else i - 1];
    }
    if InSome(r, s) {
      var k :| 0 <= k < |r| && s in r[k];
      assert s in ps[if k < n then k else if k > n then k + 1 else if s in p then n else n + 1];
    }
  }

  /** The sets that the IDs stand for. */
  ghost function Parts(leaves: seq<set<nat>>, ids: seq<Id>): (ps: seq<set<nat>>)
    ensures |ps| == |ids| && forall i :: 0 <= i < |ids| ==> ps[i] == LeavesOf(leaves, ids[i])
  {
    seq(|ids|, i requires 0 <= i < |ids| => LeavesOf(leaves, ids[i]))
  }

  /** The IDs stand for disjoint parts that make up `x`. */
  ghost predicate Spread(m: Fsm, leaves: seq<set<nat>>, ids: seq<Id>, x: set<nat>) {
    forall b {:trigger Look(b)} :: Look(b) ==>
      && (forall i :: 0 <= i < |ids| ==> IdOk(m, leaves, ids[i]))
      && Apart(Parts(leaves, ids)) && MakeUp(Parts(leaves, ids), x)
  }

  lemma SpreadPair(m: Fsm, leaves: seq<set<nat>>, front: seq<Id>, p: Id, q: Id, back: seq<Id>, x: set<nat>)
    requires Spread(m, leaves, front + [p, q] + back, x)
    ensures IdOk(m, leaves, p) && IdOk(m, leaves, q) && LeavesOf(leaves, p) !! LeavesOf(leaves, q)
  {
    assert Look(true);
    var ids := front + [p, q] + back;
    assert ids[|front|] == p && ids[|front| + 1] == q;
    assert Parts(leaves, ids)[|front|] !! Parts(leaves, ids)[|front| + 1];
  }

  /** Two neighbours are replaced by one ID for both. */
  lemma SpreadCombine(m: Fsm, leaves: seq<set<nat>>, more: seq<set<nat>>, front: seq<Id>, p: Id, q: Id, back: seq<Id>,
                      x: set<nat>, id: nat)
    requires Spread(m, leaves, front + [p, q] + back, x) && leaves <= more
    requires id < |more| && more[id] == LeavesOf(leaves, p) + LeavesOf(leaves, q)
    ensures Spread(m, more, front + [ResultId(id)] + back, x)
  {
    assert Look(true);
    var ids, r := front + [p, q] + back, front + [ResultId(id)] + back;
    var fp, bp := Parts(leaves, front), Parts(leaves, back);
    var a, b := LeavesOf(leaves, p), LeavesOf(leaves, q);
    assert Parts(leaves, ids) == fp + [a, b] + bp;
    SpreadSame(m, leaves, more, ids, front, p, q, back);
    assert Parts(more, r) == fp + [a + b] + bp;
    JoinedApart(fp, a, b, bp);
    forall s
      ensures s in x <==> InSome(Parts(more, r), s)
    {
      JoinedMakeUp(fp, a, b, bp, s);
    }
  }

  /** IDs that are good mean the same with more results. */
  lemma SpreadSame(m: Fsm, leaves: seq<set<nat>>, more: seq<set<nat>>, ids: seq<Id>, front: seq<Id>, p: Id, q: Id, back: seq<Id>)
    requires ids == front + [p, q] + back && leaves <= more && forall i :: 0 <= i < |ids| ==> IdOk(m, leaves, ids[i])
    ensures forall i :: 0 <= i < |front| ==> IdOk(m, more, front[i]) && LeavesOf(more, front[i]) == LeavesOf(leaves, front[i])
    ensures forall i :: 0 <= i < |back| ==> IdOk(m, more, back[i]) && LeavesOf(more, back[i]) == LeavesOf(leaves, back[i])
  {
    assert forall i :: 0 <= i < |front| ==> front[i] == ids[i];
    assert forall i :: 0 <= i < |back| ==> back[i] == ids[|front| + 2 + i];
  }

  lemma SpreadBegins(m: Fsm, leaves: seq<set<nat>>, states: seq<nat>, ids: seq<Id>)
    requires Ascending(states) && |ids| == |states| && forall i :: 0 <= i < |states| ==> ids[i] == StateId(states[i])
    requires forall i :: 0 <= i < |states| ==> states[i] < |m.states|
    ensures Spread(m, leaves, ids, Elements(states))
  {
    forall s
      ensures s in Elements(states) <==> InSome(Parts(leaves, ids), s)
    {
      if s in states {
        var i :| 0 <= i < |states| && states[i] == s;
        assert s in Parts(leaves, ids)[i];
      }
    }
  }

  /** One ID that stands for two states or more is a result. */
  lemma SpreadEnds(m: Fsm, leaves: seq<set<nat>>, ids: seq<Id>, x: set<nat>, s: nat, t: nat)
    requires Spread(m, leaves, ids, x) && |ids| == 1 && s in x && t in x && s != t
    ensures ids[0].ResultId? && ids[0].r < |leaves| && leaves[ids[0].r] == x
  {
    assert Look(true);
    var ps := Parts(leaves, ids);
    forall u
      ensures u in x <==> u in ps[0]
    {
      assert u in x <==> InSome(ps, u);
    }
    assert x == ps[0];
    assert s in ps[0] && t in ps[0];
  }

  class AnalyzeEnv {
    const m: Fsm
    var toSets: seq<nat>
    var toSetIndex: map<seq<nat>, nat>
    var results: seq<seq<Entry>>
    var buffer: seq<Entry>
    var singles: map<nat, nat>
    var pairs: map<(nat, nat), nat>
    /** The states that each result stands for. */
    ghost var leaves: seq<set<nat>>

    ghost predicate Valid()
      reads this
    {
      && WellFormed(m) && |m.states| <= RESULT_BIT
      && CacheOk(m, toSets, toSetIndex, results, leaves, singles, pairs)
    }

    constructor (m: Fsm)
      requires WellFormed(m) && |m.states| <= RESULT_BIT
      ensures Valid() && this.m == m && buffer == []
    {
      this.m := m;
      toSets, toSetIndex, results, buffer, singles, pairs, leaves := [], map[], [], [], map[], map[], [];
    }

    /** Keep one copy of every run of states. */
    method SaveToSet(l: seq<nat>) returns (offset: nat)
      requires Valid()
      modifies this`toSets, this`toSetIndex
      ensures Valid() && old(toSets) <= toSets && IndexedAt(toSets, l, offset)
    {
      if l in toSetIndex {
        CacheIndexed(m, toSets, toSetIndex, results, leaves, singles, pairs, l);
        return toSetIndex[l];
      }
      CacheSave(m, toSets, toSetIndex, results, leaves, singles, pairs, l);
      offset := |toSets|;
      toSets, toSetIndex := toSets + l, toSetIndex[l := offset];
    }

    method AddGroupDstInfo(labels: set<Byte>, l: seq<nat>, ghost x: set<nat>)
      requires Valid() && ListOk(m, x, labels, l)
      modifies this`toSets, this`toSetIndex, this`buffer
      ensures Valid() && old(toSets) <= toSets && |buffer| == |old(buffer)| + 1
      ensures var e := buffer[|buffer| - 1]; buffer == old(buffer) + [e] && e.labels == labels && EntryOk(m, toSets, e, x)
    {
      var offset := SaveToSet(l);
      buffer := buffer + [Entry(labels, offset, |l|)];
    }

    /** The buffered entries become a result. */
    method CommitBufferedResult(ghost x: set<nat>) returns (id: nat)
      requires Valid() && ResultOk(m, toSets, buffer, x) && x != {} && forall s :: s in x ==> s < |m.states|
      modifies this`results, this`buffer, this`leaves
      ensures Valid() && buffer == [] && id == |old(results)|
      ensures leaves == old(leaves) + [x] && |results| == |leaves|
    {
      CacheCommit(m, toSets, toSetIndex, results, leaves, singles, pairs, buffer, x);
      id := |results|;
      results, leaves := results + [buffer], leaves + [x];
      buffer := [];
    }

    /** Analyse a single state and cache the result. */
    method CacheSingleStateAnalysis(s: nat) returns (id: nat)
      requires Valid() && s < |m.states| && s !in singles && buffer == []
      modifies this
      ensures Valid() && buffer == [] && old(leaves) <= leaves && SingleAt(leaves, s, id) && pairs == old(pairs)
    {
      SplitGroups(s);
      id := CommitBufferedResult({s});
      CacheSingle(m, toSets, toSetIndex, results, leaves, singles, pairs, s, id);
      singles := singles[s := id];
    }

    method SplitGroups(s: nat)
      requires Valid() && s < |m.states| && buffer == []
      modifies this`toSets, this`toSetIndex, this`buffer
      ensures Valid() && ResultOk(m, toSets, buffer, {s})
    {
      var cur := CollectGroups(m.states[s].edges);
      ghost var gs, done: set<Byte> := cur, {};
      var base := 0;
      assert LabelsOf([]) == {};
      while base < |cur|
        invariant Valid() && Splitting(m, s, gs, cur, toSets, buffer, done) && base <= |cur|
        invariant forall j :: 0 <= j < base ==> cur[j].symbols == {}
        invariant base < |cur| ==> cur[base].symbols != {}
        decreases |cur| - base, if base < |cur| then |cur[base].symbols| else 0
      {
        ghost var before := cur[base].symbols;
        ghost var labels;
        cur, labels := SplitOnce(s, cur, base, gs, done);
        done := done + labels;
        SmallerSet(before, labels);
        base := SkipCleared(cur, base);
      }
      SplitEnds(m, s, gs, cur, toSets, buffer, done);
    }

    /** Take out the labels that the base group shares with the same later groups. */
    method SplitOnce(s: nat, cur: seq<Group>, base: nat, ghost gs: seq<Group>, ghost done: set<Byte>)
      returns (next: seq<Group>, ghost labels: set<Byte>)
      requires Valid() && Splitting(m, s, gs, cur, toSets, buffer, done) && base < |cur| && cur[base].symbols != {}
      requires forall j :: 0 <= j < base ==> cur[j].symbols == {}
      modifies this`toSets, this`toSetIndex, this`buffer
      ensures Valid() && Splitting(m, s, gs, next, toSets, buffer, done + labels)
      ensures |next| == |cur| && (forall j :: 0 <= j < base ==> next[j].symbols == {})
      ensures labels != {} && labels <= cur[base].symbols && next[base].symbols == cur[base].symbols - labels
    {
      var ls, chosen := SelectGroups(cur, base);
      labels := ls;
      SplitEntry(m, s, gs, cur, toSets, buffer, done, base, ls, chosen);
      ghost var buf, es := toSets, buffer;
      AddGroupDstInfo(ls, Destinations(cur, chosen), {s});
      next := ClearGroups(cur, base, ls, chosen);
      SplitStep(m, s, gs, cur, buf, es, done, ls, buffer[|buffer| - 1], next, toSets);
    }

    /** First pass: split the left entries along the right ones. */
    method JoinLeft(l: seq<Entry>, r: seq<Entry>, ghost x: set<nat>, ghost y: set<nat>) returns (checked: set<Byte>)
      requires Valid() && ResultOk(m, toSets, l, x) && ResultOk(m, toSets, r, y) && buffer == []
      modifies this`toSets, this`toSetIndex, this`buffer
      ensures Valid() && Joining(m, toSets, l, x, r, y, |l|, buffer, checked)
    {
      checked := {};
      var i := 0;
      JoinBegins(m, toSets, l, x, r, y);
      while i < |l|
        invariant Valid() && Joining(m, toSets, l, x, r, y, i, buffer, checked)
        decreases |l| - i, if i < |l| then |l[i].labels - checked| else 0
      {
        if l[i].labels - checked == {} {
          JoinSkip(m, toSets, l, x, r, y, i, buffer, checked);
          i := i + 1;
        } else {
          var labels := JoinOnce(l, r, i, checked, x, y);
          checked := checked + labels;
        }
      }
    }

    method JoinOnce(l: seq<Entry>, r: seq<Entry>, i: nat, checked: set<Byte>, ghost x: set<nat>, ghost y: set<nat>)
      returns (labels: set<Byte>)
      requires Valid() && Joining(m, toSets, l, x, r, y, i, buffer, checked) && i < |l| && l[i].labels - checked != {}
      modifies this`toSets, this`toSetIndex, this`buffer
      ensures Valid() && Joining(m, toSets, l, x, r, y, i, buffer, checked + labels)
      ensures |l[i].labels - (checked + labels)| < |l[i].labels - checked|
    {
      JoinOpen(m, toSets, l, x, r, y, i, buffer, checked);
      var tmp;
      ghost var hit;
      labels, tmp, hit := NarrowLabels(toSets, l[i], r, checked);
      NarrowedWithin(m, toSets, l, x, r, y, i, hit, tmp);
      var sorted := SortedDst(tmp);
      NarrowedEntry(m, toSets, l, x, r, y, i, buffer, checked, labels, tmp, hit, sorted);
      ghost var buf, es := toSets, buffer;
      AddGroupDstInfo(labels, sorted, x + y);
      FewerLeft(l[i].labels, checked, labels);
      JoinStep(m, buf, l, x, r, y, i, es, checked, buffer[|buffer| - 1], toSets);
    }

    /** Second pass: the labels that only the right entries have. */
    method JoinRight(l: seq<Entry>, r: seq<Entry>, checked: set<Byte>, ghost x: set<nat>, ghost y: set<nat>)
      requires Valid() && Joining(m, toSets, l, x, r, y, |l|, buffer, checked)
      modifies this`toSets, this`toSetIndex, this`buffer
      ensures Valid() && ResultOk(m, toSets, buffer, x + y)
    {
      RemainBegins(m, toSets, l, x, r, y, buffer, checked);
      for k := 0 to |r|
        invariant Valid() && Remaining(m, toSets, l, x, r, y, k, buffer, checked)
      {
        var labels := r[k].labels - checked;
        if labels != {} {
          RemainEntry(m, toSets, l, x, r, y, k, buffer, checked);
          ghost var buf, es := toSets, buffer;
          AddGroupDstInfo(labels, ToSet(toSets, r[k]), x + y);
          RemainStep(m, buf, l, x, r, y, k, es, checked, buffer[|buffer| - 1], toSets);
        } else {
          RemainSkip(m, toSets, l, x, r, y, k, buffer, checked);
        }
      }
      RemainEnds(m, toSets, l, x, r, y, buffer, checked);
    }

    /** The result for the states of two results together. */
    method CombineResultPairAndCommit(a: nat, b: nat) returns (id: nat)
      requires Valid() && a < |results| && b < |results| && a != b && buffer == []
      modifies this`toSets, this`toSetIndex, this`buffer, this`results, this`leaves
      ensures Valid() && buffer == [] && id == |old(leaves)| && leaves == old(leaves) + [old(leaves[a]) + old(leaves[b])]
    {
      CacheResult(m, toSets, toSetIndex, results, leaves, singles, pairs, a);
      CacheResult(m, toSets, toSetIndex, results, leaves, singles, pairs, b);
      ghost var x, y := leaves[a], leaves[b];
      if |results[a]| <= |results[b]| {
        var l, r := results[a], results[b];
        var checked := JoinLeft(l, r, x, y);
        JoinRight(l, r, checked, x, y);
        id := CommitBufferedResult(x + y);
      } else {
        var l, r := results[b], results[a];
        var checked := JoinLeft(l, r, y, x);
        JoinRight(l, r, checked, y, x);
        id := CommitBufferedResult(y + x);
        assert y + x == x + y;
      }
    }

    /** The result for a single state, cached or computed. */
    method ResolveState(s: nat) returns (id: nat)
      requires Valid() && s < |m.states| && buffer == []
      modifies this
      ensures Valid() && buffer == [] && old(leaves) <= leaves && SingleAt(leaves, s, id)
    {
      if s in singles {
        CacheSingleHit(m, toSets, toSetIndex, results, leaves, singles, pairs, s);
        id := singles[s];
      } else {
        id := CacheSingleStateAnalysis(s);
      }
    }

    method Resolve(p: Id) returns (id: nat)
      requires Valid() && IdOk(m, leaves, p) && buffer == []
      modifies this
      ensures Valid() && buffer == [] && old(leaves) <= leaves
      ensures id < |leaves| && leaves[id] == old(LeavesOf(leaves, p))
    {
      match p
      case StateId(s) => id := ResolveState(s);
      case ResultId(r) => id := r;
    }

    /** The result for two IDs that stand for disjoint sets of states. Their own results, `a` and
        `b`, are always different. */
    method CombinePair(p: Id, q: Id) returns (id: nat, a: nat, b: nat)
      requires Valid() && IdOk(m, leaves, p) && IdOk(m, leaves, q) && buffer == []
      requires LeavesOf(leaves, p) !! LeavesOf(leaves, q)
      modifies this
      ensures Valid() && buffer == [] && old(leaves) <= leaves && a != b
      ensures id < |leaves| && leaves[id] == old(LeavesOf(leaves, p)) + old(LeavesOf(leaves, q))
    {
      a := Resolve(p);
      b := Resolve(q);
      CacheResult(m, toSets, toSetIndex, results, leaves, singles, pairs, a);
      var key := if a < b then (a, b) else (b, a);
      ghost var x, y := leaves[a], leaves[b];
      if key in pairs {
        CachePairHit(m, toSets, toSetIndex, results, leaves, singles, pairs, key);
        id := pairs[key];
        assert y + x == x + y;
      } else {
        ghost var before := leaves;
        id := CombineResultPairAndCommit(a, b);
        assert leaves[..|before|] == before;
        assert y + x == x + y;
        CachePair(m, toSets, toSetIndex, results, leaves, singles, pairs, key, id);
        pairs := pairs[key := id];
      }
    }

    /** Combine the IDs pairwise, round after round, until one is left; an odd one out is passed
        on to the next round. */
    method Reduce(ids: seq<Id>, pbufCeil: nat, ghost x: set<nat>) returns (id: nat)
      requires Valid() && buffer == [] && 2 <= |ids| <= pbufCeil && Spread(m, leaves, ids, x)
      requires exists s, t :: s in x && t in x && s != t
      modifies this
      ensures Valid() && buffer == [] && old(leaves) <= leaves && id < |leaves| && leaves[id] == x
    {
      var cbuf, nbuf: seq<Id> := ids, [];
      var curI := 0;
      assert nbuf + cbuf[curI..] == ids;
      while |cbuf| > 1
        invariant Valid() && buffer == [] && old(leaves) <= leaves && 1 <= |cbuf| <= pbufCeil
        invariant curI <= |cbuf| && |nbuf| == (curI + 1) / 2 && (curI % 2 == 0 || curI == |cbuf|)
        invariant Spread(m, leaves, nbuf + cbuf[curI..], x)
        invariant |cbuf| == 1 ==> nbuf == [] && curI == 0
        decreases |cbuf|, |cbuf| - curI
      {
        if curI == |cbuf| {
          assert nbuf + cbuf[curI..] == nbuf;
          cbuf, nbuf, curI := nbuf, [], 0;
          assert nbuf + cbuf[curI..] == cbuf;
        } else if curI == |cbuf| - 1 {
          assert |nbuf| + 1 < pbufCeil;
          assert nbuf + cbuf[curI..] == (nbuf + [cbuf[curI]]) + cbuf[curI + 1..];
          nbuf := nbuf + [cbuf[curI]];
          curI := curI + 1;
        } else {
          nbuf := ReducePair(cbuf, nbuf, curI, x);
          curI := curI + 2;
        }
      }
      ghost var s, t :| s in x && t in x && s != t;
      assert nbuf + cbuf[curI..] == cbuf;
      SpreadEnds(m, leaves, cbuf, x, s, t);
      id := cbuf[0].r;
    }

    method ReducePair(cbuf: seq<Id>, nbuf: seq<Id>, curI: nat, ghost x: set<nat>) returns (next: seq<Id>)
      requires Valid() && buffer == [] && curI + 2 <= |cbuf| && Spread(m, leaves, nbuf + cbuf[curI..], x)
      modifies this
      ensures Valid() && buffer == [] && old(leaves) <= leaves
      ensures |next| == |nbuf| + 1 && Spread(m, leaves, next + cbuf[curI + 2..], x)
    {
      var p, q := cbuf[curI], cbuf[curI + 1];
      ghost var rest := cbuf[curI + 2..];
      ghost var all := nbuf + cbuf[curI..];
      assert all == nbuf + [p, q] + rest;
      SpreadPair(m, leaves, nbuf, p, q, rest, x);
      ghost var before := leaves;
      var id, a, b := CombinePair(p, q);
      SpreadCombine(m, before, leaves, nbuf, p, q, rest, x, id);
      next := nbuf + [ResultId(id)];
    }

    /** The result for a set of states, given in ascending order. */
    method PairwiseGrouping(states: seq<nat>) returns (id: nat)
      requires Valid() && buffer == [] && states != [] && Ascending(states) && forall i :: 0 <= i < |states| ==> states[i] < |m.states|
      modifies this
      ensures Valid() && buffer == [] && id < |results| && ResultOk(m, toSets, results[id], Elements(states))
    {
      ghost var x := Elements(states);
      if |states| == 1 {
        id := ResolveState(states[0]);
        assert x == {states[0]};
      } else {
        var ids := seq(|states|, i requires 0 <= i < |states| => StateId(states[i]));
        SpreadBegins(m, leaves, states, ids);
        assert states[0] in x && states[1] in x && states[0] != states[1];
        id := Reduce(ids, |states|, x);
      }
      CacheResult(m, toSets, toSetIndex, results, leaves, singles, pairs, id);
    }
  }

  /** Targets are states. */
  lemma TargetWithin(m: Fsm, x: set<nat>, c: Byte, t: nat)
    requires WellFormed(m) && t in TargetsOf(m, x, c)
    ensures t < |m.states|
  {
    var s :| s in x && s < |m.states| && t in Targets(m.states[s].edges, c);
    var i :| 0 <= i < |m.states[s].edges| && c in m.states[s].edges[i].symbols && m.states[s].edges[i].to == t;
  }

  lemma EntryWithin(m: Fsm, buf: seq<nat>, e: Entry, x: set<nat>)
    requires WellFormed(m) && EntryOk(m, buf, e, x)
    ensures forall t :: t in ToSet(buf, e) ==> t < |m.states|
  {
    var c :| c in e.labels;
    assert Hits(m, x, c, ToSet(buf, e));
    forall t | t in ToSet(buf, e)
      ensures t < |m.states|
    {
      TargetWithin(m, x, c, t);
    }
  }

  lemma NarrowedWithin(m: Fsm, buf: seq<nat>, l: seq<Entry>, x: set<nat>, r: seq<Entry>, y: set<nat>, i: nat,
                       hit: Option<nat>, tmp: seq<nat>)
    requires WellFormed(m) && ResultOk(m, buf, l, x) && ResultOk(m, buf, r, y) && i < |l| && (hit.Some? ==> hit.value < |r|)
    requires tmp == ToSet(buf, l[i]) + if hit.Some? then ToSet(buf, r[hit.value]) else []
    ensures forall t :: t in tmp ==> t < |m.states|
  {
    EntryWithin(m, buf, l[i], x);
    if hit.Some? {
      EntryWithin(m, buf, r[hit.value], y);
    }
  }

  /** Sort a list of states by way of the temporary buffer. */
  method SortedDst(tmp: seq<nat>) returns (sorted: seq<nat>)
    requires forall t :: t in tmp ==> t <= MAX_STATE
    ensures SortedOf(sorted, tmp)
  {
    var buf := new nat[|tmp|];
    CopyBack(buf, tmp);
    assert buf[..|tmp|] == tmp;
    assert forall i :: 0 <= i < |tmp| ==> buf[i] == tmp[i] && tmp[i] in tmp;
    var used := SortAndDedupDstBuf(buf, |tmp|);
    sorted := buf[..used];
  }

  lemma FewerLeft(s: set<Byte>, checked: set<Byte>, labels: set<Byte>)
    requires labels != {} && labels <= s - checked
    ensures |s - (checked + labels)| < |s - checked|
  {
    SmallerSet(s - checked, labels);
    assert s - (checked + labels) == (s - checked) - labels;
  }

  lemma SmallerSet(s: set<Byte>, labels: set<Byte>)
    requires labels != {} && labels <= s
    ensures |s - labels| < |s|
  {
    SubsetSize(s - labels, s);
    assert s - labels != s;
  }

  method SkipCleared(cur: seq<Group>, from: nat) returns (base: nat)
    requires from <= |cur| && forall j :: 0 <= j < from ==> cur[j].symbols == {}
    ensures from <= base <= |cur| && (forall j :: 0 <= j < base ==> cur[j].symbols == {})
    ensures base < |cur| ==> cur[base].symbols != {}
    ensures from < |cur| && cur[from].symbols != {} ==> base == from
  {
    base := from;
    while base < |cur| && cur[base].symbols == {}
      invariant from <= base <= |cur| && forall j :: 0 <= j < base ==> cur[j].symbols == {}
    {
      base := base + 1;
    }
  }
}
