/** The reverse edge index of trimming: the collected edges, sorted by the state they lead to, and
a table of offsets from which the edges to one state can be read. */
module ReverseIndex {

  datatype Edge = Edge(from: nat, to: nat)

  predicate Before(a: Edge, b: Edge) {
    a.to < b.to || (a.to == b.to && a.from <= b.from)
  }

  ghost predicate ByTarget(edges: seq<Edge>) {
    forall i, j :: 0 <= i < j < |edges| ==> edges[i].to <= edges[j].to
  }

  ghost predicate InOrder(edges: seq<Edge>) {
    forall i, j :: 0 <= i < j < |edges| ==> Before(edges[i], edges[j])
  }

  /** Stands for the library's sorting routine. */
  method SortByTarget(edges: seq<Edge>) returns (r: seq<Edge>)
    ensures ByTarget(r) && |r| == |edges| && forall e :: e in r <==> e in edges
  {
    r := [];
    assert edges[..0] == [];
    for i := 0 to |edges|
      invariant InOrder(r) && |r| == i && forall e :: e in r <==> e in edges[..i]
    {
      assert edges[..i + 1] == edges[..i] + [edges[i]];
      var j := 0;
      while j < |r| && Before(r[j], edges[i])
        invariant 0 <= j <= |r| && forall k :: 0 <= k < j ==> Before(r[k], edges[i])
      {
        j := j + 1;
      }
      assert r == r[..j] + r[j..];
      r := r[..j] + [edges[i]] + r[j..];
    }
    assert edges[..|edges|] == edges;
  }

  /** Where the edges to `s` begin. */
  function Base(offsets: seq<nat>, s: nat): (base: nat)
    requires s < |offsets|
  {
    if s == 0 then 0 else offsets[s - 1]
  }

  /** Between its base and its offset a state has exactly the edges that lead to it. */
  ghost predicate Indexed(edges: seq<Edge>, offsets: seq<nat>) {
    && (forall s :: 0 <= s < |offsets| ==> offsets[s] <= |edges|)
    && (forall s, i :: 0 <= s < |offsets| && 0 <= i < |edges| ==>
          (edges[i].to == s <==> Base(offsets, s) <= i < offsets[s]))
  }

  /** Of the first `k` edges, `o` is one past the last that leads to `t`, or zero if there is none. */
  ghost predicate PastLast(edges: seq<Edge>, k: nat, t: nat, o: nat)
    requires k <= |edges|
  {
    && o <= k && (o > 0 ==> edges[o - 1].to == t)
    && (forall j :: o <= j < k ==> edges[j].to != t)
  }

  /** Exactly the edges before `o` lead to `t` or a smaller state. */
  ghost predicate PastAll(edges: seq<Edge>, t: nat, o: nat) {
    o <= |edges| && forall j :: 0 <= j < |edges| ==> (edges[j].to <= t <==> j < o)
  }

  lemma LastIsAll(edges: seq<Edge>, t: nat, o: nat)
    requires ByTarget(edges) && PastLast(edges, |edges|, t, o) && o > 0
    ensures PastAll(edges, t, o)
  {
  }

  lemma GapIsAll(edges: seq<Edge>, t: nat, o: nat)
    requires PastLast(edges, |edges|, t, 0) && (t == 0 ==> o == 0) && (t > 0 ==> PastAll(edges, t - 1, o))
    ensures PastAll(edges, t, o)
  {
  }

  lemma AllIsIndexed(edges: seq<Edge>, offsets: seq<nat>, last: nat)
    requires ByTarget(edges) && 0 < |edges| && edges[|edges| - 1].to == last < |offsets|
    requires forall t :: 0 <= t <= last ==> PastAll(edges, t, offsets[t])
    requires forall t :: last < t < |offsets| ==> PastLast(edges, |edges|, t, offsets[t])
    ensures Indexed(edges, offsets)
  {
    forall s, i | 0 <= s < |offsets| && 0 <= i < |edges|
      ensures edges[i].to == s <==> Base(offsets, s) <= i < offsets[s]
    {
      assert edges[i].to <= last;
      if s <= last {
        assert PastAll(edges, s, offsets[s]);
        assert s > 0 ==> PastAll(edges, s - 1, offsets[s - 1]);
      } else {
        assert PastLast(edges, |edges|, s, offsets[s]);
      }
    }
  }

  /** Fill the table: note where the edges to each state end, then close the gaps up to the last
      state that has any. */
  method BuildOffsets(edges: seq<Edge>, n: nat) returns (offsets: array<nat>)
    requires ByTarget(edges) && 0 < |edges| && forall e :: e in edges ==> e.to < n
    ensures fresh(offsets) && offsets.Length == n && Indexed(edges, offsets[..])
  {
    offsets := new nat[n](_ => 0);
    for i := 0 to |edges|
      invariant forall t :: 0 <= t < n ==> PastLast(edges, i, t, offsets[t])
    {
      offsets[edges[i].to] := i + 1;
    }
    var last := edges[|edges| - 1].to;
    for i := 0 to last + 1
      invariant forall t :: 0 <= t < i ==> PastAll(edges, t, offsets[t])
      invariant forall t :: i <= t < n ==> PastLast(edges, |edges|, t, offsets[t])
    {
      if offsets[i] > 0 {
        LastIsAll(edges, i, offsets[i]);
      } else {
        GapIsAll(edges, i, if i == 0 then 0 else offsets[i - 1]);
        if i > 0 {
          offsets[i] := offsets[i - 1];
        }
      }
    }
    AllIsIndexed(edges, offsets[..], last);
  }
}
