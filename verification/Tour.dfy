/** The search for required characters as a tour of the simple paths from the start, told by the
paths alone: which events it is made of, in which order they come, and how many there are up to
the point where nothing is left to be found. */
module Tour {
  import opened Automata
  import opened Finite
  import opened Paths

  // ----- the order of paths -----

  /** The paths part at level `k`, where `p` goes on to the smaller state. */
  predicate PartAt(p: seq<nat>, q: seq<nat>, k: nat) {
    k < |p| && k < |q| && p[..k] == q[..k] && p[k] < q[k]
  }

  /** `p` comes before `q` in a depth-first walk that takes states in order of their numbers. */
  ghost predicate Earlier(p: seq<nat>, q: seq<nat>) {
    p < q || exists k: nat :: PartAt(p, q, k)
  }

  lemma EarlierTransitive(p: seq<nat>, q: seq<nat>, r: seq<nat>)
    requires Earlier(p, q) && Earlier(q, r)
    ensures Earlier(p, r)
  {
    if p < q {
      if !(q < r) {
        var k: nat :| PartAt(q, r, k);
        PrefixPart(p, q, r, k);
      }
    } else {
      var k: nat :| PartAt(p, q, k);
      if q < r {
        assert PartAt(p, r, k);
      } else {
        var j: nat :| PartAt(q, r, j);
        PartPart(p, q, r, k, j);
      }
    }
  }

  lemma PrefixPart(p: seq<nat>, q: seq<nat>, r: seq<nat>, k: nat)
    requires p < q && PartAt(q, r, k)
    ensures Earlier(p, r)
  {
    if k < |p| {
      assert p[..k] == q[..k];
      assert PartAt(p, r, k);
    } else {
      assert p == q[..k][..|p|] == r[..k][..|p|] == r[..|p|];
    }
  }

  lemma PartPart(p: seq<nat>, q: seq<nat>, r: seq<nat>, k: nat, j: nat)
    requires PartAt(p, q, k) && PartAt(q, r, j)
    ensures Earlier(p, r)
  {
    if k < j {
      assert q[..k] == q[..j][..k] == r[..j][..k] == r[..k] && q[k] == q[..j][k] == r[..j][k];
      assert PartAt(p, r, k);
    } else {
      assert p[..j] == p[..k][..j] == q[..k][..j] == q[..j] && (j < k ==> p[j] == p[..k][j] == q[..k][j]);
      assert PartAt(p, r, j);
    }
  }

  lemma NotBoth(p: seq<nat>, q: seq<nat>)
    ensures !Earlier(p, q) || !Earlier(q, p)
  {
    if Earlier(p, q) && Earlier(q, p) {
      EarlierTransitive(p, q, p);
    }
  }

  /** Of two different paths, one comes first. */
  lemma {:induction false} EarlierTotal(p: seq<nat>, q: seq<nat>, k: nat)
    requires p != q && k <= |p| && k <= |q| && p[..k] == q[..k]
    ensures Earlier(p, q) || Earlier(q, p)
    decreases |p| - k
  {
    if k == |p| {
      assert p == q[..k];
    } else if k == |q| {
      assert q == p[..k];
    } else if p[k] < q[k] {
      assert PartAt(p, q, k);
    } else if q[k] < p[k] {
      assert PartAt(q, p, k);
    } else {
      assert p[..k + 1] == p[..k] + [p[k]] == q[..k + 1];
      EarlierTotal(p, q, k + 1);
    }
  }

  // ----- the paths -----

  /** A path from the start that visits no state twice. */
  ghost predicate SimplePath(m: Fsm, q: seq<nat>) {
    m.start.Some? && IsPath(m, q) && Distinct(q) && q[0] == m.start.value
  }

  /** A simple path from the start to an end state. */
  ghost predicate Accepting(m: Fsm, q: seq<nat>) {
    SimplePath(m, q) && m.states[q[|q| - 1]].end
  }

  // ----- the events -----

  /** An edge from the end of a path to a state is looked at, or the end of a path is left. */
  datatype Event = Try(path: seq<nat>, to: nat) | Back(path: seq<nat>)

  ghost predicate IsEvent(m: Fsm, e: Event) {
    SimplePath(m, e.path) && (e.Try? ==> Joined(m, e.path[|e.path| - 1], e.to))
  }

  /** The event comes after the arrival at the end of `p`. */
  ghost predicate ComesAfter(p: seq<nat>, e: Event) {
    match e
    case Try(q, v) => Earlier(p, q + [v])
    case Back(q) => q <= p || Earlier(p, q)
  }

  /** Some accepting path up to `p` can do without `c`. */
  ghost predicate AvoidedUpTo(m: Fsm, p: seq<nat>, c: Byte) {
    exists a :: Accepting(m, a) && (a == p || Earlier(a, p)) && !Needs(m, a, c)
  }

  /** There is no symbol that all accepting paths up to `p` need. */
  ghost predicate Settles(m: Fsm, p: seq<nat>) {
    Accepting(m, p) && forall c: Byte :: AvoidedUpTo(m, p, c)
  }

  /** The events of the tour: those that come after no path that settles the question. */
  ghost predicate Happens(m: Fsm, e: Event) {
    IsEvent(m, e) && forall p :: Settles(m, p) ==> !ComesAfter(p, e)
  }

  // ----- how many there are -----

  ghost function Sequences(n: nat, length: nat): (r: set<seq<nat>>)
    ensures forall q: seq<nat> :: |q| == length && (forall k :: 0 <= k < |q| ==> q[k] < n) ==> q in r
  {
    if length == 0 then {[]}
    else
      var r := set q, v | q in Sequences(n, length - 1) && v in Below(n) :: q + [v];
      assert forall q: seq<nat> :: |q| == length && (forall k :: 0 <= k < |q| ==> q[k] < n) ==> q in r by {
        forall q: seq<nat> | |q| == length && forall k :: 0 <= k < |q| ==> q[k] < n
          ensures q in r
        {
          assert q == q[..length - 1] + [q[length - 1]];
        }
      }
      r
  }

  ghost function SequencesUpTo(n: nat, length: nat): (r: set<seq<nat>>)
    ensures forall q: seq<nat> :: |q| <= length && (forall k :: 0 <= k < |q| ==> q[k] < n) ==> q in r
  {
    if length == 0 then Sequences(n, 0) else SequencesUpTo(n, length - 1) + Sequences(n, length)
  }

  /** All events there can be. */
  ghost function AllEvents(m: Fsm): (es: set<Event>)
    requires WellFormed(m)
    ensures forall e :: e in es <==> IsEvent(m, e)
  {
    var qs := SequencesUpTo(|m.states|, |m.states|);
    var tries := set q, v | q in qs && v in Below(|m.states|) && IsEvent(m, Try(q, v)) :: Try(q, v);
    var backs := set q | q in qs && IsEvent(m, Back(q)) :: Back(q);
    assert forall e :: IsEvent(m, e) ==> e in tries + backs by {
      forall e | IsEvent(m, e)
        ensures e in tries + backs
      {
        DistinctBelow(e.path, |m.states|);
        if e.Try? {
          var i := JoiningGroup(m, e.path[|e.path| - 1], e.to);
        }
      }
    }
    tries + backs
  }

  ghost function TourEvents(m: Fsm): (es: set<Event>)
    requires WellFormed(m)
    ensures forall e :: e in es <==> Happens(m, e)
  {
    set e | e in AllEvents(m) && Happens(m, e)
  }

  /** The number of steps of the search. */
  ghost function StepCount(m: Fsm): (n: nat)
    requires WellFormed(m)
  {
    |TourEvents(m)|
  }

  /** If one settling path comes before all others, it alone decides what happens. */
  lemma FirstDecides(m: Fsm, p: seq<nat>, e: Event)
    requires Settles(m, p) && forall q :: Settles(m, q) ==> q == p || Earlier(p, q)
    requires IsEvent(m, e)
    ensures Happens(m, e) <==> !ComesAfter(p, e)
  {
    if !ComesAfter(p, e) {
      forall q | Settles(m, q)
        ensures !ComesAfter(q, e)
      {
        if q != p && ComesAfter(q, e) {
          AfterLater(p, q, e);
        }
      }
    }
  }

  lemma AfterLater(p: seq<nat>, q: seq<nat>, e: Event)
    requires Earlier(p, q) && ComesAfter(q, e)
    ensures ComesAfter(p, e)
  {
    match e
    case Try(r, v) => EarlierTransitive(p, q, r + [v]);
    case Back(r) =>
      if Earlier(q, r) {
        EarlierTransitive(p, q, r);
      } else {
        PrefixOfLater(p, q, r);
      }
  }

  lemma PrefixOfLater(p: seq<nat>, q: seq<nat>, r: seq<nat>)
    requires Earlier(p, q) && r <= q
    ensures r <= p || Earlier(p, r)
  {
    if p < q {
      if |r| <= |p| {
        assert r == q[..|r|] == p[..|r|];
      } else {
        assert p == q[..|p|] == r[..|p|];
      }
    } else {
      var k: nat :| PartAt(p, q, k);
      if |r| <= k {
        assert r == q[..k][..|r|] == p[..k][..|r|] == p[..|r|];
      } else {
        assert r[..k] == q[..k];
        assert PartAt(p, r, k);
      }
    }
  }
}
