/** What `Traced` says of a run determines it: with symbols that are not chosen at random, the
machine and the answers of the callback leave only one list of matches. */
module Traces {
  import opened Automata
  import opened Paths
  import opened Generate

  /** The order of paths is a strict one. */
  lemma BeforeIrreflexive(p: seq<nat>)
    ensures !Before(p, p)
  {
  }

  lemma BeforeTransitive(p: seq<nat>, q: seq<nat>, r: seq<nat>)
    requires Before(p, q) && Before(q, r)
    ensures Before(p, r)
  {
    if p < q {
      if !(q < r) {
        var k :| ForkAt(q, r, k);
        PrefixFork(p, q, r, k);
      }
    } else {
      var k :| ForkAt(p, q, k);
      if q < r {
        assert ForkAt(p, r, k);
      } else {
        var j :| ForkAt(q, r, j);
        ForkFork(p, q, r, k, j);
      }
    }
  }

  lemma PrefixFork(p: seq<nat>, q: seq<nat>, r: seq<nat>, k: nat)
    requires p < q && ForkAt(q, r, k)
    ensures Before(p, r)
  {
    if k < |p| {
      assert p[..k] == q[..k];
      assert ForkAt(p, r, k);
    } else {
      assert p == q[..k][..|p|] == r[..k][..|p|] == r[..|p|];
    }
  }

  lemma ForkFork(p: seq<nat>, q: seq<nat>, r: seq<nat>, k: nat, j: nat)
    requires ForkAt(p, q, k) && ForkAt(q, r, j)
    ensures Before(p, r)
  {
    if k < j {
      assert q[..k] == q[..j][..k] == r[..j][..k] == r[..k] && q[k] == q[..j][k] == r[..j][k];
      assert ForkAt(p, r, k);
    } else {
      assert p[..j] == p[..k][..j] == q[..k][..j] == q[..j] && (j < k ==> p[j] == p[..k][j] == q[..k][j]);
      assert p[j - 1] == p[..k][j - 1] == q[..k][j - 1];
      assert ForkAt(p, r, j);
    }
  }

  /** A path that is emitted next in one run is not passed over in another that went alike so far. */
  lemma NextNoLater(m: Fsm, max: nat, rand: nat -> nat, ms: seq<Match>, ps: seq<seq<nat>>,
                    ms': seq<Match>, ps': seq<seq<nat>>, i: nat)
    requires Traced(m, max, false, rand, ms, ps) && Traced(m, max, false, rand, ms', ps')
    requires i < |ps| && i <= |ps'| && ms[..i] == ms'[..i] && ps[..i] == ps'[..i]
    ensures i < |ps'| && (ps'[i] == ps[i] || Before(ps'[i], ps[i]))
  {
    var p := ps[i];
    assert EmittedAt(m, max, ms, ps, i);
    if p in ps' {
      var j :| 0 <= j < |ps'| && ps'[j] == p;
      NotEarlier(ms, ps, ps', i, j);
    } else if CutOff(ms', ps', p) {
      var j :| 0 <= j < |ms'| && ms'[j].res.Prune? && ps'[j] < p;
      NotCutEarlier(ms, ps, ms', ps', i, j);
      if i < j {
        BeforeTransitive(ps'[i], ps'[j], p);
      }
    } else {
      NotHaltedEarlier(ms, ms', i);
      var j := |ps'| - 1;
      if i < j {
        BeforeTransitive(ps'[i], ps'[j], p);
      }
    }
  }

  lemma NotEarlier(ms: seq<Match>, ps: seq<seq<nat>>, ps': seq<seq<nat>>, i: nat, j: nat)
    requires forall i, j :: 0 <= i < j < |ps| ==> Before(ps[i], ps[j])
    requires i < |ps| && i <= |ps'| && ps[..i] == ps'[..i] && j < |ps'| && ps'[j] == ps[i]
    ensures i <= j
  {
    assert forall k :: 0 <= k < i ==> ps[k] == ps[..i][k] == ps'[k];
    BeforeIrreflexive(ps[i]);
  }

  lemma NotCutEarlier(ms: seq<Match>, ps: seq<seq<nat>>, ms': seq<Match>, ps': seq<seq<nat>>, i: nat, j: nat)
    requires |ms| == |ps| && |ms'| == |ps'| && i < |ps| && i <= |ps'| && !CutOff(ms[..i], ps[..i], ps[i])
    requires ms[..i] == ms'[..i] && ps[..i] == ps'[..i]
    requires j < |ms'| && ms'[j].res.Prune? && ps'[j] < ps[i]
    ensures i <= j
  {
    assert forall k :: 0 <= k < i ==> ms[..i][k] == ms'[k] && ps[..i][k] == ps'[k];
  }

  lemma NotHaltedEarlier(ms: seq<Match>, ms': seq<Match>, i: nat)
    requires OnlyLastHalts(ms, true) && Halts(ms') && i < |ms| && i <= |ms'| && ms[..i] == ms'[..i]
    ensures i < |ms'|
  {
    assert forall k :: 0 <= k < i ==> ms[k] == ms[..i][k] == ms'[k];
  }

  lemma SameWords(m: Fsm, rand: nat -> nat, p: seq<nat>, w: seq<Byte>, w': seq<Byte>)
    requires WordPicked(m, false, rand, p, w) && WordPicked(m, false, rand, p, w')
    ensures w == w'
  {
    forall k | 0 <= k < |w|
      ensures w[k] == w'[k]
    {
      assert PickedAt(m, false, rand, p, w, k) && PickedAt(m, false, rand, p, w', k);
      FirstUnique(Between(m, p[k], p[k + 1]), w[k], w'[k]);
    }
  }

  lemma SameNext(m: Fsm, max: nat, rand: nat -> nat, cb: (seq<Match>, seq<Byte>, nat) -> CbRes,
                 ms: seq<Match>, ps: seq<seq<nat>>, ms': seq<Match>, ps': seq<seq<nat>>, k: nat)
    requires Traced(m, max, false, rand, ms, ps) && Traced(m, max, false, rand, ms', ps')
    requires AnsweredBy(cb, ms) && AnsweredBy(cb, ms') && k < |ms| && k <= |ms'|
    requires ms[..k] == ms'[..k] && ps[..k] == ps'[..k]
    ensures k < |ms'| && ms[k] == ms'[k] && ps[k] == ps'[k]
  {
    NextNoLater(m, max, rand, ms, ps, ms', ps', k);
    NextNoLater(m, max, rand, ms', ps', ms, ps, k);
    NoneBefore(ps[k], ps'[k]);
    assert EmittedAt(m, max, ms, ps, k) && EmittedAt(m, max, ms', ps', k);
    SameWords(m, rand, ps[k], ms[k].word, ms'[k].word);
  }

  lemma NoneBefore(p: seq<nat>, q: seq<nat>)
    ensures !Before(p, q) || !Before(q, p)
  {
    if Before(p, q) && Before(q, p) {
      BeforeTransitive(p, q, p);
      BeforeIrreflexive(p);
    }
  }

  lemma {:induction false} SameSoFar(m: Fsm, max: nat, rand: nat -> nat, cb: (seq<Match>, seq<Byte>, nat) -> CbRes,
                                     ms: seq<Match>, ps: seq<seq<nat>>, ms': seq<Match>, ps': seq<seq<nat>>, i: nat)
    requires Traced(m, max, false, rand, ms, ps) && Traced(m, max, false, rand, ms', ps')
    requires AnsweredBy(cb, ms) && AnsweredBy(cb, ms') && i <= |ms|
    ensures i <= |ms'| && ms[..i] == ms'[..i] && ps[..i] == ps'[..i]
  {
    if i > 0 {
      var k := i - 1;
      SameSoFar(m, max, rand, cb, ms, ps, ms', ps', k);
      SameNext(m, max, rand, cb, ms, ps, ms', ps', k);
      assert ms[..i] == ms[..k] + [ms[k]] && ms'[..i] == ms'[..k] + [ms'[k]];
      assert ps[..i] == ps[..k] + [ps[k]] && ps'[..i] == ps'[..k] + [ps'[k]];
    }
  }

  /** There is only one list of matches. */
  lemma TracedUnique(m: Fsm, max: nat, rand: nat -> nat, cb: (seq<Match>, seq<Byte>, nat) -> CbRes,
                     ms: seq<Match>, ps: seq<seq<nat>>, ms': seq<Match>, ps': seq<seq<nat>>)
    requires Traced(m, max, false, rand, ms, ps) && Traced(m, max, false, rand, ms', ps')
    requires AnsweredBy(cb, ms) && AnsweredBy(cb, ms')
    ensures ms == ms' && ps == ps'
  {
    SameSoFar(m, max, rand, cb, ms, ps, ms', ps', |ms|);
    SameSoFar(m, max, rand, cb, ms', ps', ms, ps, |ms'|);
    assert ms[..|ms|] == ms && ms'[..|ms|] == ms' && ps[..|ms|] == ps && ps'[..|ms|] == ps';
  }
}
