/** A hash table with linear probing: buckets that hold IDs, each reachable from the hash of its
key. Interned state sets and end metadata are both found this way. */
module Buckets {
  import opened Automata
  import opened Finite
  import opened Guard
  import opened Probing

  /** Every bucket in use holds one of the IDs `held`, none twice. */
  ghost predicate Holds(htab: seq<nat>, held: set<nat>) {
    && (forall b :: 0 <= b < |htab| && htab[b] != NO_ID ==> htab[b] in held)
    && (forall a, b :: 0 <= a < b < |htab| && htab[a] != NO_ID ==> htab[a] != htab[b])
  }

  /** ID `x` is found at probe `d` of the hash of its key, with no gap before it. */
  ghost predicate FoundAt<K>(hash: K -> nat, keys: seq<K>, htab: seq<nat>, x: nat, d: nat)
    requires x < |keys| && |htab| > 0
  {
    var h := hash(keys[x]);
    htab[Slot(h, d, |htab|)] == x && forall e: nat :: e < d ==> htab[Slot(h, e, |htab|)] != NO_ID
  }

  ghost predicate Findable<K>(hash: K -> nat, keys: seq<K>, htab: seq<nat>, x: nat)
    requires x < |keys| && |htab| > 0
  {
    exists d: nat :: FoundAt(hash, keys, htab, x, d)
  }

  /** The table holds exactly the IDs `held`, all of them findable. */
  ghost predicate TableOf<K>(hash: K -> nat, keys: seq<K>, htab: seq<nat>, held: set<nat>) {
    && 0 < |htab| && |keys| < NO_ID
    && (forall x :: x in held ==> x < |keys|)
    && (forall b {:trigger Look(b)} :: Look(b) ==>
          Holds(htab, held) && forall x :: x in held ==> Findable(hash, keys, htab, x))
  }

  lemma EmptyTable<K>(hash: K -> nat, keys: seq<K>, htab: seq<nat>)
    requires 0 < |htab| && |keys| < NO_ID && forall b :: 0 <= b < |htab| ==> htab[b] == NO_ID
    ensures TableOf(hash, keys, htab, {})
  {
  }

  lemma InsertKeepsHolding(htab: seq<nat>, held: set<nat>, x: nat, b: nat)
    requires Holds(htab, held) && b < |htab| && htab[b] == NO_ID && x !in held && x < NO_ID
    ensures Holds(htab[b := x], held + {x})
  {
  }

  lemma InsertKeepsFound<K>(hash: K -> nat, keys: seq<K>, htab: seq<nat>, y: nat, x: nat, b: nat)
    requires b < |htab| && htab[b] == NO_ID && x < NO_ID
    requires y < |keys| < NO_ID && Findable(hash, keys, htab, y)
    ensures Findable(hash, keys, htab[b := x], y)
  {
    var e: nat :| FoundAt(hash, keys, htab, y, e);
    assert FoundAt(hash, keys, htab[b := x], y, e);
  }

  /** A new ID goes into the first gap of its probe sequence. */
  lemma InsertInGap<K>(hash: K -> nat, keys: seq<K>, htab: seq<nat>, held: set<nat>, x: nat, d: nat)
    requires TableOf(hash, keys, htab, held) && x < |keys| && x !in held
    requires htab[Slot(hash(keys[x]), d, |htab|)] == NO_ID
    requires forall e: nat :: e < d ==> htab[Slot(hash(keys[x]), e, |htab|)] != NO_ID
    ensures TableOf(hash, keys, htab[Slot(hash(keys[x]), d, |htab|) := x], held + {x})
  {
    assert Look(true);
    var b := Slot(hash(keys[x]), d, |htab|);
    InsertKeepsHolding(htab, held, x, b);
    assert FoundAt(hash, keys, htab[b := x], x, d);
    forall y | y in held
      ensures Findable(hash, keys, htab[b := x], y)
    {
      InsertKeepsFound(hash, keys, htab, y, x, b);
    }
  }

  /** The table is unaffected by keys that come after those it holds. */
  lemma MoreKeys<K>(hash: K -> nat, keys: seq<K>, htab: seq<nat>, held: set<nat>, k: K)
    requires TableOf(hash, keys, htab, held) && |keys| + 1 < NO_ID
    ensures TableOf(hash, keys + [k], htab, held)
  {
    assert Look(true);
    forall y | y in held
      ensures Findable(hash, keys + [k], htab, y)
    {
      var e: nat :| FoundAt(hash, keys, htab, y, e);
      assert (keys + [k])[y] == keys[y];
      assert FoundAt(hash, keys + [k], htab, y, e);
    }
  }

  lemma DistinctWithin(s: seq<nat>, held: set<nat>)
    requires Distinct(s) && forall i :: 0 <= i < |s| ==> s[i] in held
    ensures |s| <= |held|
  {
    ElementsSize(s);
    SubsetSize(Elements(s), held);
  }

  /** A table with fewer IDs than buckets has a gap, and probing comes to it. */
  lemma SomeGap<K>(hash: K -> nat, keys: seq<K>, htab: seq<nat>, held: set<nat>, h: nat) returns (d: nat)
    requires TableOf(hash, keys, htab, held) && |held| < |htab|
    ensures d < |htab| && htab[Slot(h, d, |htab|)] == NO_ID
  {
    assert Look(true);
    if forall b :: 0 <= b < |htab| ==> htab[b] != NO_ID {
      DistinctWithin(htab, held);
      assert false;
    }
    var b :| 0 <= b < |htab| && htab[b] == NO_ID;
    d := SlotReaches(h, b, |htab|);
  }

  /** Probe `e` for key `k` hits a bucket in use for another key. */
  ghost predicate Mismatch<K>(hash: K -> nat, keys: seq<K>, htab: seq<nat>, k: K, e: nat)
    requires |htab| > 0
  {
    var y := htab[Slot(hash(k), e, |htab|)];
    y != NO_ID && (y < |keys| ==> keys[y] != k)
  }

  /** A gap before any match proves that the key is new. */
  lemma GapMeansNew<K>(hash: K -> nat, keys: seq<K>, htab: seq<nat>, held: set<nat>, k: K, d: nat)
    requires TableOf(hash, keys, htab, held)
    requires htab[Slot(hash(k), d, |htab|)] == NO_ID
    requires forall e: nat :: e < d ==> Mismatch(hash, keys, htab, k, e)
    ensures forall y :: y in held ==> keys[y] != k
  {
    assert Look(true);
    forall y | y in held
      ensures keys[y] != k
    {
      var e: nat :| FoundAt(hash, keys, htab, y, e);
      assert e < d ==> Mismatch(hash, keys, htab, k, e);
    }
  }

  lemma HeldBelow<K>(hash: K -> nat, keys: seq<K>, htab: seq<nat>, held: set<nat>, b: nat)
    requires TableOf(hash, keys, htab, held) && b < |htab|
    ensures htab[b] != NO_ID ==> htab[b] in held
  {
    assert Look(true);
  }
}
