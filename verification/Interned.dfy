/** Interned state sets: each list of states gets an ID of its own, by way of a hash table with
linear probing over descriptors into one shared buffer. Lists of a single state are not stored;
their ID is the state itself with bit 63 set. */
module Interned {
  import opened Automata
  import opened Finite
  import opened Guard
  import opened Probing
  import opened Buckets

  const SINGLETON_BIT: nat := 0x8000_0000_0000_0000

  /** One descriptor: where the list is, and the set once it has been asked for. */
  datatype SetInfo = SetInfo(bufOffset: nat, length: nat, ss: Option<set<nat>>)

  /** The list that an ID stands for. */
  function Denotes(lists: seq<seq<nat>>, id: nat): seq<nat> {
    if id >= SINGLETON_BIT then [id - SINGLETON_BIT] else if id < |lists| then lists[id] else []
  }

  ghost predicate IsId(lists: seq<seq<nat>>, id: nat) {
    id >= SINGLETON_BIT || id < |lists|
  }

  /** No list is stored twice, and none with fewer than two entries. */
  ghost predicate ListsOk(lists: seq<seq<nat>>) {
    |lists| < NO_ID && Distinct(lists) && forall i :: 0 <= i < |lists| ==> |lists[i]| >= 2
  }

  /** Two IDs are the same exactly when they stand for the same list. */
  lemma SameIdSameList(lists: seq<seq<nat>>, a: nat, b: nat)
    requires ListsOk(lists) && IsId(lists, a) && IsId(lists, b)
    ensures a == b <==> Denotes(lists, a) == Denotes(lists, b)
  {
    if a >= SINGLETON_BIT && b >= SINGLETON_BIT && Denotes(lists, a) == Denotes(lists, b) {
      assert [a - SINGLETON_BIT][0] == [b - SINGLETON_BIT][0];
    }
  }

  // ----- growing the hash table -----

  /** All IDs of the old table that have been moved to the new one. */
  ghost predicate Moved(old': seq<nat>, i: nat, held: set<nat>) {
    i <= |old'| && forall x :: x in held <==> x != NO_ID && x in old'[..i]
  }

  lemma MovedStep(hash: seq<nat> -> nat, keys: seq<seq<nat>>, o: seq<nat>, held: set<nat>, i: nat, moved: set<nat>)
    requires TableOf(hash, keys, o, held) && Moved(o, i, moved) && i < |o|
    ensures o[i] == NO_ID ==> Moved(o, i + 1, moved)
    ensures o[i] != NO_ID ==> o[i] in held && o[i] < |keys| && o[i] !in moved && Moved(o, i + 1, moved + {o[i]})
  {
    assert Look(true);
    assert o[..i + 1] == o[..i] + [o[i]];
  }

  lemma AllMoved(hash: seq<nat> -> nat, keys: seq<seq<nat>>, o: seq<nat>, held: set<nat>, moved: set<nat>)
    requires TableOf(hash, keys, o, held) && Moved(o, |o|, moved) && moved <= held
    ensures moved == held
  {
    assert Look(true);
    assert o[..|o|] == o;
    forall x | x in held
      ensures x in moved
    {
      var d: nat :| FoundAt(hash, keys, o, x, d);
      assert o[Slot(hash(keys[x]), d, |o|)] == x;
    }
  }

  /** Put an ID with hash `h` into the first gap. */
  method MoveId(hash: seq<nat> -> nat, ghost keys: seq<seq<nat>>, ntab: array<nat>, id: nat, h: nat, ghost moved: set<nat>)
    requires TableOf(hash, keys, ntab[..], moved) && |moved| < ntab.Length && id < |keys| && id !in moved && h == hash(keys[id])
    modifies ntab
    ensures TableOf(hash, keys, ntab[..], moved + {id})
  {
    ghost var gap := SomeGap(hash, keys, ntab[..], moved, h);
    ghost var t := ntab[..];
    var i, b := 0, Slot(h, 0, ntab.Length);
    while ntab[b] != NO_ID
      invariant 0 <= i <= gap && b == Slot(h, i, ntab.Length)
      invariant forall e: nat :: e < i ==> t[Slot(h, e, ntab.Length)] != NO_ID
      decreases gap - i
    {
      i := i + 1;
      b := Slot(h, i, ntab.Length);
    }
    InsertInGap(hash, keys, t, moved, id, i);
    ntab[b] := id;
  }

  // ----- the pool -----

  /** The descriptor says where in the buffer the list is. */
  ghost predicate Stored(buf: seq<nat>, s: SetInfo, l: seq<nat>) {
    && s.bufOffset + s.length <= |buf| && buf[s.bufOffset..s.bufOffset + s.length] == l
    && (s.ss.Some? ==> s.ss.value == Elements(l))
  }

  ghost predicate AllStored(buf: seq<nat>, sets: seq<SetInfo>, lists: seq<seq<nat>>) {
    && |sets| == |lists| < NO_ID
    && (forall b {:trigger Look(b)} :: Look(b) ==>
          ListsOk(lists) && forall i :: 0 <= i < |lists| ==> Stored(buf, sets[i], lists[i]))
  }

  lemma StoredAt(buf: seq<nat>, sets: seq<SetInfo>, lists: seq<seq<nat>>, id: nat)
    requires AllStored(buf, sets, lists) && id < |lists|
    ensures Stored(buf, sets[id], lists[id]) && ListsOk(lists)
  {
    assert Look(true);
  }

  lemma StoreMore(buf: seq<nat>, sets: seq<SetInfo>, lists: seq<seq<nat>>, l: seq<nat>)
    requires AllStored(buf, sets, lists) && |lists| + 1 < NO_ID && |l| >= 2
    requires forall y :: y in Below(|lists|) ==> lists[y] != l
    ensures AllStored(buf + l, sets + [SetInfo(|buf|, |l|, None)], lists + [l])
  {
    var b, ss, ls := buf + l, sets + [SetInfo(|buf|, |l|, None)], lists + [l];
    forall i | 0 <= i < |ls|
      ensures Stored(b, ss[i], ls[i])
    {
      if i < |lists| {
        StoredAt(buf, sets, lists, i);
        StoredLonger(buf, l, sets[i], lists[i]);
      } else {
        assert b[|buf|..|buf| + |l|] == l;
      }
    }
    StoredLists(buf, sets, lists);
    MoreListsOk(lists, l);
  }

  lemma StoredLists(buf: seq<nat>, sets: seq<SetInfo>, lists: seq<seq<nat>>)
    requires AllStored(buf, sets, lists)
    ensures ListsOk(lists)
  {
    assert Look(true);
  }

  lemma MoreListsOk(lists: seq<seq<nat>>, l: seq<nat>)
    requires ListsOk(lists) && |lists| + 1 < NO_ID && |l| >= 2
    requires forall y :: y in Below(|lists|) ==> lists[y] != l
    ensures ListsOk(lists + [l])
  {
    NewIsDistinct(lists, l);
  }

  lemma StoredLonger(buf: seq<nat>, more: seq<nat>, s: SetInfo, l: seq<nat>)
    requires Stored(buf, s, l)
    ensures Stored(buf + more, s, l)
  {
    assert (buf + more)[s.bufOffset..s.bufOffset + s.length] == buf[s.bufOffset..s.bufOffset + s.length];
  }

  /** Remembering the set of a list changes nothing else. */
  lemma StoreSet(buf: seq<nat>, sets: seq<SetInfo>, lists: seq<seq<nat>>, id: nat)
    requires AllStored(buf, sets, lists) && id < |lists|
    ensures AllStored(buf, sets[id := sets[id].(ss := Some(Elements(lists[id])))], lists)
  {
    assert Look(true);
    var ss := sets[id := sets[id].(ss := Some(Elements(lists[id])))];
    forall i | 0 <= i < |lists|
      ensures Stored(buf, ss[i], lists[i])
    {
      assert Stored(buf, sets[i], lists[i]);
    }
  }

  method CopyTo(a: array<nat>, at: nat, l: seq<nat>)
    requires at + |l| <= a.Length
    modifies a
    ensures a[..at + |l|] == old(a[..at]) + l
  {
    ghost var before := a[..at];
    for i := 0 to |l|
      invariant a[..at + i] == before + l[..i]
    {
      a[at + i] := l[i];
      assert l[..i + 1] == l[..i] + [l[i]];
      assert a[..at + (i + 1)] == a[..at + i] + [l[i]];
    }
    assert l[..|l|] == l;
  }

  /** The key of a descriptor. */
  function Key(buf: seq<nat>, s: SetInfo): seq<nat> {
    if s.bufOffset + s.length <= |buf| then buf[s.bufOffset..s.bufOffset + s.length] else []
  }

  /** A table of twice the size with every ID of the old one. */
  method Rehashed(hash: seq<nat> -> nat, ghost lists: seq<seq<nat>>, buf: seq<nat>, sets: seq<SetInfo>, buckets: seq<nat>)
    returns (ntab: array<nat>)
    requires Pooled(hash, lists, buf, sets, buckets) && |lists| < 2 * |buckets|
    ensures fresh(ntab) && ntab.Length == 2 * |buckets| && Pooled(hash, lists, buf, sets, ntab[..])
  {
    PooledOpen(hash, lists, buf, sets, buckets);
    ghost var held := Below(|lists|);
    ntab := new nat[2 * |buckets|](_ => NO_ID);
    EmptyTable(hash, lists, ntab[..]);
    ghost var moved: set<nat> := {};
    for i := 0 to |buckets|
      invariant Moved(buckets, i, moved) && moved <= held && TableOf(hash, lists, ntab[..], moved)
    {
      var id := buckets[i];
      MovedStep(hash, lists, buckets, held, i, moved);
      if id != NO_ID {
        SubsetSize(moved, held);
        StoredAt(buf, sets, lists, id);
        MoveId(hash, lists, ntab, id, hash(Key(buf, sets[id])), moved);
        moved := moved + {id};
      }
    }
    AllMoved(hash, lists, buckets, held, moved);
  }

  /** Follow the probe sequence of `l` past buckets in use for other lists. */
  method Probe(hash: seq<nat> -> nat, ghost lists: seq<seq<nat>>, buf: seq<nat>, sets: seq<SetInfo>, buckets: seq<nat>, l: seq<nat>)
    returns (b: nat, ghost d: nat)
    requires Pooled(hash, lists, buf, sets, buckets) && |lists| < |buckets|
    ensures b < |buckets| && b == Slot(hash(l), d, |buckets|)
    ensures buckets[b] != NO_ID ==> buckets[b] < |lists| && lists[buckets[b]] == l
    ensures forall e: nat :: e < d ==> Mismatch(hash, lists, buckets, l, e)
  {
    PooledOpen(hash, lists, buf, sets, buckets);
    var h := hash(l);
    ghost var gap := SomeGap(hash, lists, buckets, Below(|lists|), h);
    var i := 0;
    b := Slot(h, 0, |buckets|);
    while buckets[b] != NO_ID
      invariant 0 <= i <= gap && b == Slot(h, i, |buckets|)
      invariant forall e: nat :: e < i ==> Mismatch(hash, lists, buckets, l, e)
      decreases gap - i
    {
      HeldBelow(hash, lists, buckets, Below(|lists|), b);
      StoredAt(buf, sets, lists, buckets[b]);
      if sets[buckets[b]].length == |l| && Key(buf, sets[buckets[b]]) == l {
        return b, i;
      }
      assert Mismatch(hash, lists, buckets, l, i);
      i := i + 1;
      b := Slot(h, i, |buckets|);
    }
    d := i;
  }

  /** Buffer, descriptors and table together hold the lists. */
  ghost predicate Pooled(hash: seq<nat> -> nat, lists: seq<seq<nat>>, buf: seq<nat>, sets: seq<SetInfo>, buckets: seq<nat>) {
    && |sets| == |lists| < NO_ID && 0 < |buckets|
    && (forall b {:trigger Look(b)} :: Look(b) ==>
          AllStored(buf, sets, lists) && TableOf(hash, lists, buckets, Below(|lists|)))
  }

  lemma PooledOpen(hash: seq<nat> -> nat, lists: seq<seq<nat>>, buf: seq<nat>, sets: seq<SetInfo>, buckets: seq<nat>)
    requires Pooled(hash, lists, buf, sets, buckets)
    ensures AllStored(buf, sets, lists) && TableOf(hash, lists, buckets, Below(|lists|))
  {
    assert Look(true);
  }

  lemma PooledMore(hash: seq<nat> -> nat, lists: seq<seq<nat>>, buf: seq<nat>, sets: seq<SetInfo>, buckets: seq<nat>,
                   l: seq<nat>, d: nat)
    requires Pooled(hash, lists, buf, sets, buckets) && |lists| + 1 < NO_ID && |l| >= 2
    requires buckets[Slot(hash(l), d, |buckets|)] == NO_ID
    requires forall e: nat :: e < d ==> Mismatch(hash, lists, buckets, l, e)
    ensures Pooled(hash, lists + [l], buf + l, sets + [SetInfo(|buf|, |l|, None)],
                   buckets[Slot(hash(l), d, |buckets|) := |lists|])
  {
    assert Look(true);
    EnterNew(hash, lists, buckets, l, d);
    StoreMore(buf, sets, lists, l);
  }

  class Pool {
    const hash: seq<nat> -> nat
    var buf: array<nat>
    var bufUsed: nat
    var sets: array<SetInfo>
    var setsUsed: nat
    var buckets: array<nat>
    var htabUsed: nat
    /** The lists interned so far, by ID. */
    ghost var lists: seq<seq<nat>>

    ghost predicate Valid()
      reads this, buf, sets, buckets
    {
      && 0 < buf.Length && bufUsed <= buf.Length && 0 < sets.Length && setsUsed <= sets.Length
      && Pooled(hash, lists, buf[..bufUsed], sets[..setsUsed], buckets[..])
      && buf != buckets && setsUsed == htabUsed == |lists|
      && 4 <= buckets.Length && htabUsed <= buckets.Length / 2 + 1
    }

    constructor (hash: seq<nat> -> nat)
      ensures Valid() && lists == [] && this.hash == hash
      ensures fresh(buf) && fresh(sets) && fresh(buckets)
    {
      this.hash := hash;
      buf := new nat[64];
      sets := new SetInfo[8](_ => SetInfo(0, 0, None));
      buckets := new nat[256](_ => NO_ID);
      bufUsed, setsUsed, htabUsed, lists := 0, 0, 0, [];
      new;
      EmptyTable(hash, [], buckets[..]);
      assert Below(0) == {};
    }

    /** Double the table, moving every ID. */
    method GrowHtab()
      requires Valid()
      modifies this`buckets
      ensures Valid() && fresh(buckets) && buckets.Length == 2 * old(buckets.Length)
    {
      buckets := Rehashed(hash, lists, buf[..bufUsed], sets[..setsUsed], buckets[..]);
    }

    /** Append a descriptor, growing as needed. */
    method AddDescriptor(s: SetInfo)
      requires 0 < sets.Length && setsUsed <= sets.Length
      modifies this`sets, this`setsUsed, sets
      ensures setsUsed == old(setsUsed) + 1 <= sets.Length && sets[..setsUsed] == old(sets[..setsUsed]) + [s]
      ensures sets == old(sets) || fresh(sets)
    {
      ghost var before := sets[..setsUsed];
      if setsUsed == sets.Length {
        var nsets := new SetInfo[2 * sets.Length](_ => SetInfo(0, 0, None));
        forall i | 0 <= i < setsUsed {
          nsets[i] := sets[i];
        }
        sets := nsets;
        assert sets[..setsUsed] == before;
      }
      sets[setsUsed] := s;
      setsUsed := setsUsed + 1;
      assert sets[..setsUsed] == before + [s];
    }

    /** Make room for `more` states in the buffer. */
    method ReserveBuf(more: nat)
      requires 0 < buf.Length && bufUsed <= buf.Length
      modifies this`buf
      ensures bufUsed + more <= buf.Length && buf[..bufUsed] == old(buf[..bufUsed])
      ensures buf == old(buf) || fresh(buf)
    {
      if bufUsed + more > buf.Length {
        var ceil := 2 * buf.Length;
        while ceil < bufUsed + more
          invariant ceil >= 2 * buf.Length
        {
          ceil := 2 * ceil;
        }
        var nbuf := new nat[ceil](_ => 0);
        forall i | 0 <= i < bufUsed {
          nbuf[i] := buf[i];
        }
        buf := nbuf;
      }
    }

    /** Copy a list to the end of the buffer. */
    method AppendList(l: seq<nat>)
      requires 0 < buf.Length && bufUsed <= buf.Length
      modifies this`buf, this`bufUsed, buf
      ensures bufUsed <= buf.Length && buf[..bufUsed] == old(buf[..bufUsed]) + l
      ensures buf == old(buf) || fresh(buf)
    {
      ReserveBuf(|l|);
      CopyTo(buf, bufUsed, l);
      bufUsed := bufUsed + |l|;
    }

    /** Store a list that is not there yet, and enter it in bucket `b`. */
    method Store(l: seq<nat>, b: nat, ghost d: nat) returns (id: nat)
      requires Valid() && |lists| + 1 < NO_ID && |l| >= 2 && b < buckets.Length && buckets[b] == NO_ID
      requires htabUsed <= buckets.Length / 2 && b == Slot(hash(l), d, buckets.Length)
      requires forall e: nat :: e < d ==> Mismatch(hash, lists, buckets[..], l, e)
      modifies this, buf, sets, buckets
      ensures Valid() && buckets == old(buckets) && (buf == old(buf) || fresh(buf)) && (sets == old(sets) || fresh(sets))
      ensures id == |old(lists)| && lists == old(lists) + [l]
    {
      ghost var bs, ss, t := buf[..bufUsed], sets[..setsUsed], buckets[..];
      PooledMore(hash, lists, bs, ss, t, l, d);
      id := setsUsed;
      AddDescriptor(SetInfo(bufUsed, |l|, None));
      AppendList(l);
      assert buckets[..] == t;
      buckets[b] := id;
      assert buckets[..] == t[b := id];
      htabUsed := htabUsed + 1;
      lists := lists + [l];
    }

    /** Are there no IDs left to give out? */
    method IsFull() returns (full: bool)
      requires Valid()
      ensures full <==> |lists| + 1 >= NO_ID
    {
      full := setsUsed + 1 >= NO_ID;
    }

    /** The ID of a list: the one it has, or a new one. IDs given out before keep their lists. */
    method InternSet(states: seq<nat>) returns (id: nat)
      requires Valid() && states != [] && |lists| + 1 < NO_ID
      modifies this, buf, sets, buckets
      ensures Valid() && (buf == old(buf) || fresh(buf)) && (sets == old(sets) || fresh(sets)) &&
              (buckets == old(buckets) || fresh(buckets))
      ensures IsId(lists, id) && Denotes(lists, id) == states
      ensures lists == if |states| >= 2 && states !in old(lists) then old(lists) + [states] else old(lists)
    {
      if |states| == 1 {
        return states[0] + SINGLETON_BIT;
      }
      if htabUsed > buckets.Length / 2 {
        GrowHtab();
      }
      var b;
      ghost var d;
      b, d := Probe(hash, lists, buf[..bufUsed], sets[..setsUsed], buckets[..], states);
      if buckets[b] != NO_ID {
        id := buckets[b];
      } else {
        NotStored(hash, lists, buf[..bufUsed], sets[..setsUsed], buckets[..], states, d);
        id := Store(states, b, d);
      }
    }

    /** The set that an ID stands for; it is built once and kept. */
    method GetStateSet(id: nat) returns (ss: set<nat>)
      requires Valid() && IsId(lists, id)
      modifies sets
      ensures Valid() && ss == Elements(Denotes(lists, id))
    {
      if id >= SINGLETON_BIT {
        ss := BuildSet([id - SINGLETON_BIT]);
      } else {
        ss := StoredSet(id);
      }
    }

    method StoredSet(id: nat) returns (ss: set<nat>)
      requires Valid() && id < |lists|
      modifies sets
      ensures Valid() && ss == Elements(lists[id])
    {
      ghost var before := sets[..setsUsed];
      PooledAt(hash, lists, buf[..bufUsed], before, buckets[..], id);
      var s := sets[id];
      if s.ss.Some? {
        return s.ss.value;
      }
      ss := BuildSet(Key(buf[..bufUsed], s));
      PooledSet(hash, lists, buf[..bufUsed], before, buckets[..], id, s.(ss := Some(ss)));
      sets[id] := s.(ss := Some(ss));
      assert sets[..setsUsed] == before[id := s.(ss := Some(ss))];
    }
  }

  method BuildSet(l: seq<nat>) returns (ss: set<nat>)
    ensures ss == Elements(l)
  {
    ss := {};
    for i := 0 to |l|
      invariant ss == set j | 0 <= j < i :: l[j]
    {
      ss := ss + {l[i]};
    }
  }

  lemma NotStored(hash: seq<nat> -> nat, lists: seq<seq<nat>>, buf: seq<nat>, sets: seq<SetInfo>, buckets: seq<nat>,
                  l: seq<nat>, d: nat)
    requires Pooled(hash, lists, buf, sets, buckets)
    requires buckets[Slot(hash(l), d, |buckets|)] == NO_ID
    requires forall e: nat :: e < d ==> Mismatch(hash, lists, buckets, l, e)
    ensures l !in lists
  {
    assert Look(true);
    GapMeansNew(hash, lists, buckets, Below(|lists|), l, d);
    forall i | 0 <= i < |lists|
      ensures lists[i] != l
    {
      assert i in Below(|lists|);
    }
  }

  lemma PooledAt(hash: seq<nat> -> nat, lists: seq<seq<nat>>, buf: seq<nat>, sets: seq<SetInfo>, buckets: seq<nat>, id: nat)
    requires Pooled(hash, lists, buf, sets, buckets) && id < |lists|
    ensures Key(buf, sets[id]) == lists[id]
    ensures sets[id].ss.Some? ==> sets[id].ss.value == Elements(lists[id])
  {
    assert Look(true);
    StoredAt(buf, sets, lists, id);
  }

  lemma PooledSet(hash: seq<nat> -> nat, lists: seq<seq<nat>>, buf: seq<nat>, sets: seq<SetInfo>, buckets: seq<nat>, id: nat,
                  s: SetInfo)
    requires Pooled(hash, lists, buf, sets, buckets) && id < |lists| && s == sets[id].(ss := Some(Elements(lists[id])))
    ensures Pooled(hash, lists, buf, sets[id := s], buckets)
  {
    assert Look(true);
    StoreSet(buf, sets, lists, id);
  }

  // ----- the history of a pool -----

  lemma PooledListsOk(hash: seq<nat> -> nat, lists: seq<seq<nat>>, buf: seq<nat>, sets: seq<SetInfo>, buckets: seq<nat>)
    requires Pooled(hash, lists, buf, sets, buckets)
    ensures ListsOk(lists)
  {
    assert Look(true);
  }

  /** An ID means the same in every later state of the pool. */
  lemma DenotesLater(lists: seq<seq<nat>>, more: seq<seq<nat>>, id: nat)
    requires IsId(lists, id) && lists <= more
    ensures IsId(more, id) && Denotes(more, id) == Denotes(lists, id)
  {
  }

  /** Interning any lists one after another in one pool: two of them get the same ID exactly
      when they are equal, and at the end every ID reads back as its list. */
  method InternAll(pool: Pool, inputs: seq<seq<nat>>) returns (ids: seq<nat>)
    requires pool.Valid() && |pool.lists| + |inputs| < NO_ID && forall i :: 0 <= i < |inputs| ==> inputs[i] != []
    modifies pool, pool.buf, pool.sets, pool.buckets
    ensures pool.Valid() && |ids| == |inputs|
    ensures forall i :: 0 <= i < |ids| ==> IsId(pool.lists, ids[i]) && Denotes(pool.lists, ids[i]) == inputs[i]
    ensures forall i, j :: 0 <= i < |ids| && 0 <= j < |ids| ==> (ids[i] == ids[j] <==> inputs[i] == inputs[j])
  {
    ids := [];
    for i := 0 to |inputs|
      invariant pool.Valid() && |pool.lists| + |inputs| - i < NO_ID && |ids| == i
      invariant (pool.buf == old(pool.buf) || fresh(pool.buf)) && (pool.sets == old(pool.sets) || fresh(pool.sets)) &&
                (pool.buckets == old(pool.buckets) || fresh(pool.buckets))
      invariant forall j :: 0 <= j < i ==> IsId(pool.lists, ids[j]) && Denotes(pool.lists, ids[j]) == inputs[j]
    {
      ghost var before := pool.lists;
      var id := pool.InternSet(inputs[i]);
      forall j | 0 <= j < i
        ensures IsId(pool.lists, ids[j]) && Denotes(pool.lists, ids[j]) == inputs[j]
      {
        DenotesLater(before, pool.lists, ids[j]);
      }
      ids := ids + [id];
    }
    PooledListsOk(pool.hash, pool.lists, pool.buf[..pool.bufUsed], pool.sets[..pool.setsUsed], pool.buckets[..]);
    forall i, j | 0 <= i < |ids| && 0 <= j < |ids|
      ensures ids[i] == ids[j] <==> inputs[i] == inputs[j]
    {
      SameIdSameList(pool.lists, ids[i], ids[j]);
    }
  }

  /** Entering a new list in the gap that probing for it found. */
  lemma EnterNew(hash: seq<nat> -> nat, lists: seq<seq<nat>>, htab: seq<nat>, l: seq<nat>, d: nat)
    requires TableOf(hash, lists, htab, Below(|lists|)) && |lists| + 1 < NO_ID
    requires htab[Slot(hash(l), d, |htab|)] == NO_ID
    requires forall e: nat :: e < d ==> Mismatch(hash, lists, htab, l, e)
    ensures forall y :: y in Below(|lists|) ==> lists[y] != l
    ensures TableOf(hash, lists + [l], htab[Slot(hash(l), d, |htab|) := |lists|], Below(|lists| + 1))
  {
    GapMeansNew(hash, lists, htab, Below(|lists|), l, d);
    MoreKeys(hash, lists, htab, Below(|lists|), l);
    forall e: nat | e < d
      ensures htab[Slot(hash(l), e, |htab|)] != NO_ID
    {
      assert Mismatch(hash, lists, htab, l, e);
    }
    InsertInGap(hash, lists + [l], htab, Below(|lists|), |lists|, d);
    assert Below(|lists| + 1) == Below(|lists|) + {|lists|};
  }

  lemma NewIsDistinct(lists: seq<seq<nat>>, l: seq<nat>)
    requires Distinct(lists) && forall y :: y in Below(|lists|) ==> lists[y] != l
    ensures Distinct(lists + [l])
  {
    forall i | 0 <= i < |lists|
      ensures lists[i] != l
    {
      assert i in Below(|lists|);
    }
  }
}
