/** Sorting a buffer of states and squeezing out duplicates, in the ways that suit different
inputs: insertion for short ones, nothing for sorted ones, a bit set for dense ones, and a general
sort for the rest. All of them leave the one ascending list of the same elements. */
module SortDedup {
  import opened Finite
  import opened Guard

  const SMALL_INPUT_LIMIT: nat := 255
  const QSORT_CUTOFF: nat := 81920
  const MAX_STATE: nat := 0xFFFF_FFFF

  ghost predicate Ascending(s: seq<nat>) {
    forall i, j :: 0 <= i < j < |s| ==> s[i] < s[j]
  }

  /** `r` lists the elements of `s` in ascending order, once each. */
  ghost predicate SortedOf(r: seq<nat>, s: seq<nat>) {
    Ascending(r) && forall v :: v in r <==> v in s
  }

  /** Distinct elements of `s` are no more than the entries of `s`. */
  lemma NoMore(r: seq<nat>, s: seq<nat>)
    requires Distinct(r) && forall v :: v in r ==> v in s
    ensures |r| <= |s|
  {
    ElementsSize(r);
    SubsetSize(Elements(r), Elements(s));
    ElementsAtMost(s);
  }

  lemma {:induction false} ElementsAtMost(s: seq<nat>)
    ensures |Elements(s)| <= |s|
    decreases |s|
  {
    if s != [] {
      var t := s[..|s| - 1];
      ElementsAtMost(t);
      assert Elements(s) == Elements(t) + {s[|s| - 1]};
    }
  }

  /** There is only one such list. */
  lemma {:induction false} SortedOfUnique(r: seq<nat>, q: seq<nat>)
    requires Ascending(r) && Ascending(q) && forall v :: v in r <==> v in q
    ensures r == q
    decreases |r|
  {
    assert r == [] || r[0] in q;
    assert q == [] || q[0] in r;
    if r != [] {
      assert r[|r| - 1] in q;
      assert q[|q| - 1] in r;
      var a, b := r[..|r| - 1], q[..|q| - 1];
      assert r[|r| - 1] == q[|q| - 1];
      forall v
        ensures v in a <==> v in b
      {
        assert v in r <==> v in a || v == r[|r| - 1];
        assert v in q <==> v in b || v == q[|q| - 1];
        assert r[|r| - 1] !in a && q[|q| - 1] !in b;
      }
      SortedOfUnique(a, b);
      assert r == a + [r[|r| - 1]] && q == b + [q[|q| - 1]];
    }
  }

  // ----- short inputs -----

  const MOVED: nat := MAX_STATE

  /** First pass: what exceeds all before it goes to `tmp`. */
  method MoveAscending(buf: array<nat>, used: nat) returns (tmp: seq<nat>)
    requires 0 < used <= buf.Length && forall i :: 0 <= i < used ==> buf[i] <= MAX_STATE
    modifies buf
    ensures tmp != [] && Ascending(tmp)
    ensures forall v :: v in tmp ==> v in old(buf[..used])
    ensures forall i :: 0 <= i < used ==>
              (buf[i] == MOVED && old(buf[i]) in tmp) || (buf[i] == old(buf[i]) <= tmp[|tmp| - 1])
    ensures old(buf[0]) in tmp && buf[used..] == old(buf[used..])
  {
    ghost var s := buf[..used];
    tmp := [buf[0]];
    assert s[0] in s;
    buf[0] := MOVED;
    for i := 1 to used
      invariant tmp != [] && Ascending(tmp) && forall v :: v in tmp ==> v in s
      invariant s[0] in tmp && buf[used..] == old(buf[used..])
      invariant forall k :: i <= k < used ==> buf[k] == s[k]
      invariant forall k :: 0 <= k < i ==> (buf[k] == MOVED && s[k] in tmp) || (buf[k] == s[k] <= tmp[|tmp| - 1])
    {
      var cur := buf[i];
      assert cur == s[i] && s[i] in s;
      if cur > tmp[|tmp| - 1] {
        tmp := tmp + [cur];
        buf[i] := MOVED;
      }
    }
  }

  /** Put `cur`, which does not exceed the last entry, in its place unless it is there. */
  method InsertOnce(tmp: seq<nat>, cur: nat) returns (r: seq<nat>)
    requires tmp != [] && Ascending(tmp) && cur <= tmp[|tmp| - 1]
    ensures r != [] && Ascending(r) && (forall v :: v in r <==> v in tmp || v == cur)
    ensures r[|r| - 1] == tmp[|tmp| - 1]
  {
    var j := 0;
    while tmp[j] < cur
      invariant 0 <= j < |tmp| && forall k :: 0 <= k < j ==> tmp[k] < cur
    {
      j := j + 1;
    }
    if tmp[j] == cur {
      return tmp;
    }
    r := tmp[..j] + [cur] + tmp[j..];
    Inserted(tmp, j, cur);
  }

  lemma Inserted(tmp: seq<nat>, j: nat, cur: nat)
    requires Ascending(tmp) && j < |tmp| && cur < tmp[j] && forall k :: 0 <= k < j ==> tmp[k] < cur
    ensures Ascending(tmp[..j] + [cur] + tmp[j..])
    ensures forall v :: v in tmp[..j] + [cur] + tmp[j..] <==> v in tmp || v == cur
  {
    assert tmp == tmp[..j] + tmp[j..];
  }

  /** Insertion into a second buffer, which never holds more than the input did. */
  method SmallInputSortAndDedup(buf: array<nat>, used: nat) returns (used': nat)
    requires 0 < used <= SMALL_INPUT_LIMIT && used <= buf.Length && forall i :: 0 <= i < used ==> buf[i] <= MAX_STATE
    modifies buf
    ensures used' <= used && SortedOf(buf[..used'], old(buf[..used]))
    ensures buf[used..] == old(buf[used..])
  {
    ghost var s := buf[..used];
    var tmp := MoveAscending(buf, used);
    tmp := InsertRest(tmp, buf[..used], s);
    NoMore(tmp, s);
    used' := |tmp|;
    ghost var rest := buf[|tmp|..];
    assert buf[used..] == rest[used - |tmp|..];
    CopyBack(buf, tmp);
    assert buf[used..] == rest[used - |tmp|..];
  }

  /** Second pass: insert what was not moved. */
  method InsertRest(moved: seq<nat>, b: seq<nat>, ghost s: seq<nat>) returns (tmp: seq<nat>)
    requires 0 < |b| == |s| && moved != [] && Ascending(moved) && s[0] in moved
    requires forall v :: v in s ==> v <= MAX_STATE
    requires forall v :: v in moved ==> v in s
    requires forall i :: 0 <= i < |s| ==> (b[i] == MOVED && s[i] in moved) || (b[i] == s[i] <= moved[|moved| - 1])
    ensures SortedOf(tmp, s)
  {
    tmp := moved;
    for i := 1 to |b|
      invariant tmp != [] && Ascending(tmp) && (forall v :: v in tmp ==> v in s)
      invariant forall k :: 0 <= k < i ==> s[k] in tmp
      invariant forall k :: i <= k < |b| ==> (b[k] == MOVED && s[k] in tmp) || (b[k] == s[k] <= tmp[|tmp| - 1])
    {
      var cur := b[i];
      assert s[i] in s;
      if cur != MOVED {
        tmp := InsertOnce(tmp, cur);
      } else {
        MovedIsLast(tmp, cur, s[i]);
      }
    }
    assert forall v :: v in s ==> v in tmp;
  }

  /** A state that happens to equal the marker is in `tmp` already. */
  lemma MovedIsLast(tmp: seq<nat>, cur: nat, v: nat)
    requires tmp != [] && (v in tmp || (cur == v <= tmp[|tmp| - 1])) && cur == MOVED
    requires forall x :: x in tmp ==> x <= MAX_STATE
    ensures v in tmp
  {
    assert tmp[|tmp| - 1] in tmp;
  }

  method CopyBack(buf: array<nat>, tmp: seq<nat>)
    requires |tmp| <= buf.Length
    modifies buf
    ensures buf[..|tmp|] == tmp && buf[|tmp|..] == old(buf[|tmp|..])
  {
    for i := 0 to |tmp|
      invariant buf[..i] == tmp[..i] && buf[|tmp|..] == old(buf[|tmp|..])
    {
      buf[i] := tmp[i];
      assert buf[..i + 1] == buf[..i] + [tmp[i]];
    }
  }

  // ----- long inputs -----

  /** The extremes, and whether there is nothing to do. */
  method Survey(buf: array<nat>, used: nat) returns (min: nat, max: nat, sorted: bool)
    requires 0 < used <= buf.Length && forall i :: 0 <= i < used ==> buf[i] <= MAX_STATE
    ensures min in buf[..used] && max in buf[..used]
    ensures forall i :: 0 <= i < used ==> min <= buf[i] <= max
    ensures sorted <==> Ascending(buf[..used])
  {
    ghost var s := buf[..used];
    min, max, sorted := MAX_STATE, 0, true;
    var prev := 0;
    for i := 0 to used
      invariant forall k :: 0 <= k < i ==> min <= buf[k] <= max
      invariant i > 0 ==> min in s && max in s && prev == s[i - 1]
      invariant i == 0 ==> min == MAX_STATE && max == 0
      invariant sorted ==> Ascending(s[..i])
      invariant !sorted ==> !Ascending(s)
    {
      var cur := buf[i];
      assert s[i] == cur && s[i] in s;
      if cur < min {
        min := cur;
      }
      if cur > max {
        max := cur;
      }
      if i > 0 && cur <= prev {
        sorted := false;
        assert s[i - 1] >= s[i];
      }
      if sorted {
        AscendingMore(s, i);
      }
      assert min in s && max in s;
      prev := cur;
    }
    assert s[..used] == s;
  }

  lemma AscendingMore(s: seq<nat>, i: nat)
    requires i < |s| && Ascending(s[..i]) && (i > 0 ==> s[i - 1] < s[i])
    ensures Ascending(s[..i + 1])
  {
    var t := s[..i + 1];
    forall j, k | 0 <= j < k < |t|
      ensures t[j] < t[k]
    {
      assert forall x :: 0 <= x < i ==> s[..i][x] == s[x];
    }
  }

  ghost predicate InOrder(s: seq<nat>) {
    forall i, j :: 0 <= i < j < |s| ==> s[i] <= s[j]
  }

  /** Stands for the library's sorting routine. */
  method Sort(s: seq<nat>) returns (r: seq<nat>)
    ensures InOrder(r) && |r| == |s| && forall v :: v in r <==> v in s
  {
    r := [];
    assert s[..0] == [];
    for i := 0 to |s|
      invariant InOrder(r) && |r| == i && forall v :: v in r <==> v in s[..i]
    {
      assert s[..i + 1] == s[..i] + [s[i]];
      var j := 0;
      while j < |r| && r[j] <= s[i]
        invariant 0 <= j <= |r| && forall k :: 0 <= k < j ==> r[k] <= s[i]
      {
        j := j + 1;
      }
      assert r == r[..j] + r[j..];
      r := r[..j] + [s[i]] + r[j..];
    }
    assert s[..|s|] == s;
  }

  /** The squashing loop: the first `wr` entries are done, those from `rd - 1` on untouched. */
  ghost predicate Squashing(t: seq<nat>, b: seq<nat>, rd: nat, wr: nat) {
    && 1 <= wr <= rd <= |t| == |b| && InOrder(t) && SortedOf(b[..wr], t[..rd])
    && (forall k :: rd - 1 <= k < |t| ==> b[k] == t[k])
  }

  lemma SquashKeeps(t: seq<nat>, b: seq<nat>, rd: nat, wr: nat)
    requires Squashing(t, b, rd, wr) && rd < |t|
    ensures b[rd - 1] == b[rd] ==> Squashing(t, b, rd + 1, wr)
    ensures b[rd - 1] != b[rd] ==> Squashing(t, b[wr := b[rd]], rd + 1, wr + 1)
  {
    assert t[..rd + 1] == t[..rd] + [t[rd]];
    assert t[rd - 1] == t[..rd][rd - 1];
    if b[rd - 1] != b[rd] {
      var c := b[wr := b[rd]];
      assert c[..wr + 1] == b[..wr] + [b[rd]];
      forall i | 0 <= i < wr
        ensures b[..wr][i] < b[rd]
      {
        assert b[..wr][i] in t[..rd];
      }
    }
  }

  /** Drop repeated entries of a sorted buffer, in place. */
  method Squash(buf: array<nat>, used: nat) returns (used': nat)
    requires 0 < used <= buf.Length && InOrder(buf[..used])
    modifies buf
    ensures used' <= used && SortedOf(buf[..used'], old(buf[..used])) && buf[used..] == old(buf[used..])
  {
    ghost var t := buf[..used];
    var rd, wr := 1, 1;
    assert buf[..used][..1] == t[..1];
    while rd < used
      invariant Squashing(t, buf[..used], rd, wr) && buf[used..] == old(buf[used..])
    {
      ghost var b := buf[..used];
      SquashKeeps(t, b, rd, wr);
      if buf[rd - 1] != buf[rd] {
        buf[wr] := buf[rd];
        assert buf[..used] == b[wr := b[rd]];
        wr := wr + 1;
      }
      rd := rd + 1;
    }
    used' := wr;
    assert buf[..used][..wr] == buf[..wr] && t[..used] == t;
  }

  // ----- the bit set -----

  /** The number of 64-bit words for `count` bits. */
  function BitsetWords(count: nat): (w: nat)
    ensures 64 * w >= count && (count > 0 ==> 64 * (w - 1) < count)
  {
    count / 64 + if count % 64 != 0 then 1 else 0
  }

  /** The number of bit `b` of word `w`. */
  function At(w: nat, b: nat): nat { 64 * w + b }

  lemma AtUnique(w: nat, b: nat, x: nat, c: nat)
    requires b < 64 && c < 64 && At(w, b) == At(x, c)
    ensures w == x && b == c
  {
  }

  ghost predicate BitAt(bits: seq<set<nat>>, w: nat, b: nat) {
    w < |bits| && b in bits[w]
  }

  /** The set bits are the offsets from `min` of the entries of `s`. */
  ghost predicate BitsOf(bits: seq<set<nat>>, min: nat, s: seq<nat>) {
    && (forall w: nat, b: nat :: BitAt(bits, w, b) ==> b < 64 && At(w, b) + min in s)
    && (forall v :: v in s ==> HasBit(bits, min, v))
  }

  ghost predicate HasBit(bits: seq<set<nat>>, min: nat, v: nat) {
    forall k {:trigger Look(k)} :: Look(k) ==> exists w: nat, b: nat :: BitAt(bits, w, b) && v == At(w, b) + min
  }

  lemma BitOf(bits: seq<set<nat>>, min: nat, v: nat) returns (w: nat, b: nat)
    requires HasBit(bits, min, v)
    ensures BitAt(bits, w, b) && v == At(w, b) + min
  {
    assert Look(true);
    w, b :| BitAt(bits, w, b) && v == At(w, b) + min;
  }

  lemma SetBit(bits: seq<set<nat>>, min: nat, s: seq<nat>, w: nat, b: nat)
    requires BitsOf(bits, min, s) && w < |bits| && b < 64
    ensures BitsOf(bits[w := bits[w] + {b}], min, s + [At(w, b) + min])
  {
    var v := At(w, b) + min;
    var bits', s' := bits[w := bits[w] + {b}], s + [v];
    assert s'[|s|] == v;
    forall x: nat, c: nat | BitAt(bits', x, c)
      ensures c < 64 && At(x, c) + min in s'
    {
      if BitAt(bits, x, c) {
        assert At(x, c) + min in s;
      }
    }
    forall y | y in s'
      ensures HasBit(bits', min, y)
    {
      if y in s {
        var x, c := BitOf(bits, min, y);
        assert BitAt(bits', x, c);
      } else {
        assert BitAt(bits', w, b);
      }
    }
  }

  lemma Split(o: nat)
    ensures At(o / 64, o % 64) == o && o % 64 < 64
  {
  }

  lemma WordBelow(o: nat, words: nat)
    requires o < 64 * words
    ensures o / 64 < words
  {
  }

  method FillBits(s: seq<nat>, min: nat, words: nat) returns (bits: array<set<nat>>)
    requires forall i :: 0 <= i < |s| ==> min <= s[i] < min + 64 * words
    ensures fresh(bits) && bits.Length == words && BitsOf(bits[..], min, s)
  {
    bits := new set<nat>[words](_ => {});
    assert s[..0] == [];
    for i := 0 to |s|
      invariant BitsOf(bits[..], min, s[..i])
    {
      AddBit(bits, min, s[i], s[..i], words);
      assert s[..i + 1] == s[..i] + [s[i]];
    }
    assert s[..|s|] == s;
  }

  method AddBit(bits: array<set<nat>>, min: nat, v: nat, ghost s: seq<nat>, ghost words: nat)
    requires bits.Length == words && BitsOf(bits[..], min, s) && min <= v < min + 64 * words
    modifies bits
    ensures BitsOf(bits[..], min, s + [v])
  {
    var o := v - min;
    Split(o);
    WordBelow(o, words);
    var w, b := o / 64, o % 64;
    SetBit(bits[..], min, s, w, b);
    bits[w] := bits[w] + {b};
  }

  /** `r` lists the entries of `s` whose offset is below `pos`. */
  ghost predicate Collected(min: nat, s: seq<nat>, r: seq<nat>, pos: nat) {
    Ascending(r) && forall v :: v in r <==> v in s && min <= v < min + pos
  }

  lemma CollectStep(bits: seq<set<nat>>, min: nat, s: seq<nat>, r: seq<nat>, w: nat, b: nat)
    requires BitsOf(bits, min, s) && w < |bits| && b < 64 && Collected(min, s, r, At(w, b))
    ensures b in bits[w] ==> |r| < |s| && Collected(min, s, r + [At(w, b) + min], At(w, b + 1))
    ensures b !in bits[w] ==> Collected(min, s, r, At(w, b + 1))
  {
    var v := At(w, b) + min;
    if b in bits[w] {
      assert BitAt(bits, w, b);
      forall i | 0 <= i < |r|
        ensures r[i] < v
      {
        assert r[i] in r;
      }
      NoMore(r + [v], s);
    } else {
      NoBit(bits, min, s, w, b);
    }
  }

  lemma NoBit(bits: seq<set<nat>>, min: nat, s: seq<nat>, w: nat, b: nat)
    requires BitsOf(bits, min, s) && w < |bits| && b < 64 && b !in bits[w]
    ensures At(w, b) + min !in s
  {
    var v := At(w, b) + min;
    if v in s {
      var x, c := BitOf(bits, min, v);
      AtUnique(w, b, x, c);
    }
  }

  /** Write the entries of one word back, in the order of their bits. */
  method CollectWord(bits: seq<set<nat>>, buf: array<nat>, min: nat, w: nat, start: nat, ghost s: seq<nat>) returns (dst: nat)
    requires BitsOf(bits, min, s) && |s| <= buf.Length && w < |bits|
    requires start <= |s| && Collected(min, s, buf[..start], At(w, 0))
    modifies buf
    ensures dst <= |s| && Collected(min, s, buf[..dst], At(w + 1, 0)) && buf[|s|..] == old(buf[|s|..])
  {
    dst := start;
    for b := 0 to 64
      invariant dst <= |s| && Collected(min, s, buf[..dst], At(w, b)) && buf[|s|..] == old(buf[|s|..])
    {
      CollectStep(bits, min, s, buf[..dst], w, b);
      if b in bits[w] {
        ghost var r := buf[..dst];
        buf[dst] := At(w, b) + min;
        dst := dst + 1;
        assert buf[..dst] == r + [At(w, b) + min];
      }
    }
  }

  lemma EmptyWord(bits: seq<set<nat>>, min: nat, s: seq<nat>, r: seq<nat>, w: nat)
    requires BitsOf(bits, min, s) && w < |bits| && bits[w] == {} && Collected(min, s, r, At(w, 0))
    ensures Collected(min, s, r, At(w + 1, 0))
  {
    forall v: nat | min + At(w, 0) <= v < min + At(w + 1, 0)
      ensures v !in s
    {
      var b := v - min - At(w, 0);
      NoBit(bits, min, s, w, b);
    }
  }

  method CollectBits(bits: seq<set<nat>>, buf: array<nat>, min: nat, ghost s: seq<nat>) returns (dst: nat)
    requires BitsOf(bits, min, s) && |s| <= buf.Length
    modifies buf
    ensures dst <= |s| && Collected(min, s, buf[..dst], At(|bits|, 0)) && buf[|s|..] == old(buf[|s|..])
  {
    dst := 0;
    for w := 0 to |bits|
      invariant dst <= |s| && Collected(min, s, buf[..dst], At(w, 0)) && buf[|s|..] == old(buf[|s|..])
    {
      if bits[w] != {} {
        dst := CollectWord(bits, buf, min, w, dst, s);
      } else {
        EmptyWord(bits, min, s, buf[..dst], w);
      }
    }
  }

  /** The dense case. The bit set has at most `QSORT_CUTOFF / 64 + 1` words. */
  method BitsetSort(buf: array<nat>, used: nat, min: nat, max: nat) returns (used': nat, words: nat)
    requires 0 < used <= buf.Length && min <= max && max - min <= QSORT_CUTOFF
    requires forall i :: 0 <= i < used ==> min <= buf[i] <= max
    modifies buf
    ensures used' <= used && SortedOf(buf[..used'], old(buf[..used])) && buf[used..] == old(buf[used..])
    ensures words <= QSORT_CUTOFF / 64 + 1
  {
    ghost var s := buf[..used];
    words := BitsetWords(max - min + 1);
    var bits := FillBits(buf[..used], min, words);
    used' := CollectBits(bits[..], buf, min, s);
    assert forall v :: v in s ==> min <= v < min + At(words, 0);
  }

  /** The whole: whatever path is taken, the buffer ends up with the ascending list of the
      elements it had. */
  method SortAndDedupDstBuf(buf: array<nat>, used: nat) returns (used': nat)
    requires used <= buf.Length && forall i :: 0 <= i < used ==> buf[i] <= MAX_STATE
    modifies buf
    ensures used' <= used && SortedOf(buf[..used'], old(buf[..used])) && buf[used..] == old(buf[used..])
  {
    if used <= 1 {
      return used;
    }
    if used <= SMALL_INPUT_LIMIT {
      used' := SmallInputSortAndDedup(buf, used);
      return;
    }
    var min, max, sorted := Survey(buf, used);
    if sorted {
      return used;
    }
    if min == max {
      ghost var s := buf[..used];
      assert forall v :: v in s ==> v == min;
      buf[0] := min;
      assert buf[..1] == [min];
      return 1;
    }
    if max - min > QSORT_CUTOFF {
      ghost var rest := buf[used..];
      var t := Sort(buf[..used]);
      CopyBack(buf, t);
      assert buf[used..] == rest;
      used' := Squash(buf, used);
    } else {
      var words;
      used', words := BitsetSort(buf, used, min, max);
    }
  }
}
