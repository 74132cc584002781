/** The shuffle of the property tests: a linear congruential generator that is
claimed to walk through every value of its range once before repeating any.

The modulus is a power of two, the multiplier is 1 modulo 4 and the increment is
odd, so this is the full-period theorem of Hull and Dobell (Knuth, volume 2,
section 3.2.1), proved here for every seed and under wrapping 32-bit arithmetic.
*/
module Lcg {
  import opened Arithmetic
  import opened Finite
  import opened Guard

  const WORD: nat := 0x1_0000_0000
  const INCREMENT: nat := 2147483647  // 2^31 - 1

  /** The generator over the integers, before any reduction: `j` steps from `x`. */
  function Iterate(a: int, c: int, x: int, j: nat): int
    decreases j
  {
    if j == 0 then x else Iterate(a, c, a * x + c, j - 1)
  }

  /** One step as the C code takes it: 32-bit wrap-around, then the mask. */
  function Next(a: nat, c: nat, x: nat, modulus: nat): nat
    requires modulus > 0
  {
    (a * x + c) % WORD % modulus
  }

  // ----- arithmetic of powers of two -----

  lemma {:induction false} Pow2Add(i: nat, j: nat)
    ensures Pow2(i + j) == Pow2(i) * Pow2(j)
  {
    if i == 0 {
    } else {
      Pow2Add(i - 1, j);
      assert Pow2(i) * Pow2(j) == 2 * (Pow2(i - 1) * Pow2(j));
    }
  }

  lemma Pow2Monotonic(i: nat, j: nat)
    requires i <= j
    ensures Pow2(i) <= Pow2(j)
  {
    if i < j {
      Pow2Monotonic(i, j - 1);
    }
  }

  lemma Pow2Small(k: nat)
    requires k <= 31
    ensures Pow2(k) <= 0x8000_0000
    ensures k == 31 ==> Pow2(k) == 0x8000_0000
  {
    Pow2Add(8, 8);
    Pow2Add(16, 8);
    Pow2Add(24, 7);
    Pow2Monotonic(k, 31);
  }

  /** Every modulus in use divides the word size, so wrapping loses nothing. */
  lemma {:induction false} DividesWord(k: nat) returns (h: nat)
    requires k <= 31
    ensures h > 0 && Pow2(k) * h == WORD
    decreases 31 - k
  {
    if k == 31 {
      h := 2;
      Pow2Small(k);
    } else {
      var h0 := DividesWord(k + 1);
      h := 2 * h0;
      Regroup(Pow2(k), h0);
    }
  }

  lemma Regroup(p: int, h: int)
    ensures p * (2 * h) == (2 * p) * h
  {
  }

  // ----- the full-period theorem -----

  lemma {:induction false} IterateAdd(a: int, c: int, x: int, i: nat, j: nat)
    ensures Iterate(a, c, x, i + j) == Iterate(a, c, Iterate(a, c, x, i), j)
    decreases i
  {
    if i > 0 {
      IterateAdd(a, c, a * x + c, i - 1, j);
    }
  }

  lemma DoubleBlock(a: int, c: int, x: int, A: int, C: int)
    requires A == a * a && C == (a + 1) * c
    ensures a * (a * x + c) + c == A * x + C
  {
  }

  lemma DoubleShape(p: int, u: int, v: int) returns (u': int, v': int)
    ensures (1 + 4 * p * u) * (1 + 4 * p * u) == 1 + 8 * p * u'
    ensures (2 + 4 * p * u) * (p * (2 * v + 1)) == 2 * p * (2 * v' + 1)
  {
    var k := p * u;
    u' := u + 2 * k * u;
    assert p * u' == k + 2 * k * k;
    assert 4 * p * u == 4 * k;
    v' := v + 2 * k * v + k;
    assert 2 * v' + 1 == (1 + 2 * k) * (2 * v + 1);
    calc {
      (2 + 4 * p * u) * (p * (2 * v + 1));
      (2 * (1 + 2 * k)) * (p * (2 * v + 1));
      2 * p * ((1 + 2 * k) * (2 * v + 1));
    }
  }

  /** A block of `2^j` steps is again affine, `x -> A * x + C`, with `A` equal to 1
      modulo `2^(j+2)` and `C` an odd multiple of `2^j`. */
  lemma {:induction false} Block(a: int, c: int, j: nat) returns (A: int, C: int, u: int, v: int)
    requires a % 4 == 1 && c % 2 == 1
    ensures A == 1 + 4 * Pow2(j) * u && C == Pow2(j) * (2 * v + 1)
    ensures forall x :: Iterate(a, c, x, Pow2(j)) == A * x + C
  {
    if j == 0 {
      A, C, u, v := a, c, a / 4, c / 2;
      forall x
        ensures Iterate(a, c, x, 1) == a * x + c
      {
        assert Iterate(a, c, a * x + c, 0) == a * x + c;
      }
    } else {
      var A0, C0, u0, v0 := Block(a, c, j - 1);
      var p := Pow2(j - 1);
      A, C := A0 * A0, (A0 + 1) * C0;
      u, v := DoubleShape(p, u0, v0);
      forall x
        ensures Iterate(a, c, x, Pow2(j)) == A * x + C
      {
        IterateAdd(a, c, x, p, p);
        DoubleBlock(A0, C0, x, A, C);
      }
    }
  }

  lemma BlockShift(p: int, u: int, v: int, x: int, s: int) returns (q: int)
    ensures (1 + 4 * p * u) * (x + p * s) + p * (2 * v + 1) == x + p * (2 * q + s + 1)
  {
    var y := x + p * s;
    var k := u * y;
    q := 2 * k + v;
    assert (1 + 4 * p * u) * y == y + p * (4 * k) by {
      assert 4 * p * u * y == p * (4 * k);
    }
    assert p * (4 * k) + p * (2 * v + 1) == p * (4 * k + 2 * v + 1);
  }

  /** `m` blocks of `2^j` steps move every point by `2^j` times a number of the parity of `m`. */
  lemma {:induction false} Blocks(a: int, c: int, x: int, j: nat, m: nat) returns (q: int)
    requires a % 4 == 1 && c % 2 == 1
    ensures Iterate(a, c, x, Pow2(j) * m) == x + Pow2(j) * (2 * q + m)
    decreases m
  {
    var p := Pow2(j);
    if m == 0 {
      q := 0;
      assert p * 0 == 0;
    } else {
      var q0 := Blocks(a, c, x, j, m - 1);
      var s := 2 * q0 + m - 1;
      var A, C, u, v := Block(a, c, j);
      var z := BlockShift(p, u, v, x, s);
      q := q0 + z;
      MulPredecessor(p, m);
      IterateAdd(a, c, x, p * (m - 1), p);
      assert Iterate(a, c, x + p * s, p) == A * (x + p * s) + C;
    }
  }

  lemma MulPredecessor(p: nat, m: nat)
    requires m > 0
    ensures p * (m - 1) >= 0 && p * (m - 1) + p == p * m
  {
  }

  lemma {:induction false} OddPart(d: nat) returns (j: nat, r: nat)
    requires d > 0
    ensures d == Pow2(j) * (2 * r + 1)
    decreases d
  {
    if d % 2 == 1 {
      j, r := 0, d / 2;
    } else {
      var j0, r0 := OddPart(d / 2);
      j, r := j0 + 1, r0;
      assert Pow2(j) * (2 * r + 1) == 2 * (Pow2(j0) * (2 * r0 + 1));
    }
  }

  /** A multiple of `2^k` is not an odd multiple of a smaller power. */
  lemma OddMultiple(p: int, h: int, q: int, z: int)
    requires p > 0
    ensures p * (2 * q + 1) != (2 * p * h) * z
  {
    assert (2 * p * h) * z == p * (2 * (h * z));
    MulBounds(p, 2 * q + 1 - 2 * (h * z));
    assert p * (2 * q + 1 - 2 * (h * z)) == p * (2 * q + 1) - p * (2 * (h * z));
  }

  lemma OddPartSmall(d: nat, j: nat, r: nat, k: nat)
    requires d == Pow2(j) * (2 * r + 1) && d < Pow2(k)
    ensures j < k
  {
    MulBounds(Pow2(j), 2 * r + 1);
    if k <= j {
      Pow2Monotonic(k, j);
    }
  }

  /** Hull-Dobell: no point returns to its residue in fewer than `2^k` steps. */
  lemma FullPeriod(a: int, c: int, x: int, d: nat, k: nat)
    requires a % 4 == 1 && c % 2 == 1 && 0 < d < Pow2(k)
    ensures Iterate(a, c, x, d) % Pow2(k) != x % Pow2(k)
  {
    var j, r := OddPart(d);
    OddPartSmall(d, j, r, k);
    var q := Blocks(a, c, x, j, 2 * r + 1);
    var y := Iterate(a, c, x, d);
    if y % Pow2(k) == x % Pow2(k) {
      var z := EqualModDifference(y, x, Pow2(k));
      Pow2Add(j + 1, k - j - 1);
      OddMultiple(Pow2(j), Pow2(k - j - 1), q + r, z);
    }
  }

  /** The values seen at two different steps of one period differ. */
  lemma StepsDiffer(a: int, c: int, x: int, i: nat, j: nat, k: nat)
    requires a % 4 == 1 && c % 2 == 1 && i < j && j - i < Pow2(k)
    ensures Iterate(a, c, x, i) % Pow2(k) != Iterate(a, c, x, j) % Pow2(k)
  {
    IterateAdd(a, c, x, i, j - i);
    FullPeriod(a, c, Iterate(a, c, x, i), j - i, k);
  }

  /** Adding a multiple of `N` before wrapping at `N * h` does not change the residue modulo `N`. */
  lemma WrapThenMask(t: int, e: int, N: int, h: int, z: int)
    requires N > 0 && h > 0 && N * h > 0 && t == e + N * z
    ensures t % (N * h) % N == e % N
  {
    var w := t / (N * h);
    assert t % (N * h) == t - (N * h) * w;
    assert (N * h) * w == N * (h * w);
    var q := z - h * w + e / N;
    assert N * q == N * z - N * (h * w) + N * (e / N);
    ModUnique(t % (N * h), N, q, e % N);
  }

  lemma Spread(a: int, c: int, y: int, N: int, q: int)
    ensures a * (y + N * q) + c == a * y + c + N * (a * q)
  {
  }

  lemma IterateOnce(a: int, c: int, y: int)
    ensures Iterate(a, c, y, 1) == a * y + c
  {
    assert Iterate(a, c, a * y + c, 0) == a * y + c;
  }

  /** Wrapping at 32 bits and masking agree with the unbounded iteration. */
  lemma NextIsIterate(a: nat, c: nat, x: int, j: nat, state: nat, k: nat)
    requires k <= 31 && state % Pow2(k) == Iterate(a, c, x, j) % Pow2(k)
    ensures Next(a, c, state, Pow2(k)) == Iterate(a, c, x, j + 1) % Pow2(k)
  {
    var N, y := Pow2(k), Iterate(a, c, x, j);
    var h := DividesWord(k);
    var q := EqualModDifference(state, y, N);
    IterateAdd(a, c, x, j, 1);
    IterateOnce(a, c, y);
    Spread(a, c, y, N, q);
    WrapThenMask(a * state + c, a * y + c, N, h, a * q);
  }

  // ----- the shuffle itself -----

  /** The values emitted are those seen that fall below `ceil`. */
  ghost predicate EmittedOf(seen: set<nat>, emitted: set<nat>, ceil: nat) {
    forall v :: v in emitted <==> v in seen && v < ceil
  }

  /** As long as some value below `ceil` has not come up, the period is not over. */
  lemma PeriodNotOver(seen: set<nat>, emitted: set<nat>, ceil: nat, modulus: nat)
    requires ceil <= modulus && |emitted| < ceil && |seen| <= modulus
    requires forall v :: v in seen ==> v < modulus
    requires EmittedOf(seen, emitted, ceil)
    ensures |seen| < modulus
  {
    SubsetSize(seen, Below(modulus));
    if |seen| == modulus {
      SubsetSize(Below(ceil), emitted);
    }
  }

  /** The smallest power of two that is at least `length`. */
  method Modulus(length: nat) returns (modulus: nat, ghost k: nat)
    requires length <= 0x8000_0000
    ensures modulus == Pow2(k) && k <= 31 && LeastPower(k, length)
  {
    modulus, k := 1, 0;
    while modulus < length
      invariant modulus == Pow2(k) && k <= 31
      invariant k > 0 ==> Pow2(k - 1) < length
      decreases 31 - k
    {
      Pow2Small(k);
      modulus, k := modulus * 2, k + 1;
    }
  }

  /** `v` is the value of step `j` of the walk from `x`. */
  ghost predicate AtStep(a: nat, c: nat, x: nat, k: nat, j: nat, v: nat) {
    v == Iterate(a, c, x, j) % Pow2(k)
  }

  /** `t` steps were taken from `x`; `seen` holds their values, all different. */
  ghost predicate Walked(a: nat, c: nat, x: nat, t: nat, k: nat, state: nat, seen: set<nat>) {
    && |seen| == t <= Pow2(k)
    && (forall v :: v in seen ==> v < Pow2(k))
    && (forall b {:trigger Look(b)} :: Look(b) ==>
          && a % 4 == 1 && c % 2 == 1 && k <= 31
          && AtStep(a, c, x, k, t, state % Pow2(k))
          && (forall v :: v in seen ==> exists j :: 0 < j <= t && AtStep(a, c, x, k, j, v)))
  }

  /** Before the period is over, a step leads to a value not seen before. */
  lemma StepIsNew(a: nat, c: nat, x: nat, t: nat, k: nat, state: nat, seen: set<nat>)
    requires Walked(a, c, x, t, k, state, seen) && t < Pow2(k)
    ensures Next(a, c, state, Pow2(k)) !in seen
    ensures AtStep(a, c, x, k, t + 1, Next(a, c, state, Pow2(k)))
  {
    assert Look(true);
    NextIsIterate(a, c, x, t, state, k);
    forall j | 0 < j <= t
      ensures !AtStep(a, c, x, k, j, Next(a, c, state, Pow2(k)))
    {
      StepsDiffer(a, c, x, j, t + 1, k);
    }
  }

  lemma WalkedStep(a: nat, c: nat, x: nat, t: nat, k: nat, state: nat, seen: set<nat>, state': nat)
    requires Walked(a, c, x, t, k, state, seen) && t < Pow2(k)
    requires state' < Pow2(k) && state' !in seen && AtStep(a, c, x, k, t + 1, state')
    ensures Walked(a, c, x, t + 1, k, state', seen + {state'})
  {
    assert Look(true);
    SmallMod(state', Pow2(k));
  }

  /** What the shuffle is to give: the values below `ceil` among the first `t` steps from `x`,
      in the order of the steps. */
  ghost function Drawn(a: nat, c: nat, x: nat, k: nat, ceil: nat, t: nat): (vs: seq<nat>) {
    if t == 0 then [] else
      var v := Iterate(a, c, x, t) % Pow2(k);
      Drawn(a, c, x, k, ceil, t - 1) + if v < ceil then [v] else []
  }

  ghost predicate IsDrawn(a: nat, c: nat, x: nat, k: nat, ceil: nat, t: nat, vs: seq<nat>) {
    forall b {:trigger Look(b)} :: Look(b) ==> vs == Drawn(a, c, x, k, ceil, t)
  }

  method TakeStep(a: nat, c: nat, ghost x: nat, ghost t: nat, ghost k: nat, state: nat, ghost seen: set<nat>,
                  modulus: nat, ghost ceil: nat, ghost vs: seq<nat>)
    returns (state': nat, ghost t': nat, ghost seen': set<nat>)
    requires modulus == Pow2(k) && Walked(a, c, x, t, k, state, seen) && t < modulus && IsDrawn(a, c, x, k, ceil, t, vs)
    ensures Walked(a, c, x, t', k, state', seen') && t' == t + 1
    ensures state' !in seen && seen' == seen + {state'}
    ensures IsDrawn(a, c, x, k, ceil, t', if state' < ceil then vs + [state'] else vs)
    ensures state' == Next(a, c, state, modulus) < modulus
  {
    assert Look(true);
    StepIsNew(a, c, x, t, k, state, seen);
    state' := Next(a, c, state, modulus);
    WalkedStep(a, c, x, t, k, state, seen, state');
    t', seen' := t + 1, seen + {state'};
  }

  /** The inner loop: step until the value falls below `ceil`. */
  method Draw(a: nat, c: nat, ghost x: nat, ghost t: nat, ghost k: nat, state: nat, ghost seen: set<nat>,
              modulus: nat, ceil: nat, ghost emitted: set<nat>, ghost vs: seq<nat>)
    returns (state': nat, ghost t': nat, ghost seen': set<nat>)
    requires modulus == Pow2(k) && Walked(a, c, x, t, k, state, seen) && IsDrawn(a, c, x, k, ceil, t, vs)
    requires ceil <= modulus && EmittedOf(seen, emitted, ceil) && |emitted| < ceil
    ensures Walked(a, c, x, t', k, state', seen')
    ensures state' < ceil && state' !in emitted
    ensures EmittedOf(seen', emitted + {state'}, ceil)
    ensures IsDrawn(a, c, x, k, ceil, t', vs + [state'])
  {
    PeriodNotOver(seen, emitted, ceil, modulus);
    state', t', seen' := TakeStep(a, c, x, t, k, state, seen, modulus, ceil, vs);
    while state' >= ceil
      invariant Walked(a, c, x, t', k, state', seen')
      invariant state' !in emitted
      invariant EmittedOf(seen', if state' < ceil then emitted + {state'} else emitted, ceil)
      invariant IsDrawn(a, c, x, k, ceil, t', if state' < ceil then vs + [state'] else vs)
      decreases modulus - t'
    {
      PeriodNotOver(seen', emitted, ceil, modulus);
      state', t', seen' := TakeStep(a, c, x, t', k, state', seen', modulus, ceil, vs);
    }
  }

  /** The output so far holds the emitted values, each once. */
  ghost predicate Filled(res: seq<nat>, emitted: set<nat>, ceil: nat) {
    && |emitted| == |res|
    && (forall v :: v in emitted <==> v in res)
    && (forall i :: 0 <= i < |res| ==> res[i] < ceil)
    && (forall i, j :: 0 <= i < j < |res| ==> res[i] != res[j])
  }

  lemma FilledAppend(res: seq<nat>, emitted: set<nat>, ceil: nat, v: nat)
    requires Filled(res, emitted, ceil) && v < ceil && v !in emitted
    ensures Filled(res + [v], emitted + {v}, ceil)
  {
  }

  /** When all values below `ceil` have come up, none comes up in the rest of the period. */
  lemma RestNotDrawn(a: nat, c: nat, x: nat, t: nat, k: nat, state: nat, seen: set<nat>, ceil: nat)
    requires Walked(a, c, x, t, k, state, seen) && forall v :: 0 <= v < ceil ==> v in seen
    ensures Drawn(a, c, x, k, ceil, Pow2(k)) == Drawn(a, c, x, k, ceil, t)
    decreases Pow2(k) - t
  {
    if t < Pow2(k) {
      StepIsNew(a, c, x, t, k, state, seen);
      var state' := Next(a, c, state, Pow2(k));
      WalkedStep(a, c, x, t, k, state, seen, state');
      RestNotDrawn(a, c, x, t + 1, k, state', seen + {state'}, ceil);
    }
  }

  /** `Pow2(k)` is the least power of two that is no less than `length`. */
  ghost predicate LeastPower(k: nat, length: nat) {
    length <= Pow2(k) && (k > 0 ==> Pow2(k - 1) < length)
  }

  lemma LeastPowerUnique(k: nat, j: nat, length: nat)
    requires LeastPower(k, length) && LeastPower(j, length)
    ensures k == j
  {
    if k < j {
      Pow2Monotonic(k, j - 1);
    } else if j < k {
      Pow2Monotonic(j, k - 1);
    }
  }

  /** For every length up to 2^31 and every 32-bit seed the loops terminate and the result holds
      each of `0..length` exactly once, in the order in which the generator comes to them. */
  method GenPermutationVector(length: nat, seed: nat) returns (res: array<nat>)
    requires length <= 0x8000_0000 && seed < WORD
    ensures res.Length == length
    ensures IsPermutation(res[..])
    ensures forall v :: 0 <= v < length ==> v in res[..]
    ensures forall k: nat :: LeastPower(k, length) ==>
              var x := seed % 0x2000_0000; res[..] == Drawn(4 * x + 1, INCREMENT, x, k, length, Pow2(k))
  {
    res := new nat[length];
    ghost var k: nat;
    var modulus: nat;
    modulus, k := Modulus(length);
    var state: nat := seed % 0x2000_0000;
    var a, c := 4 * state + 1, INCREMENT;
    ghost var x, t := state, 0;
    ghost var seen: set<nat>, emitted: set<nat> := {}, {};
    var offset := 0;
    while offset < length
      invariant 0 <= offset <= length
      invariant Walked(a, c, x, t, k, state, seen)
      invariant EmittedOf(seen, emitted, length)
      invariant Filled(res[..offset], emitted, length)
      invariant IsDrawn(a, c, x, k, length, t, res[..offset])
    {
      state, t, seen := Draw(a, c, x, t, k, state, seen, modulus, length, emitted, res[..offset]);
      FilledAppend(res[..offset], emitted, length, state);
      res[offset] := state;
      emitted := emitted + {state};
      assert res[..offset + 1] == res[..offset] + [state];
      offset := offset + 1;
    }
    assert res[..offset] == res[..];
    DistinctBelow(res[..], length);
    assert Look(true);
    RestNotDrawn(a, c, x, t, k, state, seen, length);
    forall j: nat | LeastPower(j, length)
      ensures res[..] == Drawn(a, c, x, j, length, Pow2(j))
    {
      LeastPowerUnique(j, k, length);
    }
  }

  /** `mod <<= 1` on unsigned integers below `word`, `j` times from 1. */
  function Shifted(j: nat, word: nat): nat
    requires word > 0
  {
    if j == 0 then 1 else Shifted(j - 1, word) * 2 % word
  }

  lemma {:induction false} ShiftedValue(j: nat, word: nat, b: nat)
    requires word == 2 * Pow2(b)
    ensures Shifted(j, word) == if j <= b then Pow2(j) else 0
  {
    if j == 0 {
    } else if j <= b {
      ShiftedValue(j - 1, word, b);
      Pow2Monotonic(j, b);
      SmallMod(Pow2(j), word);
    } else if j == b + 1 {
      ShiftedValue(b, word, b);
      ModUnique(word, word, 1, 0);
    } else {
      ShiftedValue(j - 1, word, b);
      SmallMod(0, word);
    }
  }

  /** The bound on the length is exact: above 2^31 the search for the modulus
      never ends, because the shifted value wraps to zero first. */
  lemma ModulusTerminates(ceil: nat)
    requires ceil < WORD
    ensures (exists j: nat :: Shifted(j, WORD) >= ceil) <==> ceil <= 0x8000_0000
  {
    var top := 31;
    Pow2Small(top);
    forall j: nat
      ensures Shifted(j, WORD) <= Pow2(top)
    {
      ShiftedValue(j, WORD, top);
      if j <= top {
        Pow2Monotonic(j, top);
      }
    }
    ShiftedValue(top, WORD, top);
  }
}
