/** A measure for searches with a stack. Each frame stands for some units of work; a unit at
one level outweighs a whole frame one level up. */
module Effort {

  /** `x` times `w`. */
  function Times(x: nat, w: nat): nat {
    if x == 0 then 0 else w + Times(x - 1, w)
  }

  function Pow(b: nat, e: nat): nat {
    if e == 0 then 1 else Times(b, Pow(b, e - 1))
  }

  /** The weight of a level in a stack of at most `n` frames. */
  function LevelWeight(b: nat, n: nat, level: nat): nat {
    Pow(b, if level <= n then n - level else 0)
  }

  function Weight(us: seq<nat>, b: nat, n: nat): nat {
    if us == [] then 0
    else Weight(us[..|us| - 1], b, n) + Times(us[|us| - 1], LevelWeight(b, n, |us|))
  }

  lemma {:induction false} PowPositive(b: nat, e: nat)
    requires b > 0
    ensures Pow(b, e) > 0
  {
    if e > 0 {
      PowPositive(b, e - 1);
    }
  }

  lemma {:induction false} LessTimes(x: nat, d: nat, w: nat)
    requires x < d
    ensures Times(x, w) + w <= Times(d, w)
    decreases d
  {
    if x < d - 1 {
      LessTimes(x, d - 1, w);
    }
  }

  /** Using up a unit of the top frame frees one level weight. */
  lemma {:induction false} WeightLower(us: seq<nat>, u: nat, b: nat, n: nat)
    requires us != [] && u < us[|us| - 1] && b > 0
    ensures Weight(us[|us| - 1 := u], b, n) + LevelWeight(b, n, |us|) <= Weight(us, b, n)
    ensures Weight(us[|us| - 1 := u], b, n) < Weight(us, b, n)
  {
    var t := |us| - 1;
    assert us[t := u][..t] == us[..t];
    LessTimes(u, us[t], LevelWeight(b, n, |us|));
    PowPositive(b, if |us| <= n then n - |us| else 0);
  }

  /** A new frame costs less than a level weight of the one below it. */
  lemma {:induction false} WeightPush(us: seq<nat>, u: nat, b: nat, n: nat)
    requires |us| < n && u < b
    ensures Weight(us + [u], b, n) < Weight(us, b, n) + LevelWeight(b, n, |us|)
  {
    var e := n - |us| - 1;
    assert (us + [u])[..|us|] == us;
    PowPositive(b, e);
    LessTimes(u, b, Pow(b, e));
  }

  lemma {:induction false} WeightPop(us: seq<nat>, b: nat, n: nat)
    requires us != [] && us[|us| - 1] > 0 && b > 0
    ensures Weight(us[..|us| - 1], b, n) < Weight(us, b, n)
  {
    PowPositive(b, if |us| <= n then n - |us| else 0);
  }
}
