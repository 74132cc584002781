/** Facts about products, powers and remainders that the proofs need one at a time. */
module Arithmetic {

  function Pow2(k: nat): (r: nat)
    ensures r > 0
  {
    if k == 0 then 1 else 2 * Pow2(k - 1)
  }

  lemma MulBounds(m: int, d: int)
    requires m > 0
    ensures d > 0 ==> m * d >= m
    ensures d < 0 ==> m * d <= -m
  {
  }

  /** A remainder is determined by any division with a remainder in range. */
  lemma ModUnique(x: int, m: int, q: int, r: int)
    requires m > 0 && 0 <= r < m && x == m * q + r
    ensures x % m == r
  {
    var d := q - x / m;
    assert m * d == x % m - r;
    MulBounds(m, d);
  }

  lemma EqualModDifference(x: int, y: int, m: int) returns (q: int)
    requires m > 0 && x % m == y % m
    ensures x == y + m * q
  {
    q := x / m - y / m;
    assert x == m * (x / m) + x % m;
    assert y == m * (y / m) + y % m;
  }

  lemma SmallMod(x: nat, m: nat)
    requires x < m
    ensures x % m == x
  {
  }
}
