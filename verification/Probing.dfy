/** Linear probing in a table whose size is a power of two. */
module Probing {
  import opened Arithmetic

  /** The bucket tried at probe `d` for hash `h`. */
  function Slot(h: nat, d: nat, size: nat): (b: nat)
    requires size > 0
    ensures b < size
  {
    if d == 0 then h % size
    else
      var p := Slot(h, d - 1, size);
      if p + 1 == size then 0 else p + 1
  }

  /** This is the `(h + d) & (size - 1)` of the C code. */
  lemma {:induction false} SlotIsMasked(h: nat, d: nat, size: nat)
    requires size > 0
    ensures Slot(h, d, size) == (h + d) % size
    decreases d
  {
    if d > 0 {
      SlotIsMasked(h, d - 1, size);
      var x := h + d - 1;
      var q, r := x / size, x % size;
      assert x == size * q + r;
      if r + 1 == size {
        assert x + 1 == size * (q + 1) + 0;
        ModUnique(x + 1, size, q + 1, 0);
      } else {
        ModUnique(x + 1, size, q, r + 1);
      }
    }
  }

  lemma {:induction false} SlotWraps(h: nat, d: nat, size: nat)
    requires d < size
    ensures var r := h % size; Slot(h, d, size) == if r + d < size then r + d else r + d - size
    decreases d
  {
    if d > 0 {
      SlotWraps(h, d - 1, size);
    }
  }

  /** Probing reaches every bucket. */
  lemma SlotReaches(h: nat, b: nat, size: nat) returns (d: nat)
    requires b < size
    ensures d < size && Slot(h, d, size) == b
  {
    var r := h % size;
    d := if r <= b then b - r else size + b - r;
    SlotWraps(h, d, size);
  }
}
