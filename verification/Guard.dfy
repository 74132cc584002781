/** A guard for large invariants. A predicate written as

    forall b {:trigger Look(b)} :: Look(b) ==> Body

means the same as its body, but a proof only sees the body where it mentions
`Look`. Methods that merely pass an invariant on stay cheap to verify. */
module Guard {
  predicate Look(b: bool) { true }

  /** The same, for predicates that are made of guarded ones. */
  predicate Peek(b: bool) { true }
}
