/** A way to keep heavy invariants out of proofs that only pass them on: the invariant is stated
    behind a guard that such proofs never mention. */
module Guards {
  /** Always true. An invariant stated for every b with LookInside(b) is seen only where
      LookInside(true) is asserted. */
  predicate LookInside(b: bool) {
    true
  }
}
