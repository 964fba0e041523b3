/** A way to keep the definition of a predicate folded: stated under `forall k :: Unfold(k) ==>`,
    it stays closed in a proof until a term `Unfold(..)` is mentioned there. `Outer` does the same
    for a predicate made of predicates that are to stay folded when it is opened. */
module Folding {
  predicate Unfold(k: int) {
    true
  }

  predicate Outer(k: int) {
    true
  }
}
