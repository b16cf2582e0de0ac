/** Facts about sequences that the proofs of the other modules cite by name. */
module Seqs {
  /** Concatenation is associative; stated once so that proofs can cite it instead of re-deriving it. */
  lemma ConcatAssociative<T>(x: seq<T>, y: seq<T>, z: seq<T>)
    ensures (x + y) + z == x + (y + z)
  {
  }
}
