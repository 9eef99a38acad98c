/** Facts about sequences that the trace and string proofs share. */
module Seqs {
  /** Concatenation is associative; stated once so that proofs can name the regrouping they need. */
  lemma ConcatAssoc<T>(x: seq<T>, y: seq<T>, z: seq<T>)
    ensures (x + y) + z == x + (y + z)
  {
  }
}
