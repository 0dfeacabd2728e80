/** Facts about sequences shared by the folds that recurse on their last element. */
module Seqs {
  /** A non-empty sequence is its front plus its last element, also after a prefix. */
  lemma SnocSplit<T>(a: seq<T>, b: seq<T>)
    requires b != []
    ensures b == b[..|b| - 1] + [b[|b| - 1]]
    ensures a + b == (a + b[..|b| - 1]) + [b[|b| - 1]]
  {
  }
}
