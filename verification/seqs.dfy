/** Facts about sequence concatenation, stated once for any element type. */
module Seqs {

  lemma ConcatAssoc<T>(x: seq<T>, y: seq<T>, z: seq<T>)
    ensures (x + y) + z == x + (y + z)
  {
  }

  /** A non-empty `y` is its front followed by its last element, also behind any `x`. */
  lemma SplitLast<T>(x: seq<T>, y: seq<T>)
    requires y != []
    ensures y == y[..|y| - 1] + [y[|y| - 1]]
    ensures x + y == (x + y[..|y| - 1]) + [y[|y| - 1]]
  {
  }

  /** The front of `x + [e]` is `x`. */
  lemma FrontOfSnoc<T>(x: seq<T>, e: T)
    ensures (x + [e])[..|x|] == x
  {
  }
}
