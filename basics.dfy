/** Small definitions shared by both games' models. */
module Basics {
  function Abs(n: int): nat { if n < 0 then -n else n }

  /** No element appears twice. */
  predicate Distinct<T(==)>(xs: seq<T>) {
    forall i, j :: 0 <= i < j < |xs| ==> xs[i] != xs[j]
  }
}
