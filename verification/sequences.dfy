/** Sequence helpers shared by the scorer and the generator. */
module Sequences {

  /** `Array.prototype.indexOf` restricted to values that occur:
      the lowest index holding `v`. */
  function IndexOf<T(==)>(xs: seq<T>, v: T): (k: nat)
    requires v in xs
    ensures k < |xs| && xs[k] == v
    ensures forall j :: 0 <= j < k ==> xs[j] != v
  {
    if xs[0] == v then 0 else 1 + IndexOf(xs[1..], v)
  }
}
