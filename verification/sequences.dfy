/** Sequence tools the containers' specifications are written with. */
module Sequences {
  import opened Boundary

  /** Every element wrapped as a present value. */
  function Somes<T>(xs: seq<T>): (r: seq<Option<T>>)
  {
    seq(|xs|, i requires 0 <= i < |xs| => Some(xs[i]))
  }

  /** The elements in the opposite order. */
  function Reverse<T>(xs: seq<T>): (r: seq<T>)
  {
    seq(|xs|, i requires 0 <= i < |xs| => xs[|xs| - 1 - i])
  }

  /** Wrapping a non-empty sequence wraps its first element, then the rest. */
  lemma SomesOfCons<T>(xs: seq<T>)
    requires xs != []
    ensures Somes(xs) == [Some(xs[0])] + Somes(xs[1..])
  {
  }

  lemma ReverseReverse<T>(xs: seq<T>)
    ensures Reverse(Reverse(xs)) == xs
  {
    assert forall i :: 0 <= i < |xs| ==> Reverse(Reverse(xs))[i] == xs[i];
  }

  /** Reversing starts with the last element. */
  lemma ReverseFromLast<T>(xs: seq<T>)
    requires xs != []
    ensures Reverse(xs) == [xs[|xs| - 1]] + Reverse(xs[..|xs| - 1])
  {
  }

  /** Reversing ends with the first element. */
  lemma ReverseOfCons<T>(x: T, xs: seq<T>)
    ensures Reverse([x] + xs) == Reverse(xs) + [x]
  {
  }
}
