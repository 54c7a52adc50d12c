/** Sequences without repetition, and reversed. */
module Sequences {

  ghost predicate NoDuplicates<T>(q: seq<T>) {
    forall i, j :: 0 <= i < j < |q| ==> q[i] != q[j]
  }

  function Reversed<T>(q: seq<T>): seq<T> {
    if q == [] then [] else [q[|q| - 1]] + Reversed(q[..|q| - 1])
  }

  lemma {:induction false} ReversedIs<T>(q: seq<T>)
    ensures |Reversed(q)| == |q| && forall k :: 0 <= k < |q| ==> Reversed(q)[k] == q[|q| - 1 - k]
  {
    if q != [] { ReversedIs(q[..|q| - 1]); }
  }
}
