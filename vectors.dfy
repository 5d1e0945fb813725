/** Embedding vectors and the elementwise arithmetic that numpy's `+=` and `-=` perform on them. */
module Vectors {

  type Vector = seq<real>

  /** Elementwise sum of two vectors of one dimension. */
  function Add(a: Vector, b: Vector): (r: Vector)
    requires |a| == |b|
    ensures |r| == |a|
    ensures forall i :: 0 <= i < |r| ==> r[i] == a[i] + b[i]
  {
    seq(|a|, i requires 0 <= i < |a| => a[i] + b[i])
  }

  /** Elementwise difference of two vectors of one dimension. */
  function Sub(a: Vector, b: Vector): (r: Vector)
    requires |a| == |b|
    ensures |r| == |a|
    ensures forall i :: 0 <= i < |r| ==> r[i] == a[i] - b[i]
  {
    seq(|a|, i requires 0 <= i < |a| => a[i] - b[i])
  }

  /** The vector of `d` zeros. */
  function Zeros(d: nat): (r: Vector)
    ensures |r| == d
    ensures forall i :: 0 <= i < d ==> r[i] == 0.0
  {
    seq(d, i => 0.0)
  }

  /** Subtracting what was added gives back the original vector. */
  lemma SubUndoesAdd(a: Vector, b: Vector)
    requires |a| == |b|
    ensures Sub(Add(a, b), b) == a
  {
  }

  /** A vector minus itself is the zero vector (what `t -= t` leaves in place). */
  lemma SubSelf(a: Vector)
    ensures Sub(a, a) == Zeros(|a|)
  {
  }
}
