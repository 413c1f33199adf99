/** Vectors of any positive dimension and their arithmetic.

    The library has a bare vector container (used by the matrix of the
    elimination solver and by the dominance methods) and an arithmetic
    vector; both hold a non-empty array of doubles.  Here both are the
    subset type `Vec`: a value type, so every copy is independent storage.
 */
module Vectors {
  import opened Results

  type Vec = v: seq<real> | |v| >= 1 witness [0.0]

  /** Tolerance of the element-wise value comparison. */
  const Tolerance: real := 0.0000000000000001

  function Abs(x: real): real {
    if x < 0.0 then -x else x
  }

  /** The message of the dimension check of `new Vector(n)`. */
  function DimensionError(n: int): string
  {
    "Can not create " + IntText(n) + "-dimensional vector. Such a vector has no meaning"
  }

  /** `new Vector(n)`: an all-zero vector; a dimension below 1 is rejected. */
  function Zero(n: int): (r: Result<Vec>)
    ensures r.Success? <==> n >= 1
    ensures r.Failure? ==> r.error == DimensionError(n)
    ensures r.Success? ==> |r.v| == n && forall i :: 0 <= i < n ==> r.v[i] == 0.0
  {
    if n < 1 then Result<Vec>.Failure(DimensionError(n))
    else Success(seq(n, _ => 0.0))
  }

  /** `new Vector(values)`: the vector holding `values`; no values means a
      dimension of 0, which is rejected. */
  function FromValues(values: seq<real>): (r: Result<Vec>)
    ensures r.Success? <==> |values| >= 1
    ensures r.Failure? ==> r.error == DimensionError(0)
    ensures r.Success? ==> r.v == values
  {
    if |values| < 1 then Result<Vec>.Failure(DimensionError(0))
    else Success(values)
  }

  // ---------------------------------------------------------------------
  // Value comparison and comparability

  /** Every pair of coordinates lies within the tolerance. */
  predicate ValueEqual(u: seq<real>, w: seq<real>)
    requires |u| == |w|
  {
    forall i :: 0 <= i < |u| ==> Abs(u[i] - w[i]) <= Tolerance
  }

  /** Some coordinate of `u` is strictly larger than the same coordinate of `w`. */
  predicate SomeGreater(u: seq<real>, w: seq<real>)
    requires |u| == |w|
  {
    exists i :: 0 <= i < |u| && u[i] > w[i]
  }

  /** The two vectors can be ordered: equal by value, or exactly one of
      them has a strictly larger coordinate. */
  predicate IsComparable(u: seq<real>, w: seq<real>)
  {
    |u| == |w| && (ValueEqual(u, w) || SomeGreater(u, w) != SomeGreater(w, u))
  }

  /** `Vector.CompareByValue`: rejects a dimension mismatch, then scans the
      coordinates and answers false at the first pair further apart than
      the tolerance. */
  method CompareByValue(u: Vec, w: Vec) returns (r: Result<bool>)
    ensures r.Failure? <==> |u| != |w|
    ensures r.Success? ==> (r.v <==> ValueEqual(u, w))
  {
    if |u| != |w| {
      return Failure("Vectors with different dimension cannot be compared");
    }
    var i := 0;
    while i < |u|
      invariant 0 <= i <= |u|
      invariant forall k :: 0 <= k < i ==> Abs(u[k] - w[k]) <= Tolerance
    {
      if Abs(u[i] - w[i]) > Tolerance {
        return Success(false);
      }
      i := i + 1;
    }
    return Success(true);
  }

  /** `Vector.Comparable`: false for different dimensions (no exception),
      true for value-equal vectors, otherwise true exactly when one side and
      only one side has a strictly larger coordinate. */
  method Comparable(u: Vec, w: Vec) returns (r: bool)
    ensures r <==> IsComparable(u, w)
  {
    if |u| != |w| {
      return false;
    }
    var equal := CompareByValue(u, w);
    if equal.v {
      return true;
    }
    var firstBigger, secondBigger := false, false;
    var i := 0;
    while i < |u|
      invariant 0 <= i <= |u|
      invariant firstBigger <==> exists k :: 0 <= k < i && u[k] > w[k]
      invariant secondBigger <==> exists k :: 0 <= k < i && w[k] > u[k]
    {
      if u[i] > w[i] {
        firstBigger := true;
      } else if u[i] < w[i] {
        secondBigger := true;
      }
      i := i + 1;
    }
    r := (firstBigger && !secondBigger) || (!firstBigger && secondBigger);
  }

  /** Comparability does not depend on the order of the arguments. */
  lemma {:induction false} ComparableSymmetric(u: seq<real>, w: seq<real>)
    ensures IsComparable(u, w) <==> IsComparable(w, u)
  {
    if |u| == |w| && ValueEqual(u, w) {
      forall i | 0 <= i < |u|
        ensures Abs(w[i] - u[i]) <= Tolerance
      {
        assert Abs(w[i] - u[i]) == Abs(u[i] - w[i]);
      }
    }
  }

  // ---------------------------------------------------------------------
  // Arithmetic

  /** `Vector.Subtract`: element-wise difference of equal-dimension vectors. */
  function Subtract(u: Vec, w: Vec): (r: Result<Vec>)
    ensures r.Failure? <==> |u| != |w|
    ensures r.Success? ==> |r.v| == |u| && forall i :: 0 <= i < |u| ==> r.v[i] == u[i] - w[i]
  {
    if |u| != |w| then Failure("Vectors have different dimensions")
    else Success(seq(|u|, i requires 0 <= i < |u| => u[i] - w[i]))
  }

  /** `Vector.Sum`: element-wise sum of equal-dimension vectors. */
  function Sum(u: Vec, w: Vec): (r: Result<Vec>)
    ensures r.Failure? <==> |u| != |w|
    ensures r.Success? ==> |r.v| == |u| && forall i :: 0 <= i < |u| ==> r.v[i] == u[i] + w[i]
  {
    if |u| != |w| then Failure("Vectors have different dimensions")
    else Success(seq(|u|, i requires 0 <= i < |u| => u[i] + w[i]))
  }

  /** `Vector.Divide`: every element divided by a non-zero scalar. */
  function Divide(u: Vec, scalar: real): (r: Result<Vec>)
    ensures r.Failure? <==> scalar == 0.0
    ensures r.Success? ==> |r.v| == |u| && forall i :: 0 <= i < |u| ==> r.v[i] * scalar == u[i]
  {
    if scalar == 0.0 then Failure("Scalar can not be 0")
    else Success(seq(|u|, i requires 0 <= i < |u| => u[i] / scalar))
  }

  /** `Vector.Multiply`: every element multiplied by the scalar. */
  function Multiply(u: Vec, scalar: real): (r: Vec)
    ensures |r| == |u| && forall i :: 0 <= i < |u| ==> r[i] == u[i] * scalar
  {
    seq(|u|, i requires 0 <= i < |u| => u[i] * scalar)
  }

  /** Subtracting and adding back the same vector is the identity, and a
      dimension mismatch is reported by both operations alike. */
  lemma {:induction false} SubtractThenSum(u: Vec, w: Vec)
    ensures Subtract(u, w).Success? <==> Sum(u, w).Success?
    ensures |u| == |w| ==> Sum(Subtract(u, w).v, w) == Success(u)
  {
    if |u| == |w| {
      var d := Subtract(u, w).v;
      assert Sum(d, w).v == u;
    }
  }

  /** Dividing by a non-zero scalar and multiplying back is the identity. */
  lemma {:induction false} DivideThenMultiply(u: Vec, scalar: real)
    requires scalar != 0.0
    ensures Multiply(Divide(u, scalar).v, scalar) == u
  {
    var q := Divide(u, scalar).v;
    forall i | 0 <= i < |u|
      ensures Multiply(q, scalar)[i] == u[i]
    {
      assert q[i] == u[i] / scalar;
    }
    assert Multiply(q, scalar) == u;
  }
}
