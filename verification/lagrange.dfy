/** Lagrange interpolation: the polynomial of degree below `n` through `n`
    points `(xs[i], ys[i])`, built as the sum over `i` of

        ys[i] / Π_{j≠i} (xs[i] - xs[j])  ·  Π_{j≠i} (X - xs[j])

    with the library's own polynomial product and sum.  The outer loop
    polls the cancellation token once per point.
 */
module Lagrange {
  import opened Results
  import opened Sums
  import opened Polynomials
  import Cancellation

  /** `Π (z - xs[j])` over `j < m`, `j != i`: the numerator of basis
      polynomial `i`, evaluated at `z`, after the first `m` factors. */
  function NodeProduct(xs: seq<real>, i: nat, m: nat, z: real): real
    requires m <= |xs|
  {
    if m == 0 then 1.0 else NodeProduct(xs, i, m - 1, z) * Factor(xs, i, m - 1, z)
  }

  /** Factor `j` of basis `i` at `z`: `z - xs[j]`, or 1 for `j == i`. */
  function Factor(xs: seq<real>, i: nat, j: nat, z: real): real
    requires j < |xs|
  {
    if j == i then 1.0 else z - xs[j]
  }

  /** Basis polynomial `i` vanishes at every other node it has passed. */
  lemma {:induction false} NodeProductVanishes(xs: seq<real>, i: nat, m: nat, k: nat)
    requires m <= |xs| && k < m && k != i
    ensures NodeProduct(xs, i, m, xs[k]) == 0.0
  {
    if m - 1 != k {
      NodeProductVanishes(xs, i, m - 1, k);
      assert NodeProduct(xs, i, m - 1, xs[k]) == 0.0;
    } else {
      assert xs[k] - xs[m - 1] == 0.0;
    }
  }

  /** The constant polynomial 1. */
  lemma EvalOne(z: real)
    ensures Eval([1.0], z) == 1.0
  {
    assert Powers(z, 1) == [1.0];
    assert Dot([1.0], [1.0]) == Dot([], []) + 1.0 * 1.0 by {
      assert [1.0][..0] == [];
    }
  }

  /** The linear factor `Polynomial(-c, 1)`, that is `X - c`. */
  lemma EvalLinear(c: real, z: real)
    ensures Eval([-c, 1.0], z) == z - c
  {
    var p, w := [-c, 1.0], Powers(z, 2);
    assert w[0] == 1.0 && w[1] == z;
    assert p[..1] == [-c] && w[..1] == [1.0];
    assert [-c][..0] == [] && [1.0][..0] == [];
    assert Dot([-c], [1.0]) == -c;
    assert Dot(p, w) == Dot(p[..1], w[..1]) + p[1] * w[1];
  }

  /** The numerator polynomial of basis `i` after the first `m` factors:
      `Π (X - xs[j])` over `j < m`, `j != i`, multiplied out with the
      library's polynomial product. */
  function NodePoly(xs: seq<real>, i: nat, m: nat): (r: Poly)
    requires m <= |xs|
    ensures |r| == if i < m then m else m + 1
  {
    if m == 0 then [1.0]
    else if m - 1 == i then NodePoly(xs, i, m - 1)
    else Polynomials.Product(NodePoly(xs, i, m - 1), [-xs[m - 1], 1.0])
  }

  /** The multiplied-out numerator has the value of the node product. */
  lemma {:induction false} EvalNodePoly(xs: seq<real>, i: nat, m: nat, z: real)
    requires m <= |xs|
    ensures Eval(NodePoly(xs, i, m), z) == NodeProduct(xs, i, m, z)
  {
    if m == 0 {
      EvalOne(z);
      assert NodePoly(xs, i, m) == [1.0];
    } else {
      EvalNodePoly(xs, i, m - 1, z);
      EvalNodePolyStep(xs, i, m, z);
    }
  }

  /** One more factor multiplies the node product by that factor. */
  lemma NodeProductStep(xs: seq<real>, i: nat, m: nat, z: real, e: real)
    requires 0 < m <= |xs| && NodeProduct(xs, i, m - 1, z) == e
    ensures NodeProduct(xs, i, m, z) == e * Factor(xs, i, m - 1, z)
  {
  }

  /** One more factor multiplies the numerator's value by that factor. */
  lemma EvalNodePolyStep(xs: seq<real>, i: nat, m: nat, z: real)
    requires 0 < m <= |xs|
    requires Eval(NodePoly(xs, i, m - 1), z) == NodeProduct(xs, i, m - 1, z)
    ensures Eval(NodePoly(xs, i, m), z) == NodeProduct(xs, i, m, z)
  {
    var e := NodeProduct(xs, i, m - 1, z);
    NodeProductStep(xs, i, m, z, e);
    EvalNodePolyFactor(xs, i, m, z, e);
  }

  /** The numerator gains the factor of node `m - 1`. */
  lemma EvalNodePolyFactor(xs: seq<real>, i: nat, m: nat, z: real, e: real)
    requires 0 < m <= |xs|
    requires Eval(NodePoly(xs, i, m - 1), z) == e
    ensures Eval(NodePoly(xs, i, m), z) == e * Factor(xs, i, m - 1, z)
  {
    if m - 1 != i {
      EvalNodePolyOther(xs, i, m, z, e);
    } else {
      EvalNodePolyOwn(xs, i, m, z, e);
    }
  }

  /** A node other than the point's own multiplies in `X - xs[m - 1]`. */
  lemma EvalNodePolyOther(xs: seq<real>, i: nat, m: nat, z: real, e: real)
    requires 0 < m <= |xs| && m - 1 != i
    requires Eval(NodePoly(xs, i, m - 1), z) == e
    ensures Eval(NodePoly(xs, i, m), z) == e * Factor(xs, i, m - 1, z)
  {
    NodePolyOther(xs, i, m);
    EvalTimesLinear(NodePoly(xs, i, m - 1), xs[m - 1], z, e, Factor(xs, i, m - 1, z));
  }

  /** The definition of the numerator, at a node other than the point's own. */
  lemma NodePolyOther(xs: seq<real>, i: nat, m: nat)
    requires 0 < m <= |xs| && m - 1 != i
    ensures NodePoly(xs, i, m) == Polynomials.Product(NodePoly(xs, i, m - 1), [-xs[m - 1], 1.0])
  {
  }

  /** The point's own node leaves the numerator as it is. */
  lemma EvalNodePolyOwn(xs: seq<real>, i: nat, m: nat, z: real, e: real)
    requires 0 < m <= |xs| && m - 1 == i
    requires Eval(NodePoly(xs, i, m - 1), z) == e
    ensures Eval(NodePoly(xs, i, m), z) == e * Factor(xs, i, m - 1, z)
  {
    assert NodePoly(xs, i, m) == NodePoly(xs, i, m - 1);
    assert Factor(xs, i, m - 1, z) == 1.0;
  }

  /** Multiplying by the factor `X - c` multiplies the value by `z - c`. */
  lemma EvalTimesLinear(p: Poly, c: real, z: real, e: real, f: real)
    requires Eval(p, z) == e && f == z - c
    ensures Eval(Polynomials.Product(p, [-c, 1.0]), z) == e * f
  {
    EvalProduct(p, [-c, 1.0], z);
    EvalLinear(c, z);
  }

  /** The weight of point `i` after the first `m` factors: `ys[i]`
      divided by `xs[i] - xs[j]` for every `j < m`, `j != i`. */
  function Weight(xs: seq<real>, ys: seq<real>, i: nat, m: nat): real
    requires Distinct(xs) && i < |xs| && i < |ys| && m <= |xs|
  {
    if m == 0 then ys[i] else Weight(xs, ys, i, m - 1) / Factor(xs, i, m - 1, xs[i])
  }

  /** With distinct nodes every division is by a non-zero gap, so the
      weight times the node product at the point's own node is `ys[i]`. */
  lemma {:induction false} WeightTimesNodeProduct(xs: seq<real>, ys: seq<real>, i: nat, m: nat)
    requires Distinct(xs) && i < |xs| && i < |ys| && m <= |xs|
    ensures Weight(xs, ys, i, m) * NodeProduct(xs, i, m, xs[i]) == ys[i]
  {
    if m > 0 {
      WeightTimesNodeProduct(xs, ys, i, m - 1);
      var d := Factor(xs, i, m - 1, xs[i]);
      assert d != 0.0;
      NodeProductStep(xs, i, m, xs[i], NodeProduct(xs, i, m - 1, xs[i]));
      var w, p := Weight(xs, ys, i, m - 1), NodeProduct(xs, i, m - 1, xs[i]);
      assert (w / d) * (p * d) == w * p;
    }
  }

  /** The inner loop for point `i`: multiplies `X - xs[j]` into `pol` and
      divides `a` (starting from `ys[i]`) by `xs[i] - xs[j]`, for every
      `j != i`. */
  method BasisTerm(xs: seq<real>, ys: seq<real>, i: nat) returns (pol: Poly, a: real)
    requires Distinct(xs) && i < |xs| && i < |ys|
    ensures pol == NodePoly(xs, i, |xs|)
    ensures a == Weight(xs, ys, i, |xs|)
  {
    pol := [1.0];
    a := ys[i];
    var j := 0;
    while j < |xs|
      invariant 0 <= j <= |xs|
      invariant pol == NodePoly(xs, i, j)
      invariant a == Weight(xs, ys, i, j)
    {
      pol := NextNumerator(xs, i, j, pol);
      a := DivideByNodeGap(xs, ys, i, j, a);
      j := j + 1;
    }
  }

  /** `pol *= new Polynomial(-xs[j], 1)`, skipped for `j == i`. */
  method NextNumerator(xs: seq<real>, i: nat, j: nat, pol: Poly) returns (next: Poly)
    requires j < |xs| && pol == NodePoly(xs, i, j)
    ensures next == NodePoly(xs, i, j + 1)
  {
    if j != i {
      next := Multiply(pol, [-xs[j], 1.0]);
      NodePolyOther(xs, i, j + 1);
    } else {
      next := pol;
    }
  }

  /** `a /= xs[i] - xs[j]`, skipped for `j == i`. */
  method DivideByNodeGap(xs: seq<real>, ys: seq<real>, i: nat, j: nat, a: real) returns (b: real)
    requires Distinct(xs) && i < |xs| && i < |ys| && j < |xs| && a == Weight(xs, ys, i, j)
    ensures b == Weight(xs, ys, i, j + 1)
  {
    if j != i {
      b := a / (xs[i] - xs[j]);
    } else {
      b := a;
    }
  }

  /** The term of point `i` is `ys[i]` at its own node and 0 at every
      other node. */
  lemma {:induction false} TermAtNode(xs: seq<real>, ys: seq<real>, i: nat, k: nat)
    requires Distinct(xs) && i < |xs| && i < |ys| && k < |xs|
    ensures Eval(Scale(NodePoly(xs, i, |xs|), Weight(xs, ys, i, |xs|)), xs[k]) == if k == i then ys[i] else 0.0
  {
    var w := Weight(xs, ys, i, |xs|);
    EvalScale(NodePoly(xs, i, |xs|), w, xs[k]);
    EvalNodePoly(xs, i, |xs|, xs[k]);
    if k != i {
      NodeProductVanishes(xs, i, |xs|, k);
    } else {
      WeightTimesNodeProduct(xs, ys, i, |xs|);
    }
  }

  /** One point's term added into the running sum with the library's
      `Polynomial.Sum`, which never fails here: the running sum is either
      the initial `Polynomial(0)` or as long as the term. */
  method AddTerm(xs: seq<real>, ys: seq<real>, i: nat, sum: Poly) returns (next: Poly)
    requires Distinct(xs) && i < |xs| && i < |ys|
    requires |sum| == if i == 0 then 1 else |xs|
    requires forall k :: 0 <= k < |xs| ==> Eval(sum, xs[k]) == if k < i then ys[k] else 0.0
    ensures |next| == |xs|
    ensures forall k :: 0 <= k < |xs| ==> Eval(next, xs[k]) == if k < i + 1 then ys[k] else 0.0
  {
    var pol, a := BasisTerm(xs, ys, i);
    var term: Poly := Scale(pol, a);
    if i == 0 {
      assert HighestPower(sum) == 0;
    }
    var s := SumAsWritten(sum, term);
    next := s.v;
    forall k | 0 <= k < |xs|
      ensures Eval(next, xs[k]) == if k < i + 1 then ys[k] else 0.0
    {
      EvalAdd(sum, term, xs[k]);
      TermAtNode(xs, ys, i, k);
    }
  }

  /** `CalculatePolynomialCoefficients`: the coefficients, lowest power
      first, of the interpolation polynomial.  The checks for fewer than
      two points and for unequal lengths build a failure that is never
      returned; a `ys` shorter than `xs` fails only when the loop reads
      past its end.  The nodes must be distinct: a repeated node is a
      division by zero. */
  method CalculatePolynomialCoefficients(xs: seq<real>, ys: seq<real>, ct: Cancellation.Token)
    returns (r: Result<seq<real>>)
    requires Distinct(xs)
    ensures |ys| < |xs| && ct.Requested(|ys|) ==> r == Failure(Cancellation.CanceledError)
    ensures |ys| < |xs| && !ct.Requested(|ys|) ==> r == Failure(IndexError)
    ensures |ys| >= |xs| && |xs| > 0 && ct.Requested(|xs| - 1) ==> r == Failure(Cancellation.CanceledError)
    ensures |ys| >= |xs| && !(|xs| > 0 && ct.Requested(|xs| - 1)) ==> r.Success?
    ensures r.Success? ==> |r.v| == if |xs| == 0 then 1 else |xs|
    ensures r.Success? ==> forall k :: 0 <= k < |xs| ==> Eval(r.v, xs[k]) == ys[k]
  {
    var sum: Poly := [0.0];
    var i := 0;
    forall k | 0 <= k < |xs|
      ensures Eval(sum, xs[k]) == 0.0
    {
      EvalOne(xs[k]);
      EvalScale([1.0], 0.0, xs[k]);
      assert Scale([1.0], 0.0) == sum;
    }
    while i < |xs|
      invariant 0 <= i <= |xs| && i <= |ys|
      invariant i > 0 ==> !ct.Requested(i - 1)
      invariant |sum| == if i == 0 then 1 else |xs|
      invariant forall k :: 0 <= k < |xs| ==> Eval(sum, xs[k]) == if k < i then ys[k] else 0.0
    {
      if ct.Requested(i) {
        return Failure(Cancellation.CanceledError);
      }
      if i >= |ys| {
        return Failure(IndexError);
      }
      sum := AddTerm(xs, ys, i, sum);
      i := i + 1;
    }
    return Success(sum);
  }

  /** `CreatePolinimial`: the interpolation polynomial as a function,
      `x ↦ Σ c[i] * x^i` over the coefficients; a failure to compute the
      coefficients is passed on. */
  method CreatePolinimial(xs: seq<real>, ys: seq<real>, ct: Cancellation.Token)
    returns (r: Result<real -> real>)
    requires Distinct(xs)
    ensures |ys| < |xs| && ct.Requested(|ys|) ==> r == Failure(Cancellation.CanceledError)
    ensures |ys| < |xs| && !ct.Requested(|ys|) ==> r == Failure(IndexError)
    ensures |ys| >= |xs| && |xs| > 0 && ct.Requested(|xs| - 1) ==> r == Failure(Cancellation.CanceledError)
    ensures |ys| >= |xs| && !(|xs| > 0 && ct.Requested(|xs| - 1)) ==> r.Success?
    ensures r.Success? ==> forall k :: 0 <= k < |xs| ==> r.v(xs[k]) == ys[k]
    ensures r.Success? ==> exists c: seq<real> ::
      |c| == (if |xs| == 0 then 1 else |xs|) && forall z :: r.v(z) == Eval(c, z)
  {
    var coefficients := CalculatePolynomialCoefficients(xs, ys, ct);
    if coefficients.Failure? {
      return Failure(coefficients.error);
    }
    var c := coefficients.v;
    r := Success((z: real) => Eval(c, z));
    assert forall z :: r.v(z) == Eval(c, z);
  }
}
