/** Polynomials as coefficient sequences, lowest power first
    (`p[0]` is the constant term), and their arithmetic.

    Every operation is stated twice: coefficient by coefficient, as the
    library computes it, and through `Eval`, the value of the polynomial at
    a point, so that sums, differences and products are shown to be the
    sums, differences and products of the polynomial functions.
 */
module Polynomials {
  import opened Results
  import Sums

  /** A polynomial holds at least one coefficient. */
  type Poly = p: seq<real> | |p| >= 1 witness [0.0]

  const EmptyError := "Expect at least one element to create polynomial"
  const ScalarError := "Scalar can not be 0"
  /** The runtime's message for an array index past the end. */
  const IndexError := "Index was outside the bounds of the array."

  /** Both constructors: an empty coefficient list is rejected, anything
      else is stored as given. */
  function FromCoefficients(cs: seq<real>): (r: Result<Poly>)
    ensures r.Success? <==> |cs| >= 1
    ensures r.Success? ==> r.v == cs
    ensures r.Failure? ==> r.error == EmptyError
  {
    if |cs| < 1 then Failure(EmptyError) else Success(cs)
  }

  // ---------------------------------------------------------------------
  // Values

  function Pow(x: real, n: nat): real {
    if n == 0 then 1.0 else x * Pow(x, n - 1)
  }

  lemma {:induction false} PowAdd(x: real, m: nat, n: nat)
    ensures Pow(x, m + n) == Pow(x, m) * Pow(x, n)
  {
    if n > 0 {
      PowAdd(x, m, n - 1);
      assert Pow(x, m + n) == x * Pow(x, m + n - 1);
    }
  }

  /** `1, x, x^2, ..., x^(n-1)`. */
  function Powers(x: real, n: nat): (r: seq<real>)
    ensures |r| == n
  {
    seq(n, i requires 0 <= i < n => Pow(x, i))
  }

  /** The value of the polynomial at `x`: the sum of `p[i] * x^i`. */
  function Eval(p: seq<real>, x: real): real {
    Sums.Dot(p, Powers(x, |p|))
  }

  /** `p` extended with zero coefficients up to length `n`. */
  function Pad(p: seq<real>, n: nat): (r: seq<real>)
    requires |p| <= n
    ensures |r| == n
    ensures forall k :: 0 <= k < |p| ==> r[k] == p[k]
    ensures forall k :: |p| <= k < n ==> r[k] == 0.0
  {
    seq(n, k requires 0 <= k < n => if k < |p| then p[k] else 0.0)
  }

  /** Zero coefficients of higher powers do not change the value. */
  lemma {:induction false} EvalPad(p: seq<real>, n: nat, x: real)
    requires |p| <= n
    ensures Eval(Pad(p, n), x) == Eval(p, x)
  {
    var t, w := Pad(p, n), Powers(x, n);
    Sums.DotSplit(t, w, |p|);
    assert t[..|p|] == p;
    assert w[..|p|] == Powers(x, |p|);
    Sums.DotZero(t[|p|..], w[|p|..]);
  }

  // ---------------------------------------------------------------------
  // Highest power

  /** `HighestPower`: the largest index holding a non-zero coefficient, or
      0 when every coefficient is zero. */
  function HighestPower(p: Poly): (r: nat)
    ensures r < |p|
    ensures r == 0 || p[r] != 0.0
    ensures forall i :: r < i < |p| ==> p[i] == 0.0
  {
    LastNonZero(p, |p| - 1)
  }

  /** The scan from index `i` downwards. */
  function LastNonZero(p: Poly, i: nat): (r: nat)
    requires i < |p|
    requires forall k :: i < k < |p| ==> p[k] == 0.0
    ensures r <= i
    ensures r == 0 || p[r] != 0.0
    ensures forall k :: r < k < |p| ==> p[k] == 0.0
  {
    if p[i] != 0.0 || i == 0 then i else LastNonZero(p, i - 1)
  }

  /** Dropping the coefficients above the highest power keeps the value. */
  lemma {:induction false} HighestPowerEval(p: Poly, x: real)
    ensures Eval(p[..HighestPower(p) + 1], x) == Eval(p, x)
  {
    var t := p[..HighestPower(p) + 1];
    assert Pad(t, |p|) == p;
    EvalPad(t, |p|, x);
  }

  // ---------------------------------------------------------------------
  // Sums and differences

  /** The padded sum: coefficient `k` is the sum of the two coefficients of
      power `k`, a missing one counting as zero. */
  function Add(p: Poly, q: Poly): (r: Poly)
    ensures |r| == if |p| >= |q| then |p| else |q|
    ensures forall k :: 0 <= k < |r| ==>
      r[k] == (if k < |p| then p[k] else 0.0) + (if k < |q| then q[k] else 0.0)
  {
    var n := if |p| >= |q| then |p| else |q|;
    seq(n, k requires 0 <= k < n =>
      (if k < |p| then p[k] else 0.0) + (if k < |q| then q[k] else 0.0))
  }

  lemma {:induction false} EvalAdd(p: Poly, q: Poly, x: real)
    ensures Eval(Add(p, q), x) == Eval(p, x) + Eval(q, x)
  {
    var n := |Add(p, q)|;
    assert Add(p, q) == Sums.Plus(Pad(p, n), Pad(q, n));
    Sums.DotPlus(Pad(p, n), Pad(q, n), Powers(x, n));
    EvalPad(p, n, x);
    EvalPad(q, n, x);
  }

  /** `Polynomial.Sum` as the library writes it: the operand with the
      strictly higher `HighestPower` (the second one on a tie) is copied and
      the other one is added into it index by index, which runs past the
      end of the copy when the other operand has more coefficients. */
  function SumAsWritten(first: Poly, second: Poly): (r: Result<Poly>)
    ensures var firstHigher := HighestPower(first) > HighestPower(second);
            var higher := if firstHigher then first else second;
            var smaller := if firstHigher then second else first;
            (r.Failure? <==> |smaller| > |higher|) &&
            (r.Failure? ==> r.error == IndexError) &&
            (r.Success? ==> |r.v| == |higher|)
    ensures r.Success? ==> r.v == Add(first, second)
  {
    var firstHigher := HighestPower(first) > HighestPower(second);
    var higher := if firstHigher then first else second;
    var smaller := if firstHigher then second else first;
    if |smaller| > |higher| then Failure(IndexError)
    else Success(seq(|higher|, k requires 0 <= k < |higher| =>
      higher[k] + (if k < |smaller| then smaller[k] else 0.0)))
  }

  /** A trailing zero coefficient makes the library's sum fail where the
      padded sum has an answer: `1 + 2x + 0x^2` plus `1 + 2x`. */
  lemma {:induction false} SumRejectsTrailingZero()
    ensures SumAsWritten([1.0, 2.0, 0.0], [1.0, 2.0]).Failure?
    ensures Add([1.0, 2.0, 0.0], [1.0, 2.0]) == [2.0, 4.0, 0.0]
  {
    var p: Poly := [1.0, 2.0, 0.0];
    var q: Poly := [1.0, 2.0];
    assert LastNonZero(p, 2) == LastNonZero(p, 1) == 1;
    assert HighestPower(p) == 1;
    assert HighestPower(q) == 1;
  }

  /** `Polynomial.Subtract`: length of the longer operand, coefficient
      `k` is `p[k] - q[k]` with missing coefficients counting as zero. */
  function Subtract(p: Poly, q: Poly): (r: Poly)
    ensures |r| == if |p| >= |q| then |p| else |q|
    ensures forall k :: 0 <= k < |r| ==>
      r[k] == (if k < |p| then p[k] else 0.0) - (if k < |q| then q[k] else 0.0)
  {
    var n := if |p| >= |q| then |p| else |q|;
    seq(n, k requires 0 <= k < n =>
      (if k < |p| then p[k] else 0.0) - (if k < |q| then q[k] else 0.0))
  }

  lemma {:induction false} EvalSubtract(p: Poly, q: Poly, x: real)
    ensures Eval(Subtract(p, q), x) == Eval(p, x) - Eval(q, x)
  {
    var n := |Subtract(p, q)|;
    assert Subtract(p, q) == Sums.AddScaled(Pad(p, n), -1.0, Pad(q, n));
    Sums.DotAddScaled(Pad(p, n), -1.0, Pad(q, n), Powers(x, n));
    EvalPad(p, n, x);
    EvalPad(q, n, x);
  }

  /** Subtracting and adding back the same polynomial gives the original
      coefficients, padded to the longer length. */
  lemma {:induction false} SubtractThenAdd(p: Poly, q: Poly)
    ensures Add(Subtract(p, q), q) == Pad(p, |Subtract(p, q)|)
  {
  }

  // ---------------------------------------------------------------------
  // Scalars

  /** Scalar `Multiply`: every coefficient scaled by the same factor
      scales the value by it. */
  lemma {:induction false} EvalScale(p: seq<real>, scalar: real, x: real)
    ensures Eval(Sums.Scale(p, scalar), x) == scalar * Eval(p, x)
  {
    Sums.DotScale(p, scalar, Powers(x, |p|));
  }

  /** Scalar `Divide`: a zero scalar is rejected, otherwise every
      coefficient is divided and the length kept. */
  function Divide(p: Poly, scalar: real): (r: Result<Poly>)
    ensures r.Failure? <==> scalar == 0.0
    ensures r.Failure? ==> r.error == ScalarError
    ensures r.Success? ==> |r.v| == |p| && forall k :: 0 <= k < |p| ==> r.v[k] * scalar == p[k]
  {
    if scalar == 0.0 then Failure(ScalarError)
    else Success(seq(|p|, k requires 0 <= k < |p| => p[k] / scalar))
  }

  /** Dividing and multiplying back by the same scalar is the identity. */
  lemma {:induction false} DivideThenScale(p: Poly, scalar: real)
    requires scalar != 0.0
    ensures Sums.Scale(Divide(p, scalar).v, scalar) == p
  {
  }

  // ---------------------------------------------------------------------
  // Products

  /** The contribution of `p[i]` to coefficient `k` of the product. */
  function Term(p: seq<real>, q: seq<real>, i: nat, k: int): real
    requires i < |p|
  {
    if 0 <= k - i < |q| then p[i] * q[k - i] else 0.0
  }

  /** The sum over `t < i` of `p[t] * q[k - t]`: coefficient `k` of the
      product once rows `0 .. i-1` of `p` have been accumulated. */
  function Partial(p: seq<real>, q: seq<real>, i: nat, k: int): real
    requires i <= |p|
  {
    if i == 0 then 0.0 else Partial(p, q, i - 1, k) + Term(p, q, i - 1, k)
  }

  /** The product by convolution: coefficient `k` is the sum of
      `p[i] * q[j]` over all `i + j == k`. */
  function Product(p: Poly, q: Poly): (r: Poly)
    ensures |r| == |p| + |q| - 1
  {
    Layer(p, q, |p|)
  }

  /** Polynomial `Multiply`: the double loop that adds `p[i] * q[j]` into
      coefficient `i + j` of a zero-initialised array. */
  method Multiply(p: Poly, q: Poly) returns (r: Poly)
    ensures |r| == |p| + |q| - 1
    ensures forall k :: 0 <= k < |r| ==> r[k] == Partial(p, q, |p|, k)
    ensures r == Product(p, q)
    ensures forall x :: Eval(r, x) == Eval(p, x) * Eval(q, x)
  {
    var coeffs := seq(|p| + |q| - 1, _ => 0.0);
    var i := 0;
    while i < |p|
      invariant 0 <= i <= |p|
      invariant |coeffs| == |p| + |q| - 1
      invariant forall k :: 0 <= k < |coeffs| ==> coeffs[k] == Partial(p, q, i, k)
    {
      coeffs := AddRow(p, q, i, coeffs);
      i := i + 1;
    }
    r := coeffs;
    forall x {
      EvalProduct(p, q, x);
    }
  }

  /** The inner loop of `Multiply`: adds `p[i] * q[j]` into coefficient
      `i + j` for every `j`. */
  method AddRow(p: Poly, q: Poly, i: nat, coeffs: seq<real>) returns (r: seq<real>)
    requires i < |p| && |coeffs| == |p| + |q| - 1
    requires forall k :: 0 <= k < |coeffs| ==> coeffs[k] == Partial(p, q, i, k)
    ensures |r| == |coeffs|
    ensures forall k :: 0 <= k < |r| ==> r[k] == Partial(p, q, i + 1, k)
  {
    r := coeffs;
    var j := 0;
    while j < |q|
      invariant 0 <= j <= |q|
      invariant |r| == |coeffs|
      invariant forall k :: 0 <= k < |r| ==> r[k] == Partial(p, q, i, k) + (if i <= k < i + j then p[i] * q[k - i] else 0.0)
    {
      r := r[i + j := r[i + j] + p[i] * q[j]];
      j := j + 1;
    }
  }

  /** `q` scaled by `c` and shifted up by `i` powers, padded to length `n`. */
  function Window(q: seq<real>, c: real, i: nat, n: nat): (r: seq<real>)
    ensures |r| == n
    ensures forall k :: 0 <= k < n ==> r[k] == if i <= k < i + |q| then q[k - i] * c else 0.0
  {
    seq(n, k requires 0 <= k < n => if i <= k < i + |q| then q[k - i] * c else 0.0)
  }

  /** The powers from `x^i` on are `x^i` times the powers from 1 on. */
  lemma {:induction false} PowersShift(x: real, i: nat, m: nat, n: nat, s: real)
    requires i + m <= n && s == Pow(x, i)
    ensures Powers(x, n)[i..i + m] == Sums.Scale(Powers(x, m), s)
  {
    forall t | 0 <= t < m
      ensures Powers(x, n)[i..i + m][t] == Sums.Scale(Powers(x, m), s)[t]
    {
      PowShift(x, i, t);
    }
  }

  lemma {:induction false} PowShift(x: real, i: nat, t: nat)
    ensures Pow(x, i + t) == Pow(x, t) * Pow(x, i)
  {
    PowAdd(x, i, t);
  }

  /** Against any weights, the window contributes only its middle part. */
  lemma {:induction false} DotWindow(q: seq<real>, c: real, i: nat, n: nat, ps: seq<real>)
    requires i + |q| <= n == |ps|
    ensures Sums.Dot(Window(q, c, i, n), ps) == Sums.Dot(Sums.Scale(q, c), ps[i..i + |q|])
  {
    var w := Window(q, c, i, n);
    Sums.DotMiddle(w, ps, i, i + |q|);
    assert w[i..i + |q|] == Sums.Scale(q, c);
  }

  /** Weighted by the powers from `x^i` on, `c * q` is worth `c * x^i * q(x)`. */
  lemma {:induction false} DotShiftedPowers(q: seq<real>, c: real, i: nat, n: nat, x: real, s: real)
    requires i + |q| <= n && s == Pow(x, i)
    ensures Sums.Dot(Sums.Scale(q, c), Powers(x, n)[i..i + |q|])
         == (c * s) * Sums.Dot(q, Powers(x, |q|))
  {
    PowersShift(x, i, |q|, n, s);
    DotScaledPowers(q, c, i, n, x, s);
  }

  lemma {:induction false} DotScaledPowers(q: seq<real>, c: real, i: nat, n: nat, x: real, s: real)
    requires i + |q| <= n && Powers(x, n)[i..i + |q|] == Sums.Scale(Powers(x, |q|), s)
    ensures Sums.Dot(Sums.Scale(q, c), Powers(x, n)[i..i + |q|])
         == (c * s) * Sums.Dot(q, Powers(x, |q|))
  {
    Sums.DotScaledWeights(q, c, s, Powers(x, n)[i..i + |q|], Powers(x, |q|));
  }

  lemma {:induction false} EvalWindow(q: seq<real>, c: real, i: nat, n: nat, x: real, s: real)
    requires i + |q| <= n && s == Pow(x, i)
    ensures Sums.Dot(Window(q, c, i, n), Powers(x, n)) == (c * s) * Sums.Dot(q, Powers(x, |q|))
  {
    DotWindow(q, c, i, n, Powers(x, n));
    DotShiftedPowers(q, c, i, n, x, s);
  }

  /** Coefficients of the product after `i` rows, as a sequence. */
  function Layer(p: Poly, q: Poly, i: nat): (r: seq<real>)
    requires i <= |p|
    ensures |r| == |p| + |q| - 1
  {
    seq(|p| + |q| - 1, k => Partial(p, q, i, k))
  }

  /** Row `j` adds `c * q`, where `c == p[j]`, shifted up by `j` powers, to
      the layer. */
  lemma {:induction false} LayerStep(p: Poly, q: Poly, j: nat, n: nat, c: real)
    requires j < |p| && n == |p| + |q| - 1 && c == p[j]
    ensures Layer(p, q, j + 1) == Sums.Plus(Layer(p, q, j), Window(q, c, j, n))
  {
    var w := Window(q, c, j, n);
    forall k | 0 <= k < n
      ensures Layer(p, q, j + 1)[k] == Sums.Plus(Layer(p, q, j), w)[k]
    {
      assert Partial(p, q, j + 1, k) == Partial(p, q, j, k) + Term(p, q, j, k);
    }
  }

  /** The same step, weighed against any weights. */
  lemma {:induction false} DotLayerStep(p: Poly, q: Poly, j: nat, n: nat, c: real, ps: seq<real>)
    requires j < |p| && n == |p| + |q| - 1 == |ps| && c == p[j]
    ensures Sums.Dot(Layer(p, q, j + 1), ps) == Sums.Dot(Layer(p, q, j), ps) + Sums.Dot(Window(q, c, j, n), ps)
  {
    LayerStep(p, q, j, n, c);
    Sums.DotPlus(Layer(p, q, j), Window(q, c, j, n), ps);
  }

  /** The same step, weighed against the powers of `x`. */
  lemma {:induction false} EvalLayerStep(p: Poly, q: Poly, j: nat, n: nat, c: real, x: real, s: real)
    requires j < |p| && n == |p| + |q| - 1 && c == p[j] && s == Pow(x, j)
    ensures Sums.Dot(Layer(p, q, j + 1), Powers(x, n))
         == Sums.Dot(Layer(p, q, j), Powers(x, n)) + (c * s) * Sums.Dot(q, Powers(x, |q|))
  {
    DotLayerStep(p, q, j, n, c, Powers(x, n));
    EvalWindow(q, c, j, n, x, s);
  }

  /** The first `i` coefficients of `p`, evaluated at `x`, times `q(x)`. */
  function PrefixProduct(p: seq<real>, q: seq<real>, i: nat, x: real): real
    requires i <= |p|
  {
    Sums.Dot(p[..i], Powers(x, i)) * Sums.Dot(q, Powers(x, |q|))
  }

  /** If the layer after `j` rows is worth the first `j` coefficients of `p`
      times `q`, so is every later layer, up to the complete product. */
  lemma {:induction false} EvalLayerFrom(p: Poly, q: Poly, j: nat, n: nat, x: real)
    requires j <= |p| && n == |p| + |q| - 1
    requires Sums.Dot(Layer(p, q, j), Powers(x, n)) == PrefixProduct(p, q, j, x)
    ensures Sums.Dot(Layer(p, q, |p|), Powers(x, n)) == PrefixProduct(p, q, |p|, x)
    decreases |p| - j
  {
    if j < |p| {
      EvalLayerNext(p, q, j, n, p[j], x, Pow(x, j));
      EvalLayerFrom(p, q, j + 1, n, x);
    }
  }

  lemma {:induction false} EvalLayerZero(p: Poly, q: Poly, n: nat, x: real)
    requires n == |p| + |q| - 1
    ensures Sums.Dot(Layer(p, q, 0), Powers(x, n)) == PrefixProduct(p, q, 0, x)
  {
    Sums.DotZero(Layer(p, q, 0), Powers(x, n));
    assert p[..0] == [];
    assert Sums.Dot(p[..0], Powers(x, 0)) == 0.0;
  }

  lemma {:induction false} EvalLayerNext(p: Poly, q: Poly, j: nat, n: nat, c: real, x: real, s: real)
    requires j < |p| && n == |p| + |q| - 1 && c == p[j] && s == Pow(x, j)
    requires Sums.Dot(Layer(p, q, j), Powers(x, n)) == PrefixProduct(p, q, j, x)
    ensures Sums.Dot(Layer(p, q, j + 1), Powers(x, n)) == PrefixProduct(p, q, j + 1, x)
  {
    EvalLayerSplit(p, q, j, n, c, x, s);
    PrefixTimes(p, q, j, c, x, s, Sums.Dot(Layer(p, q, j + 1), Powers(x, n)));
  }

  /** The step of `EvalLayer` with the new row kept apart. */
  lemma {:induction false} EvalLayerSplit(p: Poly, q: Poly, j: nat, n: nat, c: real, x: real, s: real)
    requires j < |p| && n == |p| + |q| - 1 && c == p[j] && s == Pow(x, j)
    requires Sums.Dot(Layer(p, q, j), Powers(x, n)) == PrefixProduct(p, q, j, x)
    ensures Sums.Dot(Layer(p, q, j + 1), Powers(x, n))
         == PrefixProduct(p, q, j, x) + (c * s) * Sums.Dot(q, Powers(x, |q|))
  {
    EvalLayerStep(p, q, j, n, c, x, s);
  }

  /** A value `l` of the split form is the longer prefix times `q(x)`. */
  lemma {:induction false} PrefixTimes(p: seq<real>, q: seq<real>, j: nat, c: real, x: real, s: real, l: real)
    requires j < |p| && c == p[j] && s == Pow(x, j)
    requires l == PrefixProduct(p, q, j, x) + (c * s) * Sums.Dot(q, Powers(x, |q|))
    ensures l == PrefixProduct(p, q, j + 1, x)
  {
    EvalPrefixStep(p, j, c, x, s);
    var e := Sums.Dot(q, Powers(x, |q|));
    assert Sums.Dot(p[..j + 1], Powers(x, j + 1)) * e == Sums.Dot(p[..j], Powers(x, j)) * e + (c * s) * e;
  }

  /** One coefficient more adds its term. */
  lemma {:induction false} EvalPrefixStep(p: seq<real>, j: nat, c: real, x: real, s: real)
    requires j < |p| && c == p[j] && s == Pow(x, j)
    ensures Sums.Dot(p[..j + 1], Powers(x, j + 1)) == Sums.Dot(p[..j], Powers(x, j)) + c * s
  {
    Sums.DotStep(p[..j + 1], Powers(x, j + 1), j);
    assert p[..j + 1][..j] == p[..j];
    assert Powers(x, j + 1)[..j] == Powers(x, j);
    assert p[..j + 1][..j + 1] == p[..j + 1];
    assert Powers(x, j + 1)[..j + 1] == Powers(x, j + 1);
  }

  /** The product of polynomials is the product of their values. */
  lemma {:induction false} EvalProduct(p: Poly, q: Poly, x: real)
    ensures Eval(Product(p, q), x) == Eval(p, x) * Eval(q, x)
  {
    var n := |p| + |q| - 1;
    EvalLayerZero(p, q, n, x);
    EvalLayerFrom(p, q, 0, n, x);
    PrefixProductFull(p, q, x);
  }

  lemma {:induction false} PrefixProductFull(p: seq<real>, q: seq<real>, x: real)
    ensures PrefixProduct(p, q, |p|, x) == Eval(p, x) * Eval(q, x)
  {
    assert p[..|p|] == p;
  }

  /** The worked examples of the product. */
  lemma {:induction false} ProductExamples()
    ensures Product([1.0, 2.0], [-2.0, 1.0]) == [-2.0, -3.0, 2.0]
    ensures Product([0.0, 5.0, -3.0], [1.0, 0.0, 1.0]) == [0.0, 5.0, -3.0, 5.0, -3.0]
  {
    var p, q := [1.0, 2.0], [-2.0, 1.0];
    assert Partial(p, q, 2, 0) == -2.0 && Partial(p, q, 2, 1) == -3.0 && Partial(p, q, 2, 2) == 2.0;
    assert Product(p, q) == [-2.0, -3.0, 2.0];
    var u, v := [0.0, 5.0, -3.0], [1.0, 0.0, 1.0];
    assert Partial(u, v, 1, 0) == 0.0 && Partial(u, v, 1, 1) == 0.0 && Partial(u, v, 1, 2) == 0.0;
    assert Partial(u, v, 1, 3) == 0.0 && Partial(u, v, 1, 4) == 0.0;
    assert Partial(u, v, 3, 0) == 0.0 && Partial(u, v, 3, 1) == 5.0 && Partial(u, v, 3, 2) == -3.0;
    assert Partial(u, v, 3, 3) == 5.0 && Partial(u, v, 3, 4) == -3.0;
    assert Product(u, v) == [0.0, 5.0, -3.0, 5.0, -3.0];
  }
}
