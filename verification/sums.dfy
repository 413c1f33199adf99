/** Finite sums and products over sequences of reals, accumulated left to
    right in the order the library's loops use (`sum += s[i]` for `i`
    ascending), and the few sequence facts they share.  Used by the vector,
    matrix, statistics, elimination and interpolation modules.
 */
module Sums {

  /** No value occurs twice. */
  predicate Distinct(s: seq<real>) {
    forall i, j :: 0 <= i < j < |s| ==> s[i] != s[j]
  }

  /** `s[0] + s[1] + ... + s[|s|-1]`. */
  function Sum(s: seq<real>): real
  {
    if |s| == 0 then 0.0 else Sum(s[..|s| - 1]) + s[|s| - 1]
  }

  /** `s[0] * s[1] * ... * s[|s|-1]`. */
  function Product(s: seq<real>): real
  {
    if |s| == 0 then 1.0 else Product(s[..|s| - 1]) * s[|s| - 1]
  }

  /** The inner product `u[0]*v[0] + ... + u[n-1]*v[n-1]`. */
  function Dot(u: seq<real>, v: seq<real>): real
    requires |u| == |v|
  {
    if |u| == 0 then 0.0 else Dot(u[..|u| - 1], v[..|u| - 1]) + u[|u| - 1] * v[|u| - 1]
  }

  /** `u + m * w`, element by element: the row operation of elimination. */
  function AddScaled(u: seq<real>, m: real, w: seq<real>): (r: seq<real>)
    requires |u| == |w|
    ensures |r| == |u|
    ensures forall j {:trigger r[j]} :: 0 <= j < |r| ==> r[j] == u[j] + m * w[j]
  {
    seq(|u|, j requires 0 <= j < |u| => u[j] + m * w[j])
  }

  /** `u + w`, element by element. */
  function Plus(u: seq<real>, w: seq<real>): (r: seq<real>)
    requires |u| == |w|
    ensures |r| == |u|
    ensures forall j {:trigger r[j]} :: 0 <= j < |r| ==> r[j] == u[j] + w[j]
  {
    seq(|u|, j requires 0 <= j < |u| => u[j] + w[j])
  }

  /** One more step of a left-to-right accumulation loop. */
  lemma {:induction false} SumStep(s: seq<real>, k: nat)
    requires k < |s|
    ensures Sum(s[..k + 1]) == Sum(s[..k]) + s[k]
  {
    assert s[..k + 1][..k] == s[..k];
  }

  lemma {:induction false} ProductStep(s: seq<real>, k: nat)
    requires k < |s|
    ensures Product(s[..k + 1]) == Product(s[..k]) * s[k]
  {
    assert s[..k + 1][..k] == s[..k];
  }

  lemma {:induction false} DotStep(u: seq<real>, v: seq<real>, k: nat)
    requires |u| == |v| && k < |u|
    ensures Dot(u[..k + 1], v[..k + 1]) == Dot(u[..k], v[..k]) + u[k] * v[k]
  {
    assert u[..k + 1][..k] == u[..k];
    assert v[..k + 1][..k] == v[..k];
  }

  /** `DotStep` counted by the length of the longer prefix. */
  lemma {:induction false} DotPrefixStep(u: seq<real>, v: seq<real>, k: nat)
    requires |u| == |v| && 0 < k <= |u|
    ensures Dot(u[..k], v[..k]) == Dot(u[..k - 1], v[..k - 1]) + u[k - 1] * v[k - 1]
  {
    assert u[..k][..k - 1] == u[..k - 1];
    assert v[..k][..k - 1] == v[..k - 1];
  }

  /** The inner product of two 2-vectors, written out. */
  lemma {:induction false} DotTwo(u: seq<real>, v: seq<real>)
    requires |u| == |v| == 2
    ensures Dot(u, v) == u[0] * v[0] + u[1] * v[1]
  {
    DotStep(u, v, 0);
    DotStep(u, v, 1);
    assert u[..0] == [] && v[..0] == [];
    assert u[..2] == u && v[..2] == v;
  }

  /** A product of non-zero factors is non-zero. */
  lemma {:induction false} ProductNonZero(s: seq<real>)
    requires forall i :: 0 <= i < |s| ==> s[i] != 0.0
    ensures Product(s) != 0.0
  {
    if |s| > 0 {
      ProductNonZero(s[..|s| - 1]);
    }
  }

  /** A product may also be taken from the front. */
  lemma {:induction false} ProductFirst(s: seq<real>)
    requires |s| >= 1
    ensures Product(s) == s[0] * Product(s[1..])
  {
    var n := |s| - 1;
    if n == 0 {
      assert s[..0] == [] && s[1..] == [];
    } else {
      ProductFirst(s[..n]);
      assert s[..n][1..] == s[1..][..n - 1];
      assert s[1..][n - 1] == s[n];
    }
  }

  /** A sum of non-negative terms is non-negative. */
  lemma {:induction false} SumNonNegative(s: seq<real>)
    requires forall i :: 0 <= i < |s| ==> s[i] >= 0.0
    ensures Sum(s) >= 0.0
  {
    if |s| > 0 {
      SumNonNegative(s[..|s| - 1]);
    }
  }

  /** Splitting an inner product at position `k`. */
  lemma {:induction false} DotSplit(u: seq<real>, v: seq<real>, k: nat)
    requires |u| == |v| && k <= |u|
    ensures Dot(u, v) == Dot(u[..k], v[..k]) + Dot(u[k..], v[k..])
    decreases |u|
  {
    if k == |u| {
      assert u[k..] == [] && v[k..] == [];
      assert u[..k] == u && v[..k] == v;
    } else {
      var n := |u| - 1;
      DotSplit(u[..n], v[..n], k);
      assert u[..n][..k] == u[..k] && v[..n][..k] == v[..k];
      assert u[..n][k..] == u[k..][..|u[k..]| - 1];
      assert v[..n][k..] == v[k..][..|v[k..]| - 1];
    }
  }

  /** An inner product with an all-zero left operand vanishes. */
  lemma {:induction false} DotZero(u: seq<real>, v: seq<real>)
    requires |u| == |v|
    requires forall j :: 0 <= j < |u| ==> u[j] == 0.0
    ensures Dot(u, v) == 0.0
  {
    if |u| > 0 {
      DotZero(u[..|u| - 1], v[..|u| - 1]);
    }
  }

  /** An inner product whose every term has a zero factor vanishes. */
  lemma {:induction false} DotZeroTerms(u: seq<real>, v: seq<real>)
    requires |u| == |v|
    requires forall j :: 0 <= j < |u| ==> u[j] == 0.0 || v[j] == 0.0
    ensures Dot(u, v) == 0.0
  {
    if |u| > 0 {
      DotZeroTerms(u[..|u| - 1], v[..|u| - 1]);
    }
  }

  /** When the right operand vanishes after position 0, only the first term
      counts. */
  lemma {:induction false} DotFirstOnly(u: seq<real>, v: seq<real>)
    requires |u| == |v| >= 1
    requires forall j :: 1 <= j < |v| ==> v[j] == 0.0
    ensures Dot(u, v) == u[0] * v[0]
  {
    DotSplit(u, v, 1);
    DotZeroRight(u[1..], v[1..]);
    assert u[..1] == [u[0]] && v[..1] == [v[0]];
    assert Dot([u[0]], [v[0]]) == Dot([], []) + u[0] * v[0];
  }

  /** When the left operand vanishes outside `[i, j)`, only that part counts. */
  lemma {:induction false} DotMiddle(u: seq<real>, v: seq<real>, i: nat, j: nat)
    requires |u| == |v| && i <= j <= |u|
    requires forall k :: 0 <= k < i || j <= k < |u| ==> u[k] == 0.0
    ensures Dot(u, v) == Dot(u[i..j], v[i..j])
  {
    DotSplit(u, v, i);
    DotZero(u[..i], v[..i]);
    DotSplit(u[i..], v[i..], j - i);
    DotZero(u[i..][j - i..], v[i..][j - i..]);
    assert u[i..][..j - i] == u[i..j];
    assert v[i..][..j - i] == v[i..j];
  }

  /** An inner product with an all-zero right operand vanishes. */
  lemma {:induction false} DotZeroRight(u: seq<real>, v: seq<real>)
    requires |u| == |v|
    requires forall j :: 0 <= j < |v| ==> v[j] == 0.0
    ensures Dot(u, v) == 0.0
  {
    if |u| > 0 {
      DotZeroRight(u[..|u| - 1], v[..|u| - 1]);
    }
  }

  /** Changing one coordinate of the right operand changes the inner product
      by that coordinate's weight times the change. */
  lemma {:induction false} DotUpdate(u: seq<real>, x: seq<real>, k: nat, value: real)
    requires |u| == |x| && k < |x|
    ensures Dot(u, x[k := value]) == Dot(u, x) + u[k] * (value - x[k])
  {
    var n := |u| - 1;
    if k == n {
      assert x[k := value][..n] == x[..n];
    } else {
      DotUpdate(u[..n], x[..n], k, value);
      assert x[k := value][..n] == x[..n][k := value];
    }
  }

  /** The inner product is linear in its left operand. */
  lemma {:induction false} DotAddScaled(u: seq<real>, m: real, w: seq<real>, x: seq<real>)
    requires |u| == |w| == |x|
    ensures Dot(AddScaled(u, m, w), x) == Dot(u, x) + m * Dot(w, x)
  {
    if |u| > 0 {
      var n := |u| - 1;
      var r, r' := AddScaled(u, m, w), AddScaled(u[..n], m, w[..n]);
      assert |r[..n]| == |r'|;
      assert forall j :: 0 <= j < n ==> r[..n][j] == r'[j];
      assert r[..n] == r';
      DotAddScaled(u[..n], m, w[..n], x[..n]);
    }
  }

  /** `a * b` as a function: an equation between `Times` terms follows from
      equations between their factors without any arithmetic. */
  function Times(a: real, b: real): real
  {
    a * b
  }

  /** `DotAddScaled`, with the scaled product written as `Times`. */
  lemma {:induction false} DotAddScaledTimes(u: seq<real>, m: real, w: seq<real>, x: seq<real>)
    requires |u| == |w| == |x|
    ensures Dot(AddScaled(u, m, w), x) == Dot(u, x) + Times(m, Dot(w, x))
  {
    DotAddScaled(u, m, w, x);
  }

  /** An antisymmetric bilinear form changes sign when its arguments are
      exchanged: with `g[i][j] == -g[j][i]`, `a . (g b) == -(b . (g a))`. */
  lemma {:induction false} AntisymmetricForm(a: seq<real>, g: seq<seq<real>>, b: seq<real>)
    requires |a| == |b| == |g| && forall i :: 0 <= i < |g| ==> |g[i]| == |b|
    requires forall i, j :: 0 <= i < |g| && 0 <= j < |g| ==> g[i][j] == -g[j][i]
    ensures Dot(a, Apply(g, b)) == -Dot(b, Apply(g, a))
  {
    BilinearTranspose(a, g, b);
    TransposedAntisymmetric(a, g);
    var p := Apply(g, a);
    DotScale(p, -1.0, b);
    DotCommute(p, b);
  }

  /** For an antisymmetric `g`, applying the transpose negates. */
  lemma {:induction false} TransposedAntisymmetric(a: seq<real>, g: seq<seq<real>>)
    requires |a| == |g| && forall i :: 0 <= i < |g| ==> |g[i]| == |g|
    requires forall i, j :: 0 <= i < |g| && 0 <= j < |g| ==> g[i][j] == -g[j][i]
    ensures ApplyTransposed(g, a, |g|) == Scale(Apply(g, a), -1.0)
  {
    var t, p := ApplyTransposed(g, a, |g|), Scale(Apply(g, a), -1.0);
    forall c | 0 <= c < |g|
      ensures t[c] == p[c]
    {
      TransposedEntry(a, g, c);
    }
  }

  lemma {:induction false} TransposedEntry(a: seq<real>, g: seq<seq<real>>, c: nat)
    requires |a| == |g| && c < |g| && forall i :: 0 <= i < |g| ==> |g[i]| == |g|
    requires forall i, j :: 0 <= i < |g| && 0 <= j < |g| ==> g[i][j] == -g[j][i]
    ensures ApplyTransposed(g, a, |g|)[c] == Scale(Apply(g, a), -1.0)[c]
  {
    var col := Column(g, c);
    forall j | 0 <= j < |g|
      ensures col[j] == g[c][j] * -1.0
    {
      assert col[j] == g[j][c];
    }
    DotRightScaled(a, g[c], -1.0, col);
    DotCommute(a, g[c]);
    DotCommute(a, col);
    assert ApplyTransposed(g, a, |g|)[c] == Dot(col, a);
    assert Scale(Apply(g, a), -1.0)[c] == Apply(g, a)[c] * -1.0 == Dot(g[c], a) * -1.0;
  }

  /** The inner product distributes over `Plus` in its left operand. */
  lemma {:induction false} DotPlus(u: seq<real>, w: seq<real>, x: seq<real>)
    requires |u| == |w| == |x|
    ensures Dot(Plus(u, w), x) == Dot(u, x) + Dot(w, x)
  {
    if |u| > 0 {
      var n := |u| - 1;
      var r, r' := Plus(u, w), Plus(u[..n], w[..n]);
      assert forall j :: 0 <= j < n ==> r[..n][j] == r'[j];
      assert r[..n] == r';
      DotPlus(u[..n], w[..n], x[..n]);
    }
  }

  /** The inner product does not depend on the order of its operands. */
  lemma {:induction false} DotCommute(u: seq<real>, v: seq<real>)
    requires |u| == |v|
    ensures Dot(u, v) == Dot(v, u)
  {
    if |u| > 0 {
      DotCommute(u[..|u| - 1], v[..|u| - 1]);
    }
  }

  /** Inner products whose terms agree pairwise are equal. */
  lemma {:induction false} DotPointwise(a: seq<real>, b: seq<real>, c: seq<real>, d: seq<real>)
    requires |a| == |b| == |c| == |d|
    requires forall t :: 0 <= t < |a| ==> a[t] * b[t] == c[t] * d[t]
    ensures Dot(a, b) == Dot(c, d)
  {
    if |a| > 0 {
      var n := |a| - 1;
      DotPointwise(a[..n], b[..n], c[..n], d[..n]);
    }
  }

  /** `u` with every element multiplied by `s`. */
  function Scale(u: seq<real>, s: real): (r: seq<real>)
    ensures |r| == |u|
    ensures forall k :: 0 <= k < |u| ==> r[k] == u[k] * s
  {
    seq(|u|, k requires 0 <= k < |u| => u[k] * s)
  }

  /** Scaling the left operand of an inner product scales the product. */
  lemma {:induction false} DotScale(u: seq<real>, s: real, v: seq<real>)
    requires |u| == |v|
    ensures Dot(Scale(u, s), v) == s * Dot(u, v)
  {
    var zeros := seq(|u|, _ => 0.0);
    assert Scale(u, s) == AddScaled(zeros, s, u);
    DotAddScaled(zeros, s, u, v);
    DotZero(zeros, v);
  }

  /** Weights that are `s` times others scale the weighted sum by `s`. */
  lemma {:induction false} DotScaledWeights(q: seq<real>, c: real, s: real, ws: seq<real>, vs: seq<real>)
    requires |vs| == |q| && ws == Scale(vs, s)
    ensures Dot(Scale(q, c), ws) == (c * s) * Dot(q, vs)
  {
    DotMoveScale(q, c, s, ws, vs);
    DotScaleValue(q, c * s, vs, Dot(Scale(q, c), ws));
  }

  /** The factor `s` of the weights can move into the scaled operand. */
  lemma {:induction false} DotMoveScale(q: seq<real>, c: real, s: real, ws: seq<real>, vs: seq<real>)
    requires |vs| == |q| && ws == Scale(vs, s)
    ensures Dot(Scale(q, c), ws) == Dot(Scale(q, c * s), vs)
  {
    forall t | 0 <= t < |q|
      ensures Scale(q, c)[t] * ws[t] == Scale(q, c * s)[t] * vs[t]
    {
      assert (q[t] * c) * (vs[t] * s) == (q[t] * (c * s)) * vs[t];
    }
    DotPointwise(Scale(q, c), ws, Scale(q, c * s), vs);
  }

  lemma {:induction false} DotScaleValue(q: seq<real>, cs: real, vs: seq<real>, d: real)
    requires |vs| == |q| && d == Dot(Scale(q, cs), vs)
    ensures d == cs * Dot(q, vs)
  {
    DotScale(q, cs, vs);
  }

  /** The inner product of two concatenations splits into the parts. */
  lemma {:induction false} DotConcat(a: seq<real>, b: seq<real>, c: seq<real>, d: seq<real>)
    requires |a| == |c| && |b| == |d|
    ensures Dot(a + b, c + d) == Dot(a, c) + Dot(b, d)
  {
    DotSplit(a + b, c + d, |a|);
    assert (a + b)[..|a|] == a && (a + b)[|a|..] == b;
    assert (c + d)[..|a|] == c && (c + d)[|a|..] == d;
  }

  /** Leaving position `j` out of both operands removes exactly that term. */
  lemma {:induction false} DotOmit(u: seq<real>, v: seq<real>, j: nat)
    requires |u| == |v| && j < |u|
    ensures Dot(u[..j] + u[j + 1..], v[..j] + v[j + 1..]) == Dot(u, v) - u[j] * v[j]
  {
    DotConcat(u[..j], u[j + 1..], v[..j], v[j + 1..]);
    DotSplit(u, v, j);
    DotSplit(u[j..], v[j..], 1);
    assert u[j..][..1] == [u[j]] && v[j..][..1] == [v[j]];
    assert u[j..][1..] == u[j + 1..] && v[j..][1..] == v[j + 1..];
    assert Dot([u[j]], [v[j]]) == Dot([], []) + u[j] * v[j];
  }

  /** The inner product is linear in its right operand too. */
  lemma {:induction false} DotRightAddScaled(u: seq<real>, a: seq<real>, m: real, b: seq<real>, x: seq<real>)
    requires |u| == |a| == |b| == |x|
    requires forall j :: 0 <= j < |x| ==> x[j] == a[j] + m * b[j]
    ensures Dot(u, x) == Dot(u, a) + m * Dot(u, b)
  {
    assert x == AddScaled(a, m, b);
    DotAddScaled(a, m, b, u);
    DotCommute(u, x);
    DotCommute(u, a);
    DotCommute(u, b);
  }

  /** `DotRightAddScaled`, with the right operand written out. */
  lemma {:induction false} DotAddScaledRight(u: seq<real>, a: seq<real>, m: real, b: seq<real>)
    requires |u| == |a| == |b|
    ensures Dot(u, AddScaled(a, m, b)) == Dot(u, a) + m * Dot(u, b)
  {
    DotAddScaled(a, m, b, u);
    DotCommute(u, AddScaled(a, m, b));
    DotCommute(u, a);
    DotCommute(u, b);
  }

  /** Scaling the right operand scales the inner product. */
  lemma {:induction false} DotRightScaled(u: seq<real>, a: seq<real>, s: real, x: seq<real>)
    requires |u| == |a| == |x|
    requires forall j :: 0 <= j < |x| ==> x[j] == a[j] * s
    ensures Dot(u, x) == s * Dot(u, a)
  {
    assert x == Scale(a, s);
    DotScale(a, s, u);
    DotCommute(u, x);
    DotCommute(u, a);
  }

  /** The rows `g` applied to `b`: entry `i` is `Dot(g[i], b)`. */
  function Apply(g: seq<seq<real>>, b: seq<real>): (r: seq<real>)
    requires forall i :: 0 <= i < |g| ==> |g[i]| == |b|
    ensures |r| == |g| && forall i :: 0 <= i < |g| ==> r[i] == Dot(g[i], b)
  {
    seq(|g|, i requires 0 <= i < |g| => Dot(g[i], b))
  }

  /** Entry `c` of every row of `g`. */
  function Column(g: seq<seq<real>>, c: nat): (r: seq<real>)
    requires forall i :: 0 <= i < |g| ==> c < |g[i]|
    ensures |r| == |g| && forall i :: 0 <= i < |g| ==> r[i] == g[i][c]
  {
    seq(|g|, i requires 0 <= i < |g| => g[i][c])
  }

  /** The transpose of the rows `g`, all of length `n`, applied to `a`. */
  function ApplyTransposed(g: seq<seq<real>>, a: seq<real>, n: nat): (r: seq<real>)
    requires |g| == |a| && forall i :: 0 <= i < |g| ==> |g[i]| == n
    ensures |r| == n && forall c :: 0 <= c < n ==> r[c] == Dot(Column(g, c), a)
  {
    seq(n, c requires 0 <= c < n => Dot(Column(g, c), a))
  }

  /** Summing the terms `a[i] g[i][c] b[c]` row by row or column by column
      gives the same: `a . (g b) == (g^T a) . b`. */
  lemma {:induction false} BilinearTranspose(a: seq<real>, g: seq<seq<real>>, b: seq<real>)
    requires |g| == |a| && forall i :: 0 <= i < |g| ==> |g[i]| == |b|
    ensures Dot(a, Apply(g, b)) == Dot(ApplyTransposed(g, a, |b|), b)
  {
    if |a| == 0 {
      DotZero(ApplyTransposed(g, a, |b|), b);
    } else {
      var k := |a| - 1;
      BilinearTranspose(a[..k], g[..k], b);
      BilinearStep(a, g, b, k);
    }
  }

  /** The step of `BilinearTranspose`: one more row adds the same term on
      both sides. */
  lemma {:induction false} BilinearStep(a: seq<real>, g: seq<seq<real>>, b: seq<real>, k: nat)
    requires |g| == |a| == k + 1 && forall i :: 0 <= i < |g| ==> |g[i]| == |b|
    requires Dot(a[..k], Apply(g[..k], b)) == Dot(ApplyTransposed(g[..k], a[..k], |b|), b)
    ensures Dot(a, Apply(g, b)) == Dot(ApplyTransposed(g, a, |b|), b)
  {
    ApplyLastRow(a, g, b, k);
    TransposedLastRow(a, g, b, k);
  }

  lemma {:induction false} ApplyLastRow(a: seq<real>, g: seq<seq<real>>, b: seq<real>, k: nat)
    requires |g| == |a| == k + 1 && forall i :: 0 <= i < |g| ==> |g[i]| == |b|
    ensures Dot(a, Apply(g, b)) == Dot(a[..k], Apply(g[..k], b)) + a[k] * Dot(g[k], b)
  {
    var p := Apply(g, b);
    assert p[..k] == Apply(g[..k], b);
    DotLast(a, p, k);
  }

  lemma {:induction false} TransposedLastRow(a: seq<real>, g: seq<seq<real>>, b: seq<real>, k: nat)
    requires |g| == |a| == k + 1 && forall i :: 0 <= i < |g| ==> |g[i]| == |b|
    ensures Dot(ApplyTransposed(g, a, |b|), b) == Dot(ApplyTransposed(g[..k], a[..k], |b|), b) + a[k] * Dot(g[k], b)
  {
    TransposedStep(g, a, |b|, k);
    DotAddScaled(ApplyTransposed(g[..k], a[..k], |b|), a[k], g[k], b);
  }

  lemma {:induction false} DotLast(u: seq<real>, v: seq<real>, k: nat)
    requires |u| == |v| == k + 1
    ensures Dot(u, v) == Dot(u[..k], v[..k]) + u[k] * v[k]
  {
  }

  /** One more row of `g` adds its multiple to the transposed product. */
  lemma {:induction false} TransposedStep(g: seq<seq<real>>, a: seq<real>, n: nat, k: nat)
    requires |g| == |a| == k + 1 && forall i :: 0 <= i < |g| ==> |g[i]| == n
    ensures ApplyTransposed(g, a, n) == AddScaled(ApplyTransposed(g[..k], a[..k], n), a[k], g[k])
  {
    var t, t' := ApplyTransposed(g, a, n), ApplyTransposed(g[..k], a[..k], n);
    var r := AddScaled(t', a[k], g[k]);
    forall c | 0 <= c < n
      ensures t[c] == r[c]
    {
      var col := Column(g, c);
      assert col[..k] == Column(g[..k], c);
      assert t[c] == Dot(col, a) == Dot(col[..k], a[..k]) + col[k] * a[k];
    }
  }
}
