/** The laws of the reference determinant that the elimination solver and
    the inverse rely on, for matrices of every order.

    `DetRef` is defined by expansion along row 0 only.  From that definition
    this module proves that the determinant is linear in row 0, that
    exchanging two rows negates it, that two equal rows make it vanish, that
    adding a multiple of one row to another keeps it, that a zero first
    column makes it vanish and that an upper triangular matrix has the
    product of its diagonal as determinant.
 */
module DeterminantLaws {
  import opened Matrices
  import opened Determinants
  import Sums

  // ---------------------------------------------------------------------
  // The expansion along row 0 as an inner product

  /** `x` with the sign of position `j`, that is `(-1)^j x`. */
  function Signed(j: nat, x: real): real
  {
    if j % 2 == 0 then x else -x
  }

  /** The signed minors of row 0: the weights of the expansion along it. */
  function Weights(m: Matrix): (w: seq<real>)
    requires IsSquare(m) && Rows(m) >= 2
    ensures |w| == Rows(m)
    ensures forall j {:trigger w[j]} :: 0 <= j < Rows(m) ==> w[j] == Signed(j, DetRef(Cut(m, 0, j)))
  {
    seq(Rows(m), j requires 0 <= j < Rows(m) => Signed(j, DetRef(Cut(m, 0, j))))
  }

  /** One more term of the expansion is the entry times its weight. */
  lemma {:induction false} LaplaceStep(m: Matrix, k: nat)
    requires IsSquare(m) && Rows(m) >= 2 && 0 < k <= Rows(m)
    ensures Laplace(m, k) == Laplace(m, k - 1) + m[0][k - 1] * Weights(m)[k - 1]
  {
    var a, d := m[0][k - 1], DetRef(Cut(m, 0, k - 1));
    assert Laplace(m, k) == Laplace(m, k - 1) + RowTerm(m, k - 1, d);
    if (k - 1) % 2 == 0 {
      assert RowTerm(m, k - 1, d) == 1.0 * a * d;
    } else {
      assert RowTerm(m, k - 1, d) == -1.0 * a * d;
    }
  }

  /** The first `k` terms of the expansion along row 0 are the inner
      product of the first `k` entries with their weights. */
  lemma {:induction false} LaplaceIsDot(m: Matrix, k: nat)
    requires IsSquare(m) && Rows(m) >= 2 && k <= Rows(m)
    ensures Laplace(m, k) == Sums.Dot(m[0][..k], Weights(m)[..k])
  {
    if k > 0 {
      LaplaceIsDot(m, k - 1);
      Sums.DotPrefixStep(m[0], Weights(m), k);
      LaplaceStep(m, k);
      SameStep(Laplace(m, k), Laplace(m, k - 1), Sums.Dot(m[0][..k], Weights(m)[..k]),
               Sums.Dot(m[0][..k - 1], Weights(m)[..k - 1]), m[0][k - 1] * Weights(m)[k - 1]);
    }
  }

  /** Two sums that agree so far and grow by the same term agree after it. */
  lemma {:induction false} SameStep(x: real, x0: real, y: real, y0: real, t: real)
    requires x == x0 + t && y == y0 + t && x0 == y0
    ensures x == y
  {
  }

  /** From order 2 on, the determinant is row 0 against its weights. */
  lemma {:induction false} DetIsDot(m: Matrix)
    requires IsSquare(m) && Rows(m) >= 2
    ensures DetRef(m) == Sums.Dot(m[0], Weights(m))
  {
    LaplaceIsDot(m, Rows(m));
    assert m[0][..Rows(m)] == m[0] && Weights(m)[..Rows(m)] == Weights(m);
  }

  /** Replacing row 0 does not change the weights of row 0. */
  lemma {:induction false} WeightsIgnoreRowZero(m: Matrix, x: seq<real>)
    requires IsSquare(m) && Rows(m) >= 2 && |x| == Cols(m)
    ensures Weights(m[0 := x]) == Weights(m)
  {
    var mx: Matrix := m[0 := x];
    forall j | 0 <= j < Rows(m)
      ensures Cut(mx, 0, j) == Cut(m, 0, j)
    {
      forall t | 0 <= t < Rows(m) - 1
        ensures Cut(mx, 0, j)[t] == Cut(m, 0, j)[t]
      {
        assert Cut(mx, 0, j)[t] == Delete(mx[t + 1], j);
        assert Cut(m, 0, j)[t] == Delete(m[t + 1], j);
      }
    }
  }

  /** The determinant is linear in row 0: with row 0 equal to `u + c w`, it
      is the determinant with row 0 equal to `u` plus `c` times the one with
      row 0 equal to `w`. */
  lemma {:induction false} LinearZero(m: Matrix, u: seq<real>, c: real, w: seq<real>)
    requires IsSquare(m) && |u| == |w| == Cols(m)
    ensures DetRef(m[0 := Sums.AddScaled(u, c, w)]) == DetRef(m[0 := u]) + c * DetRef(m[0 := w])
  {
    LinearZeroTimes(m, u, c, w);
  }

  lemma {:induction false} LinearZeroTimes(m: Matrix, u: seq<real>, c: real, w: seq<real>)
    requires IsSquare(m) && |u| == |w| == Cols(m)
    ensures DetRef(m[0 := Sums.AddScaled(u, c, w)]) == DetRef(m[0 := u]) + Sums.Times(c, DetRef(m[0 := w]))
  {
    var x := Sums.AddScaled(u, c, w);
    var mx: Matrix, mu: Matrix, mw: Matrix := m[0 := x], m[0 := u], m[0 := w];
    if Rows(m) >= 2 {
      WeightsIgnoreRowZero(m, x);
      WeightsIgnoreRowZero(m, u);
      WeightsIgnoreRowZero(m, w);
      DetIsDot(mx);
      DetIsDot(mu);
      DetIsDot(mw);
      Sums.DotAddScaledTimes(u, c, w, Weights(m));
    }
  }

  // ---------------------------------------------------------------------
  // Exchanging rows 0 and 1, by expanding along both

  /** The rows from 2 on with columns `a < b` deleted: what is left after
      cutting row 0 and one column, then row 0 and another column. */
  function Drop2(m: Matrix, a: nat, b: nat): (d: Matrix)
    requires IsSquare(m) && Rows(m) >= 3 && a < b < Rows(m)
    ensures IsSquare(d) && Rows(d) == Rows(m) - 2
    ensures forall t {:trigger d[t]} :: 0 <= t < Rows(m) - 2 ==> d[t] == Delete(Delete(m[t + 2], b), a)
  {
    seq(Rows(m) - 2, t requires 0 <= t < Rows(m) - 2 => Delete(Delete(m[t + 2], b), a))
  }

  /** Deleting position `j` then `q >= j` deletes `q + 1` then `j`. */
  lemma {:induction false} DeleteTwice(s: seq<real>, j: nat, q: nat)
    requires j <= q && q + 1 < |s|
    ensures Delete(Delete(s, j), q) == Delete(Delete(s, q + 1), j)
  {
    var lhs, rhs := Delete(Delete(s, j), q), Delete(Delete(s, q + 1), j);
    assert forall t :: 0 <= t < |s| - 2 ==> lhs[t] == rhs[t];
  }

  /** Cutting row 0 and column `j`, then row 0 and column `q`, leaves the
      rows from 2 on without columns `j` and `q` (or `q + 1`, when `q` is
      counted after `j` was removed). */
  lemma {:induction false} CutCut(m: Matrix, j: nat, q: nat)
    requires IsSquare(m) && Rows(m) >= 3 && j < Rows(m) && q < Rows(m) - 1
    ensures Cut(Cut(m, 0, j), 0, q) == if q < j then Drop2(m, q, j) else Drop2(m, j, q + 1)
  {
    var k := Cut(m, 0, j);
    var lhs := Cut(k, 0, q);
    forall t | 0 <= t < Rows(m) - 2
      ensures lhs[t] == Delete(Delete(m[t + 2], j), q)
    {
      assert Cut(k, 0, q)[t] == Delete(k[t + 1], q);
      assert Cut(m, 0, j)[t + 1] == Delete(m[t + 2], j);
    }
    if q < j {
      assert lhs == Drop2(m, q, j);
    } else {
      forall t | 0 <= t < Rows(m) - 2
        ensures lhs[t] == Drop2(m, j, q + 1)[t]
      {
        DeleteTwice(m[t + 2], j, q);
      }
    }
  }

  /** The coefficient of `m[1][c]` in the minor of `m[0][j]`: the minor of
      rows 0, 1 and columns `j, c`, signed by the position `c` takes once
      `j` is removed. */
  function Kernel(m: Matrix, j: nat, c: nat): real
    requires IsSquare(m) && Rows(m) >= 3 && j < Rows(m) && c < Rows(m)
  {
    if c < j then Signed(c, DetRef(Drop2(m, c, j)))
    else if j < c then Signed(c - 1, DetRef(Drop2(m, j, c)))
    else 0.0
  }

  function KernelRow(m: Matrix, j: nat): (r: seq<real>)
    requires IsSquare(m) && Rows(m) >= 3 && j < Rows(m)
    ensures |r| == Rows(m) && forall c {:trigger r[c]} :: 0 <= c < Rows(m) ==> r[c] == Kernel(m, j, c)
  {
    seq(Rows(m), c requires 0 <= c < Rows(m) => Kernel(m, j, c))
  }

  /** The weights of the minor of `m[0][j]` are its kernel row without
      entry `j`. */
  lemma {:induction false} MinorWeights(m: Matrix, j: nat)
    requires IsSquare(m) && Rows(m) >= 3 && j < Rows(m)
    ensures Weights(Cut(m, 0, j)) == Delete(KernelRow(m, j), j)
  {
    var lhs, rhs := Weights(Cut(m, 0, j)), Delete(KernelRow(m, j), j);
    forall q | 0 <= q < Rows(m) - 1
      ensures lhs[q] == rhs[q]
    {
      CutCut(m, j, q);
    }
  }

  /** The minor of `m[0][j]`, expanded along its first row (row 1 of `m`). */
  lemma {:induction false} InnerExpansion(m: Matrix, j: nat)
    requires IsSquare(m) && Rows(m) >= 3 && j < Rows(m)
    ensures DetRef(Cut(m, 0, j)) == Sums.Dot(m[1], KernelRow(m, j))
  {
    DetIsDot(Cut(m, 0, j));
    assert Cut(m, 0, j)[0] == Delete(m[1], j);
    MinorWeights(m, j);
    DotDeleteZero(m[1], KernelRow(m, j), j);
  }

  /** A term with a zero weight may be left out of an inner product. */
  lemma {:induction false} DotDeleteZero(u: seq<real>, v: seq<real>, j: nat)
    requires |u| == |v| && j < |u| && v[j] == 0.0
    ensures Sums.Dot(Delete(u, j), Delete(v, j)) == Sums.Dot(u, v)
  {
    Sums.DotOmit(u, v, j);
  }

  /** `r` with every entry signed by position `j`. */
  function SignedRow(j: nat, r: seq<real>): (s: seq<real>)
    ensures |s| == |r| && forall c {:trigger s[c]} :: 0 <= c < |r| ==> s[c] == Signed(j, r[c])
  {
    if j % 2 == 0 then r else Sums.Scale(r, -1.0)
  }

  /** Signing one operand signs the inner product. */
  lemma {:induction false} DotSignedRow(u: seq<real>, j: nat, r: seq<real>)
    requires |u| == |r|
    ensures Sums.Dot(u, SignedRow(j, r)) == Signed(j, Sums.Dot(u, r))
  {
    if j % 2 == 1 {
      Sums.DotRightScaled(u, r, -1.0, SignedRow(j, r));
    }
  }

  /** All coefficients of the double expansion along rows 0 and 1. */
  function Grid(m: Matrix): (g: seq<seq<real>>)
    requires IsSquare(m) && Rows(m) >= 3
    ensures |g| == Rows(m)
    ensures forall j {:trigger g[j]} :: 0 <= j < Rows(m) ==> |g[j]| == Rows(m) && g[j] == SignedRow(j, KernelRow(m, j))
  {
    seq(Rows(m), j requires 0 <= j < Rows(m) => SignedRow(j, KernelRow(m, j)))
  }

  /** From order 3 on, the determinant is the bilinear form of the grid
      applied to rows 0 and 1. */
  lemma {:induction false} DoubleExpansion(m: Matrix)
    requires IsSquare(m) && Rows(m) >= 3
    ensures DetRef(m) == Sums.Dot(m[0], Sums.Apply(Grid(m), m[1]))
  {
    var g := Grid(m);
    var w, p := Weights(m), Sums.Apply(g, m[1]);
    forall j | 0 <= j < Rows(m)
      ensures w[j] == p[j]
    {
      InnerExpansion(m, j);
      DotSignedRow(m[1], j, KernelRow(m, j));
      Sums.DotCommute(m[1], g[j]);
    }
    assert w == p;
    DetIsDot(m);
  }

  /** The grid reads rows 2 on only. */
  lemma {:induction false} GridOfSwapTop(m: Matrix)
    requires IsSquare(m) && Rows(m) >= 3
    ensures Grid(Swap(m, 0, 1)) == Grid(m)
  {
    var s: Matrix := Swap(m, 0, 1);
    forall a, b | 0 <= a < b < Rows(m)
      ensures Drop2(s, a, b) == Drop2(m, a, b)
    {
      assert forall t :: 2 <= t < Rows(m) ==> s[t] == m[t];
    }
    forall j | 0 <= j < Rows(m)
      ensures Grid(s)[j] == Grid(m)[j]
    {
      assert KernelRow(s, j) == KernelRow(m, j);
    }
  }

  /** The grid is antisymmetric. */
  lemma {:induction false} GridAntisymmetric(m: Matrix)
    requires IsSquare(m) && Rows(m) >= 3
    ensures forall j, c :: 0 <= j < Rows(m) && 0 <= c < Rows(m) ==> Grid(m)[j][c] == -Grid(m)[c][j]
  {
    forall j, c | 0 <= j < Rows(m) && 0 <= c < Rows(m)
      ensures Grid(m)[j][c] == -Grid(m)[c][j]
    {
      GridEntryAntisymmetric(m, j, c);
    }
  }

  lemma {:induction false} GridEntryAntisymmetric(m: Matrix, j: nat, c: nat)
    requires IsSquare(m) && Rows(m) >= 3 && j < Rows(m) && c < Rows(m)
    ensures Grid(m)[j][c] == -Grid(m)[c][j]
  {
    var g := Grid(m);
    assert g[j][c] == Signed(j, Kernel(m, j, c)) && g[c][j] == Signed(c, Kernel(m, c, j));
  }

  /** Exchanging rows 0 and 1 negates the determinant. */
  lemma {:induction false} SwapTop(m: Matrix)
    requires IsSquare(m) && Rows(m) >= 2
    ensures DetRef(Swap(m, 0, 1)) == -DetRef(m)
  {
    if Rows(m) == 2 {
      SwapTopTwo(m);
    } else {
      SwapTopLarger(m);
    }
  }

  lemma {:induction false} SwapTopTwo(m: Matrix)
    requires IsSquare(m) && Rows(m) == 2
    ensures DetRef(Swap(m, 0, 1)) == -DetRef(m)
  {
    var s: Matrix := Swap(m, 0, 1);
    DetTwo(m);
    DetTwo(s);
  }

  lemma {:induction false} SwapTopLarger(m: Matrix)
    requires IsSquare(m) && Rows(m) >= 3
    ensures DetRef(Swap(m, 0, 1)) == -DetRef(m)
  {
    var g := SharedForm(m);
    Sums.AntisymmetricForm(m[1], g, m[0]);
  }

  /** One antisymmetric bilinear form gives the determinant of `m` and that
      of `m` with rows 0 and 1 exchanged. */
  lemma {:induction false} SharedForm(m: Matrix) returns (g: seq<seq<real>>)
    requires IsSquare(m) && Rows(m) >= 3
    ensures |g| == Rows(m) && forall j :: 0 <= j < Rows(m) ==> |g[j]| == Rows(m)
    ensures forall j, c :: 0 <= j < Rows(m) && 0 <= c < Rows(m) ==> g[j][c] == -g[c][j]
    ensures DetRef(m) == Sums.Dot(m[0], Sums.Apply(g, m[1]))
    ensures DetRef(Swap(m, 0, 1)) == Sums.Dot(m[1], Sums.Apply(g, m[0]))
  {
    var s: Matrix := Swap(m, 0, 1);
    g := Grid(m);
    DoubleExpansion(m);
    DoubleExpansion(s);
    GridOfSwapTop(m);
    GridAntisymmetric(m);
  }

  // ---------------------------------------------------------------------
  // Exchanging any two rows

  /** Exchanging two rows below row 0 exchanges the same rows of every
      minor of row 0. */
  lemma {:induction false} CutOfSwap(m: Matrix, i: nat, k: nat, j: nat)
    requires IsSquare(m) && 1 <= i < k < Rows(m) && j < Rows(m)
    ensures Cut(Swap(m, i, k), 0, j) == Swap(Cut(m, 0, j), i - 1, k - 1)
  {
    var s: Matrix := Swap(m, i, k);
    var cm := Cut(m, 0, j);
    var lhs, rhs := Cut(s, 0, j), Swap(cm, i - 1, k - 1);
    forall t | 0 <= t < Rows(m) - 1
      ensures lhs[t] == rhs[t]
    {
      assert lhs[t] == Delete(s[t + 1], j);
      if t == i - 1 {
        assert rhs[t] == cm[k - 1] == Delete(m[k], j);
      } else if t == k - 1 {
        assert rhs[t] == cm[i - 1] == Delete(m[i], j);
      } else {
        assert rhs[t] == cm[t] == Delete(m[t + 1], j);
      }
    }
  }

  /** Exchanging two rows below row 0 negates every weight of row 0, and so
      the determinant. */
  lemma {:induction false} SwapLower(m: Matrix, i: nat, k: nat)
    requires IsSquare(m) && 1 <= i < k < Rows(m)
    ensures DetRef(Swap(m, i, k)) == -DetRef(m)
    decreases Rows(m), 0, 2
  {
    var s := NegatedWeights(m, i, k);
    DetIsDot(m);
    DetIsDot(s);
    NegatedDot(m[0], Weights(m), Weights(s), DetRef(m), DetRef(s));
  }

  /** Negating every weight negates the weighted sum. */
  lemma NegatedDot(u: seq<real>, w: seq<real>, ws: seq<real>, d: real, ds: real)
    requires |u| == |w| == |ws|
    requires forall j :: 0 <= j < |ws| ==> ws[j] == w[j] * -1.0
    requires d == Sums.Dot(u, w) && ds == Sums.Dot(u, ws)
    ensures ds == -d
  {
    Sums.DotRightScaled(u, w, -1.0, ws);
  }

  /** Exchanging two rows below row 0 keeps row 0 and negates every
      weight; the exchanged matrix is returned as `s`. */
  lemma {:induction false} NegatedWeights(m: Matrix, i: nat, k: nat) returns (s: Matrix)
    requires IsSquare(m) && 1 <= i < k < Rows(m)
    ensures s == Swap(m, i, k) && IsSquare(s) && Rows(s) == Rows(m) && s[0] == m[0]
    ensures forall j :: 0 <= j < Rows(m) ==> Weights(s)[j] == Weights(m)[j] * -1.0
    decreases Rows(m), 0, 1
  {
    s := Swap(m, i, k);
    forall j | 0 <= j < Rows(m)
      ensures Weights(s)[j] == Weights(m)[j] * -1.0
    {
      WeightOfSwap(m, i, k, j);
    }
  }

  lemma {:induction false} WeightOfSwap(m: Matrix, i: nat, k: nat, j: nat)
    requires IsSquare(m) && 1 <= i < k < Rows(m) && j < Rows(m)
    ensures Weights(Swap(m, i, k))[j] == -Weights(m)[j]
    decreases Rows(m), 0, 0
  {
    CutOfSwap(m, i, k, j);
    SwapNegates(Cut(m, 0, j), i - 1, k - 1);
  }

  /** Exchanging two distinct rows negates the determinant. */
  lemma {:induction false} SwapNegates(m: Matrix, i: nat, k: nat)
    requires IsSquare(m) && i < k < Rows(m)
    ensures DetRef(Swap(m, i, k)) == -DetRef(m)
    decreases Rows(m), if i == 0 && k >= 2 then 2 else 1, 0
  {
    if i >= 1 {
      SwapLower(m, i, k);
    } else if k == 1 {
      SwapTop(m);
    } else {
      var m1: Matrix := Swap(m, 0, 1);
      var m2: Matrix := Swap(m1, 1, k);
      SwapTop(m);
      SwapLower(m1, 1, k);
      SwapTop(m2);
      assert Swap(m2, 0, 1) == Swap(m, 0, k);
    }
  }

  /** A matrix with two equal rows has determinant zero. */
  lemma {:induction false} EqualRowsZero(m: Matrix, i: nat, k: nat)
    requires IsSquare(m) && i < Rows(m) && k < Rows(m) && i != k && m[i] == m[k]
    ensures DetRef(m) == 0.0
  {
    if i < k {
      SwapNegates(m, i, k);
      assert Swap(m, i, k) == m;
    } else {
      SwapNegates(m, k, i);
      assert Swap(m, k, i) == m;
    }
  }

  /** Adding a multiple of one row to another keeps the determinant. */
  lemma {:induction false} RowOpKeepsDet(m: Matrix, i: nat, k: nat, c: real)
    requires IsSquare(m) && i < Rows(m) && k < Rows(m) && i != k
    ensures DetRef(m[i := Sums.AddScaled(m[i], c, m[k])]) == DetRef(m)
    decreases if i == 0 then 0 else 1
  {
    if i == 0 {
      LinearZero(m, m[0], c, m[k]);
      assert m[0 := m[0]] == m;
      EqualRowsZero(m[0 := m[k]], 0, k);
    } else {
      var p: Matrix := Swap(m, 0, i);
      var k' := if k == 0 then i else k;
      var mx: Matrix := m[i := Sums.AddScaled(m[i], c, m[k])];
      assert Swap(mx, 0, i) == p[0 := Sums.AddScaled(p[0], c, p[k'])];
      RowOpKeepsDet(p, 0, k', c);
      SwapNegates(mx, 0, i);
      SwapNegates(m, 0, i);
    }
  }

  // ---------------------------------------------------------------------
  // Zero columns and triangular matrices

  /** A matrix whose first column is zero has determinant zero. */
  lemma {:induction false} FirstColumnZero(m: Matrix)
    requires IsSquare(m)
    requires forall i :: 0 <= i < Rows(m) ==> m[i][0] == 0.0
    ensures DetRef(m) == 0.0
    decreases Rows(m)
  {
    if Rows(m) >= 2 {
      var w := Weights(m);
      forall j | 1 <= j < Rows(m)
        ensures w[j] == 0.0
      {
        CutKeepsFirstColumn(m, j);
        FirstColumnZero(Cut(m, 0, j));
      }
      DetIsDot(m);
      Sums.DotZeroTerms(m[0], w);
    }
  }

  /** Cutting a column other than 0 keeps column 0 of the rows below row 0. */
  lemma {:induction false} CutKeepsFirstColumn(m: Matrix, j: nat)
    requires IsSquare(m) && 1 <= j < Rows(m)
    ensures forall i {:trigger Cut(m, 0, j)[i]} :: 0 <= i < Rows(m) - 1 ==> Cut(m, 0, j)[i][0] == m[i + 1][0]
  {
    forall i | 0 <= i < Rows(m) - 1
      ensures Cut(m, 0, j)[i][0] == m[i + 1][0]
    {
      CutEntry(m, 0, j, i, 0);
    }
  }

  /** An upper triangular matrix has the product of its diagonal as
      determinant. */
  lemma {:induction false} TriangularDet(a: Matrix)
    requires IsSquare(a) && ZeroBelow(a, Rows(a), Rows(a))
    ensures DetRef(a) == Sums.Product(Diagonal(a, Rows(a)))
    decreases Rows(a)
  {
    var n := Rows(a);
    var d := Diagonal(a, n);
    Sums.ProductFirst(d);
    if n == 1 {
      assert d[1..] == [];
    } else {
      var c := Cut(a, 0, 0);
      TriangularMinor(a);
      TriangularDet(c);
      TriangularExpansion(a);
      ProductOfParts(DetRef(a), a[0][0], DetRef(c), Sums.Product(Diagonal(c, n - 1)), d);
    }
  }

  lemma {:induction false} ProductOfParts(x: real, first: real, rest: real, p: real, d: seq<real>)
    requires |d| >= 1 && d[0] == first && p == Sums.Product(d[1..])
    requires x == Sums.Times(first, rest) && rest == p
    ensures x == Sums.Product(d)
  {
    Sums.ProductFirst(d);
  }

  /** An upper triangular matrix's expansion along row 0 has one term. */
  lemma {:induction false} TriangularExpansion(a: Matrix)
    requires IsSquare(a) && Rows(a) >= 2 && ZeroBelow(a, Rows(a), Rows(a))
    ensures DetRef(a) == Sums.Times(a[0][0], DetRef(Cut(a, 0, 0)))
  {
    TriangularWeights(a);
    DetIsDot(a);
    Sums.DotFirstOnly(a[0], Weights(a));
  }

  /** Below an upper triangular matrix's row 0 and column 0 lies an upper
      triangular matrix with the rest of the diagonal. */
  lemma {:induction false} TriangularMinor(a: Matrix)
    requires IsSquare(a) && Rows(a) >= 2 && ZeroBelow(a, Rows(a), Rows(a))
    ensures ZeroBelow(Cut(a, 0, 0), Rows(a) - 1, Rows(a) - 1)
    ensures Diagonal(Cut(a, 0, 0), Rows(a) - 1) == Diagonal(a, Rows(a))[1..]
  {
    var n, c := Rows(a), Cut(a, 0, 0);
    forall i, j | 0 <= i < n - 1 && 0 <= j < n - 1
      ensures c[i][j] == a[i + 1][j + 1]
    {
      CutEntry(a, 0, 0, i, j);
    }
  }

  /** In an upper triangular matrix only the first weight of row 0 can be
      non-zero. */
  lemma {:induction false} TriangularWeights(a: Matrix)
    requires IsSquare(a) && Rows(a) >= 2 && ZeroBelow(a, Rows(a), Rows(a))
    ensures forall j {:trigger Weights(a)[j]} :: 1 <= j < Rows(a) ==> Weights(a)[j] == 0.0
  {
    forall j | 1 <= j < Rows(a)
      ensures Weights(a)[j] == 0.0
    {
      CutKeepsFirstColumn(a, j);
      FirstColumnZero(Cut(a, 0, j));
    }
  }
}
