/** The recursive cofactor determinant and the inverse by the minors method.

    `Det` follows the library's recursion: a 1x1 matrix gives its element, a
    2x2 matrix gives `ad - bc`, and a larger one is expanded along row 0,
    skipping zero entries.  `DetRef` is the textbook Laplace expansion with
    neither shortcut; every contract below is stated against `DetRef`.
 */
module Determinants {
  import opened Results
  import opened Matrices
  import Sums
  import Vectors

  /** `Math.Pow(-1, i)`. */
  function Sign(i: nat): real
  {
    if i % 2 == 0 then 1.0 else -1.0
  }

  /** Term `j` of the expansion along row 0, given the determinant `minor`
      of the matrix with row 0 and column `j` cut. */
  function RowTerm(m: Matrix, j: nat, minor: real): real
    requires j < Cols(m)
  {
    Sign(j) * m[0][j] * minor
  }

  /** A zero entry contributes nothing, whatever its minor. */
  lemma {:induction false} RowTermZero(m: Matrix, j: nat, minor: real)
    requires j < Cols(m) && m[0][j] == 0.0
    ensures RowTerm(m, j, minor) == 0.0
  {
  }

  /** The reference determinant: Laplace expansion along row 0, every term
      included, down to 1x1. */
  function DetRef(m: Matrix): real
    requires IsSquare(m)
    decreases Rows(m), 1
  {
    if Rows(m) == 1 then m[0][0] else Laplace(m, Rows(m))
  }

  /** The first `k` terms of the reference expansion along row 0. */
  function Laplace(m: Matrix, k: nat): real
    requires IsSquare(m) && Rows(m) >= 2 && k <= Rows(m)
    decreases Rows(m), 0, k
  {
    if k == 0 then 0.0
    else Laplace(m, k - 1) + RowTerm(m, k - 1, DetRef(Cut(m, 0, k - 1)))
  }

  /** The library's recursion (`CalculateDeterminant` on a square matrix). */
  function Det(m: Matrix): real
    requires IsSquare(m)
    decreases Rows(m), 1
  {
    if Rows(m) == 1 then m[0][0]
    else if Rows(m) == 2 then m[0][0] * m[1][1] - m[0][1] * m[1][0]
    else Expansion(m, Rows(m))
  }

  /** The loop over row 0 of `CalculateDeterminant`, after `k` columns: a
      zero entry is skipped without evaluating its minor. */
  function Expansion(m: Matrix, k: nat): real
    requires IsSquare(m) && Rows(m) >= 2 && k <= Rows(m)
    decreases Rows(m), 0, k
  {
    if k == 0 then 0.0
    else if m[0][k - 1] == 0.0 then Expansion(m, k - 1)
    else Expansion(m, k - 1) + RowTerm(m, k - 1, Det(Cut(m, 0, k - 1)))
  }

  /** The library's shortcuts (the 2x2 formula, skipping zero entries) do
      not change the value: its determinant is the Laplace determinant. */
  lemma {:induction false} DetIsLaplace(m: Matrix)
    requires IsSquare(m)
    ensures Det(m) == DetRef(m)
    decreases Rows(m), 1
  {
    if Rows(m) == 2 {
      var c0, c1 := Cut(m, 0, 0), Cut(m, 0, 1);
      assert DetRef(c0) == c0[0][0] == m[1][1];
      assert DetRef(c1) == c1[0][0] == m[1][0];
      assert Laplace(m, 1) == m[0][0] * m[1][1];
      assert Laplace(m, 2) == Laplace(m, 1) + Sign(1) * m[0][1] * DetRef(c1);
    } else if Rows(m) > 2 {
      ExpansionIsLaplace(m, Rows(m));
    }
  }

  lemma {:induction false} ExpansionIsLaplace(m: Matrix, k: nat)
    requires IsSquare(m) && Rows(m) >= 2 && k <= Rows(m)
    ensures Expansion(m, k) == Laplace(m, k)
    decreases Rows(m), 0, k
  {
    if k > 0 {
      ExpansionIsLaplace(m, k - 1);
      DetIsLaplace(Cut(m, 0, k - 1));
      if m[0][k - 1] == 0.0 {
        RowTermZero(m, k - 1, DetRef(Cut(m, 0, k - 1)));
      }
    }
  }

  /** `CalculateDeterminant`: fails on a non-square matrix, otherwise gives
      the Laplace determinant. */
  function Determinant(m: Matrix): (r: Result<real>)
    ensures r.Failure? <==> !IsSquare(m)
    ensures r.Failure? ==> r.error == NotSquareError
    ensures r.Success? ==> r.v == DetRef(m)
  {
    if !IsSquare(m) then Failure(NotSquareError)
    else
      DetIsLaplace(m);
      Success(Det(m))
  }

  /** Cutting row 0 and column 0 of the identity leaves the identity. */
  lemma {:induction false} CutIdentity(n: nat)
    requires n >= 2
    ensures Cut(Identity(n).v, 0, 0) == Identity(n - 1).v
  {
    var c, id := Cut(Identity(n).v, 0, 0), Identity(n - 1).v;
    assert forall i :: 0 <= i < n - 1 ==> c[i] == id[i];
  }

  /** Only the first term of the identity's expansion survives. */
  lemma {:induction false} LaplaceIdentity(n: nat, k: nat)
    requires n >= 2 && 1 <= k <= n
    ensures Laplace(Identity(n).v, k) == DetRef(Identity(n - 1).v)
  {
    var e := Identity(n).v;
    CutIdentity(n);
    if k > 1 {
      LaplaceIdentity(n, k - 1);
      RowTermZero(e, k - 1, DetRef(Cut(e, 0, k - 1)));
    } else {
      assert e[0][0] == 1.0;
    }
  }

  /** The identity matrix has determinant 1. */
  lemma {:induction false} DetIdentity(n: nat)
    requires n >= 1
    ensures DetRef(Identity(n).v) == 1.0
  {
    if n >= 2 {
      LaplaceIdentity(n, n);
      DetIdentity(n - 1);
    }
  }

  /** A 2x2 determinant is `ad - bc`. */
  lemma {:induction false} DetTwo(m: Matrix)
    requires Rows(m) == 2 && IsSquare(m)
    ensures DetRef(m) == m[0][0] * m[1][1] - m[0][1] * m[1][0]
  {
    DetIsLaplace(m);
  }

  /** A 3x3 determinant is the cofactor expansion along row 0 written out. */
  lemma {:induction false} DetThree(m: Matrix)
    requires Rows(m) == 3 && IsSquare(m)
    ensures DetRef(m) == m[0][0] * (m[1][1] * m[2][2] - m[1][2] * m[2][1])
                       - m[0][1] * (m[1][0] * m[2][2] - m[1][2] * m[2][0])
                       + m[0][2] * (m[1][0] * m[2][1] - m[1][1] * m[2][0])
  {
    MinorTwo(m, 0, 1, 2);
    MinorTwo(m, 1, 0, 2);
    MinorTwo(m, 2, 0, 1);
    LaplaceThree(m);
  }

  /** The three terms of a 3x3 expansion, with their signs. */
  lemma {:induction false} LaplaceThree(m: Matrix)
    requires Rows(m) == 3 && IsSquare(m)
    ensures Laplace(m, 3) == m[0][0] * DetRef(Cut(m, 0, 0)) - m[0][1] * DetRef(Cut(m, 0, 1))
                             + m[0][2] * DetRef(Cut(m, 0, 2))
  {
    LaplaceTwoTerms(m);
    assert Laplace(m, 3) == Laplace(m, 2) + m[0][2] * DetRef(Cut(m, 0, 2));
  }

  /** The first two terms of a 3x3 expansion. */
  lemma {:induction false} LaplaceTwoTerms(m: Matrix)
    requires Rows(m) == 3 && IsSquare(m)
    ensures Laplace(m, 2) == m[0][0] * DetRef(Cut(m, 0, 0)) - m[0][1] * DetRef(Cut(m, 0, 1))
  {
    assert Laplace(m, 1) == m[0][0] * DetRef(Cut(m, 0, 0));
    assert Laplace(m, 2) == Laplace(m, 1) + -1.0 * m[0][1] * DetRef(Cut(m, 0, 1));
  }

  /** The minor of `m[0][j]` in a 3x3 matrix keeps columns `a < b`. */
  lemma {:induction false} MinorTwo(m: Matrix, j: nat, a: nat, b: nat)
    requires Rows(m) == 3 && IsSquare(m) && j < 3 && a < b < 3 && j != a && j != b
    ensures DetRef(Cut(m, 0, j)) == m[1][a] * m[2][b] - m[1][b] * m[2][a]
  {
    var c := Cut(m, 0, j);
    assert c[0] == Delete(m[1], j) && c[1] == Delete(m[2], j);
    assert c[0][0] == m[1][a] && c[0][1] == m[1][b] && c[1][0] == m[2][a] && c[1][1] == m[2][b];
    DetTwo(c);
  }

  /** Swapping the two rows of a 2x2 matrix negates the determinant, and
      transposing it keeps the determinant. */
  lemma {:induction false} TwoByTwo(a: real, b: real, c: real, d: real)
    ensures DetRef([[a, b], [c, d]]) == a * d - b * c
    ensures DetRef([[c, d], [a, b]]) == -DetRef([[a, b], [c, d]])
    ensures DetRef([[a, c], [b, d]]) == DetRef([[a, b], [c, d]])
  {
    DetTwo([[a, b], [c, d]]);
    DetTwo([[c, d], [a, b]]);
    DetTwo([[a, c], [b, d]]);
  }

  // ---------------------------------------------------------------------
  // Inverse

  /** `CalculateMinorsMatrix`: entry `(i, j)` is the determinant of the
      matrix with row `i` and column `j` cut. */
  function Minors(m: Matrix): (r: Matrix)
    requires IsSquare(m) && Rows(m) >= 2
    ensures Rows(r) == Rows(m) && Cols(r) == Cols(m)
    ensures forall i, j {:trigger r[i][j]} :: 0 <= i < Rows(m) && 0 <= j < Rows(m) ==> r[i][j] == DetRef(Cut(m, i, j))
  {
    var n := Rows(m);
    var r := seq(n, i requires 0 <= i < n => seq(n, j requires 0 <= j < n => Det(Cut(m, i, j))));
    forall i, j | 0 <= i < n && 0 <= j < n
      ensures r[i][j] == DetRef(Cut(m, i, j))
    {
      DetIsLaplace(Cut(m, i, j));
    }
    r
  }

  /** The cofactor step: entries with odd `i + j` change sign. */
  function Cofactors(m: Matrix): (r: Matrix)
    requires IsSquare(m) && Rows(m) >= 2
    ensures Rows(r) == Rows(m) && Cols(r) == Cols(m)
    ensures forall i, j {:trigger r[i][j]} :: 0 <= i < Rows(m) && 0 <= j < Rows(m) ==> r[i][j] == Sign(i + j) * DetRef(Cut(m, i, j))
  {
    Checkerboard(Minors(m))
  }

  /** Square grid `g` with the entries at odd `i + j` negated. */
  function Checkerboard(g: Matrix): (r: Matrix)
    requires IsSquare(g)
    ensures Rows(r) == Rows(g) && Cols(r) == Cols(g)
    ensures forall i, j {:trigger r[i][j]} :: 0 <= i < Rows(g) && 0 <= j < Rows(g) ==> r[i][j] == Sign(i + j) * g[i][j]
  {
    seq(|g|, i requires 0 <= i < |g| =>
      seq(|g|, j requires 0 <= j < |g| => Sign(i + j) * g[i][j]))
  }

  /** The adjugate of a matrix with cofactor matrix `cof` (the transposed
      cofactor matrix), divided by `det`. */
  function AdjugateOver(cof: Matrix, det: real): (r: Matrix)
    requires det != 0.0
    ensures Rows(r) == Cols(cof) && Cols(r) == Rows(cof)
    ensures forall i, j :: 0 <= i < Cols(cof) && 0 <= j < Rows(cof) ==> r[i][j] * det == cof[j][i]
  {
    Divide(Transpose(cof), det).v
  }

  const NotSquareError := "Cannot calculate determinant of matrix which is not square"
  const SingularError := "Determinant of initial matrix is 0. Inverse matrix does not exist"

  /** `CalculateInverse`: fails on a non-square or singular matrix; a 1x1
      matrix gives `[[1/a]]`; otherwise the adjugate (the transposed
      cofactor matrix) divided by the determinant. */
  function Inverse(m: Matrix): (r: Result<Matrix>)
    ensures r.Failure? <==> !IsSquare(m) || DetRef(m) == 0.0
    ensures !IsSquare(m) ==> r == Failure(NotSquareError)
    ensures IsSquare(m) && DetRef(m) == 0.0 ==> r == Failure(SingularError)
    ensures r.Success? ==> Rows(r.v) == Rows(m) && Cols(r.v) == Rows(m)
  {
    if !IsSquare(m) then Result<Matrix>.Failure(NotSquareError)
    else
      var det := Determinant(m);
      if det.v == 0.0 then Failure(SingularError)
      else if Rows(m) < 2 then Success([[1.0 / m[0][0]]])
      else Success(AdjugateOver(Cofactors(m), det.v))
  }

  /** The inner product of two 2-vectors, in terms of `Lin`. */
  lemma {:induction false} DotLin(u: seq<real>, v: seq<real>)
    requires |u| == |v| == 2
    ensures Sums.Dot(u, v) == Lin(u[0], u[1], v[0], v[1])
  {
    Sums.DotTwo(u, v);
  }

  /** The cofactors of a 2x2 matrix. */
  lemma {:induction false} CofactorsTwo(m: Matrix)
    requires Rows(m) == 2 && Cols(m) == 2
    ensures var cof := Cofactors(m);
      cof[0][0] == m[1][1] && cof[1][0] == -m[0][1] && cof[0][1] == -m[1][0] && cof[1][1] == m[0][0]
  {
    var c00, c01, c10, c11 := Cut(m, 0, 0), Cut(m, 0, 1), Cut(m, 1, 0), Cut(m, 1, 1);
    assert DetRef(c00) == c00[0][0] == m[1][1];
    assert DetRef(c01) == c01[0][0] == m[1][0];
    assert DetRef(c10) == c10[0][0] == m[0][1];
    assert DetRef(c11) == c11[0][0] == m[0][0];
  }

  /** The entries of a 2x2 adjugate over the determinant, times the determinant: the swapped
      diagonal and the negated off-diagonal. */
  lemma {:induction false} AdjugateOverTwo(m: Matrix, det: real)
    requires Rows(m) == 2 && Cols(m) == 2 && det == DetRef(m) != 0.0
    ensures var inv := AdjugateOver(Cofactors(m), det);
      inv[0][0] * det == m[1][1] && inv[0][1] * det == -m[0][1] &&
      inv[1][0] * det == -m[1][0] && inv[1][1] * det == m[0][0]
  {
    CofactorsTwo(m);
  }

  /** Above 1x1, a successful inverse is the adjugate over the determinant. */
  lemma {:induction false} InverseIsAdjugate(m: Matrix)
    requires IsSquare(m) && Rows(m) >= 2 && DetRef(m) != 0.0
    ensures Inverse(m) == Success(AdjugateOver(Cofactors(m), DetRef(m)))
  {
  }

  /** Cramer's rule for two unknowns: with `p, q, r, s` the entries of the
      adjugate over `det = ad - bc`, applying the adjugate and then the
      matrix gives back `(x, y)`. */
  lemma {:induction false} CramerInverseFirst(a: real, b: real, c: real, d: real, det: real,
                                              p: real, q: real, r: real, s: real, x: real, y: real, w0: real, w1: real)
    requires det == a * d - b * c && det != 0.0
    requires p * det == d && q * det == -b
    requires r * det == -c && s * det == a
    requires w0 == Lin(p, q, x, y) && w1 == Lin(r, s, x, y)
    ensures Lin(a, b, w0, w1) == x && Lin(c, d, w0, w1) == y
  {
    AdjugateProducts(a, b, c, d, det, p, q, r, s);
    assert a * (p * x + q * y) + b * (r * x + s * y) == (a * p + b * r) * x + (a * q + b * s) * y;
    assert c * (p * x + q * y) + d * (r * x + s * y) == (c * p + d * r) * x + (c * q + d * s) * y;
  }

  /** The same with the matrix applied first. */
  lemma {:induction false} CramerMatrixFirst(a: real, b: real, c: real, d: real, det: real,
                                             p: real, q: real, r: real, s: real, x: real, y: real, u0: real, u1: real)
    requires det == a * d - b * c && det != 0.0
    requires p * det == d && q * det == -b
    requires r * det == -c && s * det == a
    requires u0 == Lin(a, b, x, y) && u1 == Lin(c, d, x, y)
    ensures Lin(p, q, u0, u1) == x && Lin(r, s, u0, u1) == y
  {
    AdjugateProducts(a, b, c, d, det, p, q, r, s);
    assert p * (a * x + b * y) + q * (c * x + d * y) == (p * a + q * c) * x + (p * b + q * d) * y;
    assert r * (a * x + b * y) + s * (c * x + d * y) == (r * a + s * c) * x + (r * b + s * d) * y;
  }

  /** The adjugate over the determinant multiplies with the matrix to the
      identity, on both sides. */
  lemma {:induction false} AdjugateProducts(a: real, b: real, c: real, d: real, det: real, p: real, q: real, r: real, s: real)
    requires det == a * d - b * c && det != 0.0
    requires p * det == d && q * det == -b
    requires r * det == -c && s * det == a
    ensures a * p + b * r == 1.0 && a * q + b * s == 0.0
    ensures c * p + d * r == 0.0 && c * q + d * s == 1.0
    ensures p * a + q * c == 1.0 && p * b + q * d == 0.0
    ensures r * a + s * c == 0.0 && r * b + s * d == 1.0
  {
    Combine(a, p, b, r, det, d, -c, det);
    Combine(a, q, b, s, det, -b, a, 0.0);
    Combine(c, p, d, r, det, d, -c, 0.0);
    Combine(c, q, d, s, det, -b, a, det);
    Combine(a, p, c, q, det, d, -b, det);
    Combine(b, p, d, q, det, d, -b, 0.0);
    Combine(a, r, c, s, det, -c, a, 0.0);
    Combine(b, r, d, s, det, -c, a, det);
  }

  /** From `p det == pd` and `q det == qd`: `u p + v q == (u pd + v qd) / det`. */
  lemma {:induction false} Combine(u: real, p: real, v: real, q: real, det: real, pd: real, qd: real, e: real)
    requires det != 0.0 && p * det == pd && q * det == qd && u * pd + v * qd == e
    ensures u * p + v * q == e / det
  {
    assert (u * p + v * q) * det == u * (p * det) + v * (q * det);
  }

  /** `a x + b y`: a row `(a, b)` applied to the vector `(x, y)`. */
  function Lin(a: real, b: real, x: real, y: real): real
  {
    a * x + b * y
  }

  /** The product of a 2x2 matrix and a 2-vector, written out. */
  lemma {:induction false} MultiplyTwo(m: Matrix, v: seq<real>)
    requires Rows(m) == 2 && Cols(m) == 2 && |v| == 2
    ensures Multiply(m, v).Success?
    ensures Multiply(m, v).v == [Lin(m[0][0], m[0][1], v[0], v[1]), Lin(m[1][0], m[1][1], v[0], v[1])]
  {
    DotLin(m[0], v);
    DotLin(m[1], v);
    var r := Multiply(m, v).v;
    assert |r| == 2 && r[0] == Sums.Dot(m[0], v) && r[1] == Sums.Dot(m[1], v);
    assert r == [r[0], r[1]];
  }

  /** Two 2x2 matrices whose entries are related as a matrix and its
      adjugate over `det` undo each other, in both orders. */
  lemma {:induction false} UndoTwo(m: Matrix, inv: Matrix, v: seq<real>, det: real)
    requires Rows(m) == 2 && Cols(m) == 2 && Rows(inv) == 2 && Cols(inv) == 2 && |v| == 2
    requires det == m[0][0] * m[1][1] - m[0][1] * m[1][0] && det != 0.0
    requires inv[0][0] * det == m[1][1] && inv[0][1] * det == -m[0][1]
    requires inv[1][0] * det == -m[1][0] && inv[1][1] * det == m[0][0]
    ensures Multiply(m, Multiply(inv, v).v).v == v
    ensures Multiply(inv, Multiply(m, v).v).v == v
  {
    UndoTwoInverseFirst(m, inv, v, det);
    UndoTwoMatrixFirst(m, inv, v, det);
  }

  lemma {:induction false} UndoTwoInverseFirst(m: Matrix, inv: Matrix, v: seq<real>, det: real)
    requires Rows(m) == 2 && Cols(m) == 2 && Rows(inv) == 2 && Cols(inv) == 2 && |v| == 2
    requires det == m[0][0] * m[1][1] - m[0][1] * m[1][0] && det != 0.0
    requires inv[0][0] * det == m[1][1] && inv[0][1] * det == -m[0][1]
    requires inv[1][0] * det == -m[1][0] && inv[1][1] * det == m[0][0]
    ensures Multiply(m, Multiply(inv, v).v).v == v
  {
    var w := Multiply(inv, v).v;
    MultiplyTwo(inv, v);
    CramerInverseFirst(m[0][0], m[0][1], m[1][0], m[1][1], det, inv[0][0], inv[0][1], inv[1][0], inv[1][1],
                       v[0], v[1], w[0], w[1]);
    MultiplyTwo(m, w);
    var mw := Multiply(m, w).v;
    assert mw[0] == v[0] && mw[1] == v[1];
    assert mw == v;
  }

  lemma {:induction false} UndoTwoMatrixFirst(m: Matrix, inv: Matrix, v: seq<real>, det: real)
    requires Rows(m) == 2 && Cols(m) == 2 && Rows(inv) == 2 && Cols(inv) == 2 && |v| == 2
    requires det == m[0][0] * m[1][1] - m[0][1] * m[1][0] && det != 0.0
    requires inv[0][0] * det == m[1][1] && inv[0][1] * det == -m[0][1]
    requires inv[1][0] * det == -m[1][0] && inv[1][1] * det == m[0][0]
    ensures Multiply(inv, Multiply(m, v).v).v == v
  {
    var u := Multiply(m, v).v;
    MultiplyTwo(m, v);
    CramerMatrixFirst(m[0][0], m[0][1], m[1][0], m[1][1], det, inv[0][0], inv[0][1], inv[1][0], inv[1][1],
                      v[0], v[1], u[0], u[1]);
    MultiplyTwo(inv, u);
    var iu := Multiply(inv, u).v;
    assert iu[0] == v[0] && iu[1] == v[1];
    assert iu == v;
  }

  /** For a 2x2 matrix the inverse undoes the matrix: `M (M^-1 v) == v`
      and `M^-1 (M v) == v` for every vector `v`. */
  lemma {:induction false} InverseTwoByTwo(m: Matrix, v: Vectors.Vec)
    requires Rows(m) == 2 && Cols(m) == 2 && |v| == 2 && DetRef(m) != 0.0
    ensures Multiply(m, Multiply(Inverse(m).v, v).v).v == v
    ensures Multiply(Inverse(m).v, Multiply(m, v).v).v == v
  {
    InverseIsAdjugate(m);
    AdjugateOverTwo(m, DetRef(m));
    DetTwo(m);
    UndoTwo(m, AdjugateOver(Cofactors(m), DetRef(m)), v, DetRef(m));
  }

  /** For a 1x1 matrix the inverse is the reciprocal. */
  lemma {:induction false} InverseOneByOne(a: real)
    requires a != 0.0
    ensures Inverse([[a]]) == Success([[1.0 / a]])
    ensures Inverse([[a]]).v[0][0] * a == 1.0
  {
  }

  /** The small worked examples of the library's tests. */
  lemma {:induction false} DeterminantExamples()
    ensures Determinant([[1.0]]) == Success(1.0)
    ensures Determinant([[4.0, 6.0], [3.0, 8.0]]) == Success(14.0)
  {
    DetTwo([[4.0, 6.0], [3.0, 8.0]]);
  }

  /** The non-square example of the library's tests. */
  lemma {:induction false} DeterminantExampleNotSquare()
    ensures Determinant([[1.0, 2.0, 3.0], [4.0, 5.0, 6.0]]) == Failure(NotSquareError)
  {
    var m: Matrix := [[1.0, 2.0, 3.0], [4.0, 5.0, 6.0]];
    assert Rows(m) == 2 && Cols(m) == 3;
  }

  /** A 3x3 example of the library's tests. */
  lemma {:induction false} DeterminantExampleThree()
    ensures Determinant([[6.0, 1.0, 1.0], [4.0, -2.0, 5.0], [2.0, 8.0, 7.0]]) == Success(-306.0)
  {
    var m: Matrix := [[6.0, 1.0, 1.0], [4.0, -2.0, 5.0], [2.0, 8.0, 7.0]];
    assert DetRef(m) == -306.0 by {
      assert Rows(m) == 3 && IsSquare(m);
      DetThree(m);
    }
  }

  /** A 3x3 matrix whose first column is zero has determinant 0. */
  lemma {:induction false} ZeroColumnThree(m: Matrix)
    requires Rows(m) == 3 && IsSquare(m)
    requires m[0][0] == 0.0 && m[1][0] == 0.0 && m[2][0] == 0.0
    ensures DetRef(m) == 0.0
  {
    DetThree(m);
  }

  /** A 3x3 example with a zero column. */
  lemma {:induction false} DeterminantExampleZeroColumn()
    ensures Determinant([[0.0, 1.0, 1.0], [0.0, -2.0, 5.0], [0.0, 8.0, 7.0]]) == Success(0.0)
  {
    var m: Matrix := [[0.0, 1.0, 1.0], [0.0, -2.0, 5.0], [0.0, 8.0, 7.0]];
    assert Rows(m) == 3 && IsSquare(m);
    ZeroColumnThree(m);
  }
}
