/** The inverse by the minors method undoes the matrix, for every order.

    The determinant is defined by expansion along row 0.  Moving row `l` to
    the top takes `l` adjacent exchanges, which gives the expansion along
    any row; a row expanded against the cofactors of another row is the
    determinant of a matrix with two equal rows, which is zero.  Together
    these make `M (adj(M) / det M) v == v` for every vector `v`.
 */
module InverseLaws {
  import opened Matrices
  import opened Determinants
  import opened Results
  import DeterminantLaws
  import Sums

  // ---------------------------------------------------------------------
  // Expansion along any row

  /** Row `l` moved to the top by `l` adjacent exchanges, the other rows
      keeping their order (`MoveTopRows`). */
  function MoveTop(m: Matrix, l: nat): (t: Matrix)
    requires IsSquare(m) && l < Rows(m)
    ensures IsSquare(t) && Rows(t) == Rows(m)
    decreases l
  {
    if l == 0 then m else MoveTop(Swap(m, l - 1, l), l - 1)
  }

  /** The moved matrix starts with row `l`, followed by the other rows in
      their order. */
  lemma {:induction false} MoveTopRows(m: Matrix, l: nat)
    requires IsSquare(m) && l < Rows(m)
    ensures MoveTop(m, l)[0] == m[l] && Delete(MoveTop(m, l), 0) == Delete(m, l)
    decreases l
  {
    if l == 0 {
      assert Delete(m, 0) == m[1..];
    } else {
      var s := SwapBelow(m, l);
      MoveTopRows(s, l - 1);
    }
  }

  /** After exchanging rows `l - 1` and `l`, row `l` sits at `l - 1` and
      deleting it there leaves what deleting row `l` left before. */
  lemma {:induction false} SwapBelow(m: Matrix, l: nat) returns (s: Matrix)
    requires IsSquare(m) && 1 <= l < Rows(m)
    ensures s == Swap(m, l - 1, l) && IsSquare(s) && Rows(s) == Rows(m)
    ensures s[l - 1] == m[l] && Delete(s, l - 1) == Delete(m, l)
  {
    s := Swap(m, l - 1, l);
    forall i | 0 <= i < Rows(m) - 1
      ensures Delete(s, l - 1)[i] == Delete(m, l)[i]
    {
    }
    assert Delete(s, l - 1) == Delete(m, l);
  }

  /** Moving row `l` to the top takes `l` adjacent exchanges, each of which
      negates the determinant. */
  lemma {:induction false} MoveTopSign(m: Matrix, l: nat)
    requires IsSquare(m) && l < Rows(m)
    ensures DetRef(MoveTop(m, l)) == DeterminantLaws.Signed(l, DetRef(m))
    decreases l
  {
    if l > 0 {
      var s: Matrix := Swap(m, l - 1, l);
      DeterminantLaws.SwapNegates(m, l - 1, l);
      MoveTopSign(s, l - 1);
      SignedShift(l, DetRef(m), DetRef(s), DetRef(MoveTop(m, l)));
    }
  }

  /** One more exchange flips the sign once more. */
  lemma {:induction false} SignedShift(l: nat, x: real, y: real, z: real)
    requires l >= 1 && y == -x && z == DeterminantLaws.Signed(l - 1, y)
    ensures z == DeterminantLaws.Signed(l, x)
  {
  }

  /** Two signs combine into the sign of the sum of the positions. */
  lemma {:induction false} SignedTwice(l: nat, j: nat, x: real)
    ensures DeterminantLaws.Signed(l, DeterminantLaws.Signed(j, x)) == Sign(l + j) * x
  {
    if l % 2 == 0 && j % 2 == 0 {
      assert (l + j) % 2 == 0;
    } else if l % 2 == 1 && j % 2 == 1 {
      assert (l + j) % 2 == 0;
    } else {
      assert (l + j) % 2 == 1;
    }
  }

  /** Cofactor row `l` is the expansion weights of the matrix with row `l`
      moved to the top, each with the sign of `l`. */
  lemma {:induction false} CofactorRowOfMoveTop(m: Matrix, l: nat)
    requires IsSquare(m) && Rows(m) >= 2 && l < Rows(m)
    ensures Cofactors(m)[l] == DeterminantLaws.SignedRow(l, DeterminantLaws.Weights(MoveTop(m, l)))
  {
    var t := MoveTop(m, l);
    MoveTopRows(m, l);
    var w := DeterminantLaws.Weights(t);
    var lhs, rhs := Cofactors(m)[l], DeterminantLaws.SignedRow(l, w);
    forall j | 0 <= j < Rows(m)
      ensures lhs[j] == rhs[j]
    {
      assert Cut(t, 0, j) == Cut(m, l, j);
      SignedTwice(l, j, DetRef(Cut(m, l, j)));
    }
  }

  /** The expansion along row `l`: the determinant is the inner product of
      row `l` with cofactor row `l`. */
  lemma {:induction false} RowExpansion(m: Matrix, l: nat)
    requires IsSquare(m) && Rows(m) >= 2 && l < Rows(m)
    ensures DetRef(m) == Sums.Dot(m[l], Cofactors(m)[l])
  {
    var t := MoveTop(m, l);
    MoveTopRows(m, l);
    MoveTopSign(m, l);
    DeterminantLaws.DetIsDot(t);
    CofactorRowOfMoveTop(m, l);
    DeterminantLaws.DotSignedRow(m[l], l, DeterminantLaws.Weights(t));
  }

  /** Alien cofactors: row `i` against the cofactors of another row `l`
      expands the matrix whose row `l` is replaced by row `i`, which has two
      equal rows. */
  lemma {:induction false} AlienCofactors(m: Matrix, i: nat, l: nat)
    requires IsSquare(m) && Rows(m) >= 2 && i < Rows(m) && l < Rows(m) && i != l
    ensures Sums.Dot(m[i], Cofactors(m)[l]) == 0.0
  {
    var e: Matrix := m[l := m[i]];
    forall t | 0 <= t < Rows(m) - 1
      ensures Delete(e, l)[t] == Delete(m, l)[t]
    {
    }
    assert Delete(e, l) == Delete(m, l);
    forall j | 0 <= j < Rows(m)
      ensures Cofactors(e)[l][j] == Cofactors(m)[l][j]
    {
      assert Cut(e, l, j) == Cut(m, l, j);
    }
    assert Cofactors(e)[l] == Cofactors(m)[l];
    RowExpansion(e, l);
    DeterminantLaws.EqualRowsZero(e, i, l);
  }

  /** Row `i` against cofactor row `l` gives the determinant when `i == l`
      and zero otherwise: `M adj(M) == det(M) I`. */
  lemma {:induction false} CofactorProducts(m: Matrix, i: nat, l: nat)
    requires IsSquare(m) && Rows(m) >= 2 && i < Rows(m) && l < Rows(m)
    ensures Sums.Dot(m[i], Cofactors(m)[l]) == if i == l then DetRef(m) else 0.0
  {
    if i == l {
      RowExpansion(m, l);
    } else {
      AlienCofactors(m, i, l);
    }
  }

  // ---------------------------------------------------------------------
  // The inverse is a right inverse

  /** Column `l` of `cof` transposed over `det` is row `l` of `cof` over
      `det`. */
  lemma {:induction false} AdjugateColumn(cof: Matrix, det: real, l: nat)
    requires IsSquare(cof) && l < Rows(cof) && det != 0.0
    ensures Sums.Column(AdjugateOver(cof, det), l) == Sums.Scale(cof[l], 1.0 / det)
  {
    var inv := AdjugateOver(cof, det);
    var lhs, rhs := Sums.Column(inv, l), Sums.Scale(cof[l], 1.0 / det);
    forall j | 0 <= j < Rows(cof)
      ensures lhs[j] == rhs[j]
    {
      Quotient(inv[j][l], det, cof[l][j]);
    }
  }

  /** `x d == y` with `d` non-zero makes `x` the quotient `y (1/d)`. */
  lemma {:induction false} Quotient(x: real, d: real, y: real)
    requires d != 0.0 && x * d == y
    ensures x == y * (1.0 / d)
  {
  }

  /** When row `i` of `m` against row `l` of `cof` gives `det` for `l == i`
      and zero otherwise, row `i` carried through `cof` transposed over
      `det` is unit row `i`. */
  lemma {:induction false} TransposedIsUnit(m: Matrix, cof: Matrix, det: real, i: nat)
    requires IsSquare(m) && IsSquare(cof) && Rows(cof) == Rows(m) && i < Rows(m) && det != 0.0
    requires forall l :: 0 <= l < Rows(m) ==> Sums.Dot(m[i], cof[l]) == if i == l then det else 0.0
    ensures Sums.ApplyTransposed(AdjugateOver(cof, det), m[i], Rows(m)) == Unit(Rows(m), i)
  {
    var n := Rows(m);
    var inv := AdjugateOver(cof, det);
    var lhs, rhs := Sums.ApplyTransposed(inv, m[i], n), Unit(n, i);
    forall l | 0 <= l < n
      ensures lhs[l] == rhs[l]
    {
      UnitEntry(m, cof, det, i, l);
    }
  }

  /** Entry `l` of `TransposedIsUnit`. */
  lemma {:induction false} UnitEntry(m: Matrix, cof: Matrix, det: real, i: nat, l: nat)
    requires IsSquare(m) && IsSquare(cof) && Rows(cof) == Rows(m) && i < Rows(m) && l < Rows(m) && det != 0.0
    requires Sums.Dot(m[i], cof[l]) == if i == l then det else 0.0
    ensures Sums.Dot(Sums.Column(AdjugateOver(cof, det), l), m[i]) == if i == l then 1.0 else 0.0
  {
    AdjugateColumn(cof, det, l);
    Sums.DotScale(cof[l], 1.0 / det, m[i]);
    Sums.DotCommute(cof[l], m[i]);
    Reciprocal(det, Sums.Dot(cof[l], m[i]), i == l);
  }

  /** `(1/d) p` is one when `p == d` and zero when `p == 0`. */
  lemma {:induction false} Reciprocal(d: real, p: real, same: bool)
    requires d != 0.0 && p == if same then d else 0.0
    ensures (1.0 / d) * p == if same then 1.0 else 0.0
  {
  }

  /** A matrix `cof` with `M cof^T == det I` gives a right inverse
      `cof^T / det`: `M (cof^T / det) v == v`. */
  lemma {:induction false} AdjugateRightInverse(m: Matrix, cof: Matrix, det: real, v: seq<real>)
    requires IsSquare(m) && IsSquare(cof) && Rows(cof) == Rows(m) && det != 0.0 && |v| == Rows(m)
    requires forall i, l :: 0 <= i < Rows(m) && 0 <= l < Rows(m) ==>
      Sums.Dot(m[i], cof[l]) == if i == l then det else 0.0
    ensures Multiply(AdjugateOver(cof, det), v).Success?
    ensures Multiply(m, Multiply(AdjugateOver(cof, det), v).v).v == v
  {
    var n := Rows(m);
    var inv := AdjugateOver(cof, det);
    var w := Multiply(inv, v).v;
    assert w == Sums.Apply(inv, v);
    var u := Multiply(m, w).v;
    forall i | 0 <= i < n
      ensures u[i] == v[i]
    {
      Sums.BilinearTranspose(m[i], inv, v);
      TransposedIsUnit(m, cof, det, i);
      UnitDot(n, v, i);
    }
  }

  /** For a non-singular matrix of any order, multiplying a vector by the
      inverse and then by the matrix gives the vector back:
      `M (M^-1 v) == v`. */
  lemma {:induction false} RightInverse(m: Matrix, v: seq<real>)
    requires IsSquare(m) && DetRef(m) != 0.0 && |v| == Rows(m)
    ensures Inverse(m).Success? && Multiply(Inverse(m).v, v).Success?
    ensures Multiply(m, Multiply(Inverse(m).v, v).v).v == v
  {
    var n := Rows(m);
    if n == 1 {
      RightInverseOne(m, v);
    } else {
      var cof := Cofactors(m);
      forall i, l | 0 <= i < n && 0 <= l < n
        ensures Sums.Dot(m[i], cof[l]) == if i == l then DetRef(m) else 0.0
      {
        CofactorProducts(m, i, l);
      }
      InverseIsAdjugate(m);
      AdjugateRightInverse(m, cof, DetRef(m), v);
    }
  }

  /** `M M^-1 == I`, entry by entry and for every order: row `i` of the
      matrix against column `j` of its inverse is 1 on the diagonal and 0
      elsewhere. */
  lemma {:induction false} InverseProduct(m: Matrix, i: nat, j: nat)
    requires IsSquare(m) && DetRef(m) != 0.0 && i < Rows(m) && j < Rows(m)
    ensures Inverse(m).Success? && Rows(Inverse(m).v) == Rows(m) && Cols(Inverse(m).v) == Rows(m)
    ensures Sums.Dot(m[i], Sums.Column(Inverse(m).v, j)) == if i == j then 1.0 else 0.0
  {
    var inv := Inverse(m).v;
    if Rows(m) == 1 {
      var a := m[0][0];
      assert inv == [[1.0 / a]];
      assert Sums.Column(inv, 0) == [1.0 / a];
      DotSingle(m[0], [1.0 / a]);
      Reciprocal(a, a, true);
    } else {
      var cof := Cofactors(m);
      InverseIsAdjugate(m);
      CofactorProducts(m, i, j);
      UnitEntry(m, cof, DetRef(m), i, j);
      Sums.DotCommute(Sums.Column(inv, j), m[i]);
    }
  }

  /** The order-1 case: `a ((1/a) v0) == v0`. */
  lemma {:induction false} RightInverseOne(m: Matrix, v: seq<real>)
    requires IsSquare(m) && Rows(m) == 1 && m[0][0] != 0.0 && |v| == 1
    ensures Inverse(m) == Success([[1.0 / m[0][0]]])
    ensures Multiply(m, Multiply([[1.0 / m[0][0]]], v).v).v == v
  {
    var a := m[0][0];
    var inv: Matrix := [[1.0 / a]];
    var w := Multiply(inv, v).v;
    assert w[0] == Sums.Dot(inv[0], v);
    DotSingle(inv[0], v);
    var u := Multiply(m, w).v;
    assert u[0] == Sums.Dot(m[0], w);
    DotSingle(m[0], w);
    assert w[0] == (1.0 / a) * v[0];
    assert u[0] == a * ((1.0 / a) * v[0]);
    Cancel(a, v[0]);
    assert u == [u[0]] && v == [v[0]];
    assert u[0] == v[0];
    assert u == v;
  }

  /** The inner product of two one-element sequences. */
  lemma {:induction false} DotSingle(u: seq<real>, v: seq<real>)
    requires |u| == |v| == 1
    ensures Sums.Dot(u, v) == u[0] * v[0]
  {
    assert u[..0] == [] && v[..0] == [];
  }

  /** Multiplying by `a` undoes multiplying by `1/a`. */
  lemma {:induction false} Cancel(a: real, x: real)
    requires a != 0.0
    ensures a * ((1.0 / a) * x) == x
  {
  }
}
