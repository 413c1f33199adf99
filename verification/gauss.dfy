/** Solving a square linear system by Gaussian elimination.

    `SolveMatrixSystem` works on private copies of `A` and `b` (values
    here, so the caller's matrix and vector are never changed).  For each
    column `k` it replaces a zero pivot by the row found by `PivotRow` and
    counts one swap, eliminates column `k` below the diagonal, then solves
    the triangular system from the bottom up and multiplies the diagonal
    into the determinant, negated for an odd swap count.

    In IEEE arithmetic a pivot that is still zero after the swap makes the
    multipliers, and so the whole solution, infinite or NaN; the model
    reports that case as a failure.

    `PivotRow` searches the diagonal rather than column `k`, so an
    invertible matrix can still end in a zero pivot.  `SolvePivoted` is the
    same solver with the column search, and fails exactly when the system
    has no unique solution.
 */
module Gauss {
  import opened Results
  import opened Matrices
  import Vectors
  import Sums
  import Determinants
  import DeterminantLaws

  const ShapeError := "Vector dimension should be equal to matrix rows count"
  const PivotError := "Division by a zero pivot: the solution is not finite"

  /** What one run of the solver produces: the solution, the determinant,
      and the triangular system and swap count it was computed from. */
  datatype Elimination = Elimination(x: seq<real>, det: real, upper: seq<seq<real>>, rhs: seq<real>, swaps: nat)

  /** `x` solves the system `a x = c`. */
  predicate Solves(a: seq<seq<real>>, c: seq<real>, x: seq<real>)
  {
    |a| == |c| && |x| == |c| && forall i :: 0 <= i < |a| ==> |a[i]| == |x| && Sums.Dot(a[i], x) == c[i]
  }


  // ---------------------------------------------------------------------
  // Row operations keep the solution set

  /** Exchanging two equations does not change the solutions. */
  lemma {:induction false} SwapPreserves(a: seq<seq<real>>, c: seq<real>, k: nat, p: nat)
    requires |a| == |c| && k < |a| && p < |a|
    ensures forall x :: Solves(a, c, x) <==> Solves(Swap(a, k, p), Swap(c, k, p), x)
  {
    forall x
      ensures Solves(a, c, x) <==> Solves(Swap(a, k, p), Swap(c, k, p), x)
    {
      var a', c' := Swap(a, k, p), Swap(c, k, p);
      if Solves(a', c', x) {
        forall i | 0 <= i < |a|
          ensures |a[i]| == |x| && Sums.Dot(a[i], x) == c[i]
        {
          if i == k {
            assert a[i] == a'[p] && c[i] == c'[p];
          } else if i == p {
            assert a[i] == a'[k] && c[i] == c'[k];
          } else {
            assert a[i] == a'[i] && c[i] == c'[i];
          }
        }
      }
    }
  }

  /** Adding `m` times equation `k` to equation `i != k` does not change
      the solutions. */
  lemma {:induction false} RowOpPreserves(a: seq<seq<real>>, c: seq<real>, n: nat, i: nat, k: nat, m: real)
    requires Square(a, n) && |c| == n && i < n && k < n && i != k
    ensures forall x :: Solves(a, c, x) <==> Solves(a[i := Sums.AddScaled(a[i], m, a[k])], c[i := c[i] + m * c[k]], x)
  {
    var row := Sums.AddScaled(a[i], m, a[k]);
    var a', c' := a[i := row], c[i := c[i] + m * c[k]];
    forall x | |x| == n
      ensures Solves(a, c, x) <==> Solves(a', c', x)
    {
      Sums.DotAddScaled(a[i], m, a[k], x);
      if Solves(a, c, x) {
        assert forall t :: 0 <= t < n ==> Sums.Dot(a'[t], x) == c'[t];
      }
      if Solves(a', c', x) {
        assert Sums.Dot(a[k], x) == c[k] by {
          assert a'[k] == a[k] && c'[k] == c[k];
        }
        assert m * Sums.Dot(a[k], x) == m * c[k];
        assert Sums.Dot(row, x) == c[i] + m * c[k] by {
          assert a'[i] == row && c'[i] == c[i] + m * c[k];
        }
        assert Sums.Dot(a[i], x) == c[i];
        forall t | 0 <= t < n && t != i
          ensures Sums.Dot(a[t], x) == c[t]
        {
          assert a'[t] == a[t] && c'[t] == c[t];
        }
      }
    }
  }

  /** `x` is the one and only solution of `a x = c`. */
  ghost predicate UniqueSolution(a: seq<seq<real>>, c: seq<real>, x: seq<real>)
  {
    Solves(a, c, x) && forall y :: Solves(a, c, y) ==> y == x
  }

  /** Adding a vector that every equation maps to zero turns a solution
      into another solution. */
  lemma {:induction false} ShiftByNull(a: seq<seq<real>>, c: seq<real>, x: seq<real>, z: seq<real>)
    requires Solves(a, c, x) && |z| == |x|
    requires forall i :: 0 <= i < |a| ==> Sums.Dot(a[i], z) == 0.0
    ensures Solves(a, c, Sums.Plus(x, z))
  {
    forall i | 0 <= i < |a|
      ensures Sums.Dot(a[i], Sums.Plus(x, z)) == c[i]
    {
      Sums.DotCommute(a[i], Sums.Plus(x, z));
      Sums.DotPlus(x, z, a[i]);
      Sums.DotCommute(x, a[i]);
      Sums.DotCommute(z, a[i]);
    }
  }

  /** Two solutions of an upper-triangular system with a non-zero diagonal
      agree from row `k` down, given that they agree below row `k`. */
  lemma {:induction false} UpperRowAgrees(a: seq<seq<real>>, n: nat, c: seq<real>, x: seq<real>, y: seq<real>, k: nat)
    requires Square(a, n) && ZeroBelow(a, n, n) && k < n && a[k][k] != 0.0
    requires Solves(a, c, x) && Solves(a, c, y)
    requires x[k + 1..] == y[k + 1..]
    ensures x[k] == y[k]
  {
    forall j | 0 <= j < k
      ensures a[k][j] == 0.0
    {
      assert j < k < n;
    }
    Sums.DotMiddle(a[k], x, k, n);
    Sums.DotMiddle(a[k], y, k, n);
    var u, xs, ys := a[k][k..n], x[k..n], y[k..n];
    assert ys == xs[0 := y[k]];
    Sums.DotUpdate(u, xs, 0, y[k]);
    assert Sums.Dot(u, xs) == c[k] == Sums.Dot(u, ys);
    assert u[0] * (y[k] - x[k]) == 0.0;
  }

  /** Solutions of such a system agree on every position from `k` on. */
  lemma {:induction false} UpperAgree(a: seq<seq<real>>, n: nat, c: seq<real>, x: seq<real>, y: seq<real>, k: nat)
    requires Square(a, n) && ZeroBelow(a, n, n) && k <= n
    requires forall i :: 0 <= i < n ==> a[i][i] != 0.0
    requires Solves(a, c, x) && Solves(a, c, y)
    ensures x[k..] == y[k..]
    decreases n - k
  {
    if k < n {
      UpperAgree(a, n, c, x, y, k + 1);
      UpperRowAgrees(a, n, c, x, y, k);
      assert x[k..] == [x[k]] + x[k + 1..];
      assert y[k..] == [y[k]] + y[k + 1..];
    }
  }

  /** An upper-triangular system with a non-zero diagonal has at most one
      solution. */
  lemma {:induction false} UpperUnique(a: seq<seq<real>>, n: nat, c: seq<real>, x: seq<real>)
    requires Square(a, n) && ZeroBelow(a, n, n)
    requires forall i :: 0 <= i < n ==> a[i][i] != 0.0
    requires Solves(a, c, x)
    ensures UniqueSolution(a, c, x)
  {
    forall y | Solves(a, c, y)
      ensures y == x
    {
      UpperAgree(a, n, c, x, y, 0);
    }
  }

  /** The row the inner loop leaves in place of row `i`: column `k`
      cleared, the columns before `k` untouched, the rest updated. */
  function EliminatedRow(row: seq<real>, pivot: seq<real>, k: nat, m: real): (r: seq<real>)
    requires |row| == |pivot| && k < |row|
    ensures |r| == |row| && r[k] == 0.0
  {
    seq(|row|, j requires 0 <= j < |row| => if j < k then row[j] else if j == k then 0.0 else row[j] + m * pivot[j])
  }

  /** When the pivot row is zero before column `k` and `m` is the multiplier
      that clears column `k`, the loop's row is the full row operation. */
  lemma {:induction false} EliminatedRowIsRowOp(row: seq<real>, pivot: seq<real>, k: nat, m: real)
    requires |row| == |pivot| && k < |row|
    requires forall j :: 0 <= j < k ==> pivot[j] == 0.0
    requires row[k] + m * pivot[k] == 0.0
    ensures EliminatedRow(row, pivot, k, m) == Sums.AddScaled(row, m, pivot)
  {
    var r, s := EliminatedRow(row, pivot, k, m), Sums.AddScaled(row, m, pivot);
    assert forall j :: 0 <= j < |row| ==> r[j] == s[j];
  }

  // ---------------------------------------------------------------------
  // The steps of the solver

  /** `SwapLines`' search: the row `i >= k`, `i != k`, whose diagonal entry
      `a[i][i]` is non-zero and largest in magnitude (the first such row on
      ties), provided it beats `|a[k][k]|`; otherwise `k` itself.  Only
      diagonal entries are inspected. */
  method PivotRow(a: seq<seq<real>>, n: nat, k: nat) returns (p: nat)
    requires Square(a, n) && k < n
    ensures k <= p < n
    ensures p == k <==> forall i :: k < i < n ==> a[i][i] == 0.0 || Vectors.Abs(a[i][i]) <= Vectors.Abs(a[k][k])
    ensures p != k ==> a[p][p] != 0.0 && Vectors.Abs(a[p][p]) > Vectors.Abs(a[k][k])
    ensures p != k ==> forall i :: k < i < n && a[i][i] != 0.0 ==> Vectors.Abs(a[i][i]) <= Vectors.Abs(a[p][p])
    ensures p != k ==> forall i :: k < i < p && a[i][i] != 0.0 ==> Vectors.Abs(a[i][i]) < Vectors.Abs(a[p][p])
  {
    p := k;
    var best := a[k][k];
    var i := k;
    while i < n
      invariant k <= i <= n && k <= p < n && p <= i
      invariant best == a[p][p]
      invariant forall t :: k < t < i && a[t][t] != 0.0 ==> Vectors.Abs(a[t][t]) <= Vectors.Abs(best)
      invariant p == k <==> forall t :: k < t < i ==> a[t][t] == 0.0 || Vectors.Abs(a[t][t]) <= Vectors.Abs(a[k][k])
      invariant p != k ==> a[p][p] != 0.0 && Vectors.Abs(a[p][p]) > Vectors.Abs(a[k][k])
      invariant p != k ==> forall t :: k < t < p && a[t][t] != 0.0 ==> Vectors.Abs(a[t][t]) < Vectors.Abs(a[p][p])
    {
      if a[i][i] != 0.0 && i != k && Vectors.Abs(a[i][i]) > Vectors.Abs(best) {
        best := a[i][i];
        p := i;
      }
      i := i + 1;
    }
  }

  /** The search `SwapLines` evidently means: partial pivoting, the row
      `i >= k` whose entry in column `k` is largest in magnitude (the first
      such row on ties).  Whenever column `k` has a non-zero entry on or
      below the diagonal, the chosen pivot is non-zero. */
  method ColumnPivotRow(a: seq<seq<real>>, n: nat, k: nat) returns (p: nat)
    requires Square(a, n) && k < n
    ensures k <= p < n
    ensures forall i :: k <= i < n ==> Vectors.Abs(a[i][k]) <= Vectors.Abs(a[p][k])
    ensures forall i :: k <= i < p ==> Vectors.Abs(a[i][k]) < Vectors.Abs(a[p][k])
    ensures (exists i :: k <= i < n && a[i][k] != 0.0) <==> a[p][k] != 0.0
  {
    p := k;
    var i := k + 1;
    while i < n
      invariant k < i <= n && k <= p < i
      invariant forall t :: k <= t < i ==> Vectors.Abs(a[t][k]) <= Vectors.Abs(a[p][k])
      invariant forall t :: k <= t < p ==> Vectors.Abs(a[t][k]) < Vectors.Abs(a[p][k])
    {
      if Vectors.Abs(a[i][k]) > Vectors.Abs(a[p][k]) {
        p := i;
      }
      i := i + 1;
    }
  }

  /** The inner loop of one elimination step: every row below `k` gets
      `m = -a[i][k] / a[k][k]` times row `k` added, and `a[i][k]` is set to
      zero. */
  method EliminateColumn(a0: seq<seq<real>>, c0: seq<real>, n: nat, k: nat) returns (a: seq<seq<real>>, c: seq<real>)
    requires Square(a0, n) && |c0| == n && k < n
    requires ZeroBelow(a0, n, k) && a0[k][k] != 0.0
    ensures Square(a, n) && |c| == n
    ensures ZeroBelow(a, n, k + 1)
    ensures a[..k + 1] == a0[..k + 1] && c[..k + 1] == c0[..k + 1]
    ensures forall x :: Solves(a0, c0, x) <==> Solves(a, c, x)
    ensures Determinants.DetRef(a) == Determinants.DetRef(a0)
    ensures forall s :: 1 <= s <= n ==> Determinants.DetRef(Leading(a, s)) == Determinants.DetRef(Leading(a0, s))
  {
    a, c := a0, c0;
    var i := k + 1;
    while i < n
      invariant k + 1 <= i <= n
      invariant Square(a, n) && |c| == n
      invariant ZeroBelow(a, n, k)
      invariant forall t :: k < t < i ==> a[t][k] == 0.0
      invariant a[..k + 1] == a0[..k + 1] && c[..k + 1] == c0[..k + 1]
      invariant forall x :: Solves(a0, c0, x) <==> Solves(a, c, x)
      invariant Determinants.DetRef(a) == Determinants.DetRef(a0)
      invariant forall s :: 1 <= s <= n ==> Determinants.DetRef(Leading(a, s)) == Determinants.DetRef(Leading(a0, s))
    {
      assert a[k] == a0[..k + 1][k];
      var a', c' := EliminateRow(a, c, n, k, i);
      assert a'[..k + 1] == a[..k + 1] && c'[..k + 1] == c[..k + 1];
      a, c := a', c';
      i := i + 1;
    }
  }

  /** One pass of the inner loop: row `i` below the pivot gets
      `m = -a[i][k] / a[k][k]` times row `k` added, which clears `a[i][k]`
      and changes no other row. */
  method EliminateRow(a: seq<seq<real>>, c: seq<real>, n: nat, k: nat, i: nat) returns (a': seq<seq<real>>, c': seq<real>)
    requires Square(a, n) && |c| == n && k < i < n
    requires ZeroBelow(a, n, k) && a[k][k] != 0.0
    ensures Square(a', n) && |c'| == n && ZeroBelow(a', n, k) && a'[i][k] == 0.0
    ensures forall t :: 0 <= t < n && t != i ==> a'[t] == a[t] && c'[t] == c[t]
    ensures forall x :: Solves(a, c, x) <==> Solves(a', c', x)
    ensures Determinants.DetRef(a') == Determinants.DetRef(a)
    ensures forall s :: 1 <= s <= n ==> Determinants.DetRef(Leading(a', s)) == Determinants.DetRef(Leading(a, s))
  {
    var m := -a[i][k] / a[k][k];
    var row := EliminatedRow(a[i], a[k], k, m);
    EliminatedRowIsRowOp(a[i], a[k], k, m);
    RowOpPreserves(a, c, n, i, k, m);
    RowOpKeepsMinors(a, n, i, k, m);
    c' := c[i := c[i] + m * c[k]];
    a' := a[i := row];
  }

  /** The leading `s x s` block of `a`. */
  function Leading(a: seq<seq<real>>, s: nat): (l: seq<seq<real>>)
    requires s <= |a| && forall i :: 0 <= i < s ==> s <= |a[i]|
    ensures Square(l, s)
    ensures forall i {:trigger l[i]} :: 0 <= i < s ==> l[i] == a[i][..s]
  {
    seq(s, i requires 0 <= i < s => a[i][..s])
  }

  /** Every leading block of `A` has a non-zero determinant. */
  predicate LeadingMinorsNonZero(A: Matrix)
    requires IsSquare(A)
  {
    forall s :: 1 <= s <= Rows(A) ==> Determinants.DetRef(Leading(A, s)) != 0.0
  }

  /** Adding a multiple of row `k` to a later row `i` keeps the determinant
      and the determinant of every leading block. */
  lemma {:induction false} RowOpKeepsMinors(a: seq<seq<real>>, n: nat, i: nat, k: nat, m: real)
    requires Square(a, n) && k < i < n
    ensures Determinants.DetRef(a[i := Sums.AddScaled(a[i], m, a[k])]) == Determinants.DetRef(a)
    ensures forall s :: 1 <= s <= n ==>
      Determinants.DetRef(Leading(a[i := Sums.AddScaled(a[i], m, a[k])], s)) == Determinants.DetRef(Leading(a, s))
  {
    DeterminantLaws.RowOpKeepsDet(a, i, k, m);
    forall s | 1 <= s <= n
      ensures Determinants.DetRef(Leading(a[i := Sums.AddScaled(a[i], m, a[k])], s)) == Determinants.DetRef(Leading(a, s))
    {
      RowOpKeepsLeading(a, n, i, k, m, s);
    }
  }

  /** A later row's update shows in a leading block as the same row
      operation, or not at all. */
  lemma {:induction false} RowOpKeepsLeading(a: seq<seq<real>>, n: nat, i: nat, k: nat, m: real, s: nat)
    requires Square(a, n) && k < i < n && 1 <= s <= n
    ensures Determinants.DetRef(Leading(a[i := Sums.AddScaled(a[i], m, a[k])], s)) == Determinants.DetRef(Leading(a, s))
  {
    var a' := a[i := Sums.AddScaled(a[i], m, a[k])];
    var l, l' := Leading(a, s), Leading(a', s);
    if i < s {
      forall j | 0 <= j < s
        ensures Sums.AddScaled(a[i], m, a[k])[..s][j] == Sums.AddScaled(l[i], m, l[k])[j]
      {
        assert l[i][j] == a[i][j] && l[k][j] == a[k][j];
      }
      assert Sums.AddScaled(a[i], m, a[k])[..s] == Sums.AddScaled(l[i], m, l[k]);
      assert l' == l[i := Sums.AddScaled(l[i], m, l[k])];
      DeterminantLaws.RowOpKeepsDet(l, i, k, m);
    } else {
      assert l' == l;
    }
  }

  /** After `k` elimination steps the leading `(k + 1) x (k + 1)` block is
      upper triangular, so a non-zero determinant of it makes the pivot
      `a[k][k]` non-zero. */
  lemma {:induction false} PivotNonZero(a: seq<seq<real>>, n: nat, k: nat)
    requires Square(a, n) && k < n && ZeroBelow(a, n, k)
    requires Determinants.DetRef(Leading(a, k + 1)) != 0.0
    ensures a[k][k] != 0.0
  {
    var l := Leading(a, k + 1);
    DeterminantLaws.TriangularDet(l);
    var d := Diagonal(l, k + 1);
    Sums.ProductStep(d, k);
    assert d[..k + 1] == d;
  }

  /** The solver's determinant: the sign of the swaps times the diagonal of
      the triangular matrix, which is the determinant of `A`. */
  lemma {:induction false} DetFromElimination(A: Matrix, a: seq<seq<real>>, n: nat, swaps: nat, det: real)
    requires IsSquare(A) && Rows(A) == n && Square(a, n) && ZeroBelow(a, n, n)
    requires Determinants.DetRef(A) == DeterminantLaws.Signed(swaps, Determinants.DetRef(a))
    requires det == (if swaps % 2 == 1 then -1.0 else 1.0) * Sums.Product(Diagonal(a, n))
    ensures det == Determinants.DetRef(A)
  {
    DeterminantLaws.TriangularDet(a);
  }

  /** `RowSum`: the left-to-right sum of `a[k][j] * x[j]` over `j > k`. */
  method RowSum(row: seq<real>, x: seq<real>, k: nat) returns (sum: real)
    requires |row| == |x| && k < |row|
    ensures sum == Sums.Dot(row[k + 1..], x[k + 1..])
  {
    sum := 0.0;
    var j := k + 1;
    while j < |row|
      invariant k + 1 <= j <= |row|
      invariant sum == Sums.Dot(row[k + 1..j], x[k + 1..j])
    {
      Sums.DotStep(row[k + 1..], x[k + 1..], j - (k + 1));
      assert row[k + 1..][..j - k] == row[k + 1..j + 1] && row[k + 1..][..j - (k + 1)] == row[k + 1..j];
      assert x[k + 1..][..j - k] == x[k + 1..j + 1] && x[k + 1..][..j - (k + 1)] == x[k + 1..j];
      sum := sum + row[j] * x[j];
      j := j + 1;
    }
    assert row[k + 1..|row|] == row[k + 1..] && x[k + 1..|row|] == x[k + 1..];
  }

  /** Back-substitution on an upper-triangular system with a non-zero
      diagonal: `x[n-1]` first, then upwards. */
  method BackSubstitute(a: seq<seq<real>>, c: seq<real>, n: nat) returns (x: seq<real>)
    requires n >= 1 && Square(a, n) && |c| == n && ZeroBelow(a, n, n)
    requires forall i :: 0 <= i < n ==> a[i][i] != 0.0
    ensures Solves(a, c, x)
  {
    x := seq(n, _ => 0.0);
    Sums.DotZeroRight(a[n - 1], x);
    Sums.DotUpdate(a[n - 1], x, n - 1, c[n - 1] / a[n - 1][n - 1]);
    x := x[n - 1 := c[n - 1] / a[n - 1][n - 1]];
    var k := n - 1;
    while k > 0
      invariant 0 <= k <= n - 1 && |x| == n
      invariant forall j :: 0 <= j < k ==> x[j] == 0.0
      invariant forall i :: k <= i < n ==> Sums.Dot(a[i], x) == c[i]
    {
      k := k - 1;
      var s := RowSum(a[k], x, k);
      var v := (c[k] - s) / a[k][k];
      Sums.DotSplit(a[k], x, k + 1);
      Sums.DotZeroRight(a[k][..k + 1], x[..k + 1]);
      forall i | k <= i < n
        ensures Sums.Dot(a[i], x[k := v]) == c[i]
      {
        Sums.DotUpdate(a[i], x, k, v);
      }
      x := x[k := v];
    }
  }

  /** The product of the diagonal, accumulated top to bottom. */
  method DiagonalProduct(a: seq<seq<real>>, n: nat) returns (det: real)
    requires Square(a, n)
    ensures det == Sums.Product(Diagonal(a, n))
  {
    var d := Diagonal(a, n);
    det := 1.0;
    var i := 0;
    while i < n
      invariant 0 <= i <= n
      invariant det == Sums.Product(d[..i])
    {
      Sums.ProductStep(d, i);
      det := det * a[i][i];
      i := i + 1;
    }
    assert d[..n] == d;
  }

  // ---------------------------------------------------------------------
  // The solver

  /** `SolveMatrixSystem(A, b, out detA)`: rejects a non-square `A` or a
      `b` of another dimension; otherwise eliminates, back-substitutes and
      computes the determinant as described above.  When every leading
      block of `A` is non-singular no pivot is ever zero, so the run
      succeeds without a swap. */
  method SolveMatrixSystem(A: Matrix, b: Vectors.Vec) returns (r: Result<Elimination>)
    ensures (r.Failure? && r.error == ShapeError) <==> !IsSquare(A) || Rows(A) != |b|
    ensures r.Failure? ==> r.error == ShapeError || r.error == PivotError
    ensures r.Success? ==> UniqueSolution(A, b, r.v.x)
    ensures r.Success? ==> Square(r.v.upper, Rows(A)) && ZeroBelow(r.v.upper, Rows(A), Rows(A))
    ensures r.Success? ==> forall i :: 0 <= i < Rows(A) ==> r.v.upper[i][i] != 0.0
    ensures r.Success? ==> forall x :: Solves(A, b, x) <==> Solves(r.v.upper, r.v.rhs, x)
    ensures r.Success? ==>
      r.v.det == (if r.v.swaps % 2 == 1 then -1.0 else 1.0) * Sums.Product(Diagonal(r.v.upper, Rows(A)))
    ensures r.Success? ==> r.v.det != 0.0 && r.v.swaps < Rows(A)
    ensures r.Success? ==> r.v.det == Determinants.DetRef(A)
    ensures IsSquare(A) && Rows(A) == |b| && LeadingMinorsNonZero(A) ==> r.Success? && r.v.swaps == 0
    ensures IsSquare(A) && Rows(A) == |b| && (forall i :: 0 <= i < Rows(A) ==> A[i][i] == 0.0) ==> r == Failure(PivotError)
  {
    if !IsSquare(A) || Rows(A) != |b| {
      return Failure(ShapeError);
    }
    var n := Rows(A);
    var ok, a, c, swaps := ForwardEliminate(A, b);
    if !ok {
      return Failure(PivotError);
    }
    var e := BackPhase(A, b, a, c, n, swaps);
    return Success(e);
  }

  /** The back phase shared by both solvers: back substitution on the
      triangular system, then the determinant as the signed product of the
      pivots. */
  method BackPhase(A: Matrix, b: seq<real>, a: seq<seq<real>>, c: seq<real>, n: nat, swaps: nat) returns (e: Elimination)
    requires IsSquare(A) && Rows(A) == n && |b| == n && Square(a, n) && |c| == n
    requires ZeroBelow(a, n, n) && forall j :: 0 <= j < n ==> a[j][j] != 0.0
    requires forall x :: Solves(A, b, x) <==> Solves(a, c, x)
    requires Determinants.DetRef(A) == DeterminantLaws.Signed(swaps, Determinants.DetRef(a))
    ensures e.upper == a && e.rhs == c && e.swaps == swaps
    ensures UniqueSolution(A, b, e.x)
    ensures e.det == (if swaps % 2 == 1 then -1.0 else 1.0) * Sums.Product(Diagonal(a, n))
    ensures e.det != 0.0 && e.det == Determinants.DetRef(A)
  {
    var x := BackSubstitute(a, c, n);
    UpperUnique(a, n, c, x);
    var det := DiagonalProduct(a, n);
    Sums.ProductNonZero(Diagonal(a, n));
    if swaps % 2 == 1 {
      det := det * -1.0;
    }
    DetFromElimination(A, a, n, swaps, det);
    return Elimination(x, det, a, c, swaps);
  }

  /** The forward phase of `SolveMatrixSystem`: column by column, a zero
      pivot is replaced by the row `PivotRow` finds, then the column is
      eliminated below the diagonal.  `ok` is false when a pivot is still
      zero after the search (the library divides by it). */
  method ForwardEliminate(A: Matrix, b: seq<real>) returns (ok: bool, a: seq<seq<real>>, c: seq<real>, swaps: nat)
    requires IsSquare(A) && Rows(A) == |b|
    ensures Square(a, Rows(A)) && |c| == Rows(A) && swaps < Rows(A)
    ensures forall x :: Solves(A, b, x) <==> Solves(a, c, x)
    ensures ok ==> ZeroBelow(a, Rows(A), Rows(A)) && forall j :: 0 <= j < Rows(A) ==> a[j][j] != 0.0
    ensures ok ==> Determinants.DetRef(A) == DeterminantLaws.Signed(swaps, Determinants.DetRef(a))
    ensures LeadingMinorsNonZero(A) ==> ok && swaps == 0
    ensures (forall i :: 0 <= i < Rows(A) ==> A[i][i] == 0.0) ==> !ok
  {
    var n := Rows(A);
    a, c := A, b;
    swaps := 0;
    var k := 0;
    while k < n - 1
      invariant 0 <= k <= n - 1
      invariant Eliminated(A, b, a, c, n, k, swaps)
      invariant (forall i :: 0 <= i < n ==> A[i][i] == 0.0) ==> k == 0 && a == A
    {
      var stop, a', c', s' := ColumnStep(A, b, a, c, n, k, swaps);
      if stop {
        return false, a', c', s';
      }
      a, c, swaps := a', c', s';
      k := k + 1;
    }
    if swaps == 0 && LeadingMinorsNonZero(A) {
      PivotNonZero(a, n, n - 1);
    }
    ok := a[n - 1][n - 1] != 0.0;
  }

  /** What holds once a forward phase has finished `k` columns of `A`:
      those columns are zero below a non-zero diagonal, the system has the
      solutions of `A x = b`, and the determinant is that of `A` up to the
      sign of the swaps. */
  ghost predicate Reduced(A: Matrix, b: seq<real>, a: seq<seq<real>>, c: seq<real>, n: nat, k: nat, swaps: nat)
  {
    && IsSquare(A) && Rows(A) == n && Square(a, n) && |c| == n && k < n
    && ZeroBelow(a, n, k)
    && (forall j :: 0 <= j < k ==> a[j][j] != 0.0)
    && swaps <= k
    && (forall x :: Solves(A, b, x) <==> Solves(a, c, x))
    && Determinants.DetRef(A) == DeterminantLaws.Signed(swaps, Determinants.DetRef(a))
  }

  /** `Reduced`, and for `SolveMatrixSystem` also: without a swap every
      leading block keeps its determinant. */
  ghost predicate Eliminated(A: Matrix, b: seq<real>, a: seq<seq<real>>, c: seq<real>, n: nat, k: nat, swaps: nat)
  {
    && Reduced(A, b, a, c, n, k, swaps)
    && (LeadingMinorsNonZero(A) ==> swaps == 0)
    && (swaps == 0 ==>
          forall s :: 1 <= s <= n ==> Determinants.DetRef(Leading(a, s)) == Determinants.DetRef(Leading(A, s)))
  }

  /** One column of `ForwardEliminate`: the pivot search, then the
      elimination below the pivot.  `stop` is true when the pivot is still
      zero after the search. */
  method ColumnStep(A: Matrix, b: seq<real>, a: seq<seq<real>>, c: seq<real>, n: nat, k: nat, swaps: nat)
      returns (stop: bool, a': seq<seq<real>>, c': seq<real>, swaps': nat)
    requires Eliminated(A, b, a, c, n, k, swaps) && k + 1 < n
    ensures Square(a', n) && |c'| == n && swaps' <= k + 1
    ensures forall x :: Solves(A, b, x) <==> Solves(a', c', x)
    ensures LeadingMinorsNonZero(A) ==> !stop
    ensures !stop ==> Eliminated(A, b, a', c', n, k + 1, swaps')
    ensures a[k][k] == 0.0 && (forall i :: k < i < n ==> a[i][i] == 0.0) ==> stop
  {
    var a1, c1, s1 := PivotStep(A, b, a, c, n, k, swaps);
    if a1[k][k] == 0.0 {
      return true, a1, c1, s1;
    }
    var a2, c2 := EliminateColumn(a1, c1, n, k);
    forall j | 0 <= j < k
      ensures a2[j] == a[j]
    {
      assert a2[..k + 1][j] == a1[..k + 1][j];
      assert a1[..k][j] == a[..k][j];
    }
    assert a2[k] == a1[..k + 1][k];
    return false, a2, c2, s1;
  }

  /** The pivot search of one column, as the solver does it: a zero pivot
      is exchanged with the row `PivotRow` finds, and the swap is counted
      even when that row is `k` itself. */
  method PivotStep(A: Matrix, b: seq<real>, a: seq<seq<real>>, c: seq<real>, n: nat, k: nat, swaps: nat)
      returns (a': seq<seq<real>>, c': seq<real>, swaps': nat)
    requires IsSquare(A) && Rows(A) == n && Square(a, n) && |c| == n && k < n && ZeroBelow(a, n, k)
    requires forall x :: Solves(A, b, x) <==> Solves(a, c, x)
    requires Determinants.DetRef(A) == DeterminantLaws.Signed(swaps, Determinants.DetRef(a))
    requires swaps == 0 ==>
      forall s :: 1 <= s <= n ==> Determinants.DetRef(Leading(a, s)) == Determinants.DetRef(Leading(A, s))
    requires LeadingMinorsNonZero(A) ==> swaps == 0
    ensures Square(a', n) && |c'| == n && ZeroBelow(a', n, k) && a'[..k] == a[..k]
    ensures swaps' == swaps || swaps' == swaps + 1
    ensures swaps' == swaps ==> a' == a
    ensures a[k][k] != 0.0 ==> swaps' == swaps
    ensures LeadingMinorsNonZero(A) ==> swaps' == swaps && a'[k][k] != 0.0
    ensures forall x :: Solves(A, b, x) <==> Solves(a', c', x)
    ensures a'[k][k] != 0.0 ==> Determinants.DetRef(A) == DeterminantLaws.Signed(swaps', Determinants.DetRef(a'))
    ensures a[k][k] == 0.0 && (forall i :: k < i < n ==> a[i][i] == 0.0) ==> a' == a && swaps' == swaps + 1
  {
    a', c', swaps' := a, c, swaps;
    if swaps == 0 && LeadingMinorsNonZero(A) {
      PivotNonZero(a, n, k);
    }
    if a[k][k] == 0.0 {
      var p := PivotRow(a, n, k);
      SwapPreserves(a, c, k, p);
      SwapKeepsZeroBelow(a, n, k, p);
      if p != k {
        DeterminantLaws.SwapNegates(a, k, p);
      }
      a', c' := Swap(a, k, p), Swap(c, k, p);
      swaps' := swaps + 1;
      if p == k {
        assert a' == a;
      }
    }
  }

  /** When column `k` has nothing but zeros on and below the diagonal,
      `z = (y, 1, 0, ..., 0)`, with `y` from back-substitution in the
      leading `k x k` block, is mapped to zero by every equation. */
  method NullVector(a: seq<seq<real>>, n: nat, k: nat) returns (z: seq<real>)
    requires Square(a, n) && k < n && ZeroBelow(a, n, k)
    requires forall j :: 0 <= j < k ==> a[j][j] != 0.0
    requires forall i :: k <= i < n ==> a[i][k] == 0.0
    ensures |z| == n && z[k] == 1.0
    ensures forall i :: 0 <= i < n ==> Sums.Dot(a[i], z) == 0.0
  {
    var tail := seq(n - k, _ => 0.0);
    var y: seq<real> := [];
    if k > 0 {
      var block := seq(k, i requires 0 <= i < k => a[i][..k]);
      var rhs := seq(k, i requires 0 <= i < k => -a[i][k]);
      y := BackSubstitute(block, rhs, k);
      assert forall i :: 0 <= i < k ==> Sums.Dot(a[i][..k], y) == -a[i][k] by {
        assert forall i :: 0 <= i < k ==> block[i] == a[i][..k];
      }
    }
    z := y + tail[0 := 1.0];
    forall i | 0 <= i < n
      ensures Sums.Dot(a[i], z) == 0.0
    {
      if i < k {
        NullRowAbove(a[i], y, tail, k);
      } else {
        NullRowBelow(a, n, k, i, z);
      }
    }
  }

  /** A row above `k` whose leading part maps `y` to minus its entry `k`
      maps `(y, 1, 0, ..., 0)` to zero. */
  lemma {:induction false} NullRowAbove(row: seq<real>, y: seq<real>, tail: seq<real>, k: nat)
    requires |y| == k && |row| == k + |tail| && |tail| > 0
    requires forall j :: 0 <= j < |tail| ==> tail[j] == 0.0
    requires Sums.Dot(row[..k], y) == -row[k]
    ensures Sums.Dot(row, y + tail[0 := 1.0]) == 0.0
  {
    var z := y + tail[0 := 1.0];
    assert z[..k] == y && z[k..] == tail[0 := 1.0];
    Sums.DotSplit(row, z, k);
    Sums.DotUpdate(row[k..], tail, 0, 1.0);
    Sums.DotZeroRight(row[k..], tail);
  }

  /** A row at or below `k` is zero up to column `k`, so it maps any vector
      that is zero after `k` to zero. */
  lemma {:induction false} NullRowBelow(a: seq<seq<real>>, n: nat, k: nat, i: nat, z: seq<real>)
    requires Square(a, n) && k <= i < n && ZeroBelow(a, n, k) && a[i][k] == 0.0
    requires |z| == n && forall j :: k < j < n ==> z[j] == 0.0
    ensures Sums.Dot(a[i], z) == 0.0
  {
    var row := a[i];
    var head := row[..k + 1];
    forall j | 0 <= j < k + 1
      ensures head[j] == 0.0
    {
      if j < k {
        assert j < i;
      }
    }
    Sums.DotSplit(row, z, k + 1);
    Sums.DotZero(row[..k + 1], z[..k + 1]);
    Sums.DotZeroRight(row[k + 1..], z[k + 1..]);
  }

  /** A system equivalent to one with a non-zero null vector has no unique
      solution. */
  lemma {:induction false} NoUniqueSolution(A: seq<seq<real>>, b: seq<real>, a: seq<seq<real>>, c: seq<real>, z: seq<real>, k: nat)
    requires forall x :: Solves(A, b, x) <==> Solves(a, c, x)
    requires k < |z| == |a| && z[k] == 1.0
    requires forall i :: 0 <= i < |a| ==> |a[i]| == |z| && Sums.Dot(a[i], z) == 0.0
    ensures forall x :: !UniqueSolution(A, b, x)
  {
    forall x | Solves(A, b, x)
      ensures !UniqueSolution(A, b, x)
    {
      if |z| == |x| {
        ShiftByNull(a, c, x, z);
        var y := Sums.Plus(x, z);
        assert y[k] != x[k];
        assert Solves(A, b, y) && y != x;
      }
    }
  }

  /** `SolveMatrixSystem` with the pivot search `SwapLines` evidently means
      (`ColumnPivotRow`).  A pivot can now be zero only when its whole column
      on and below the diagonal is, and then the system has no unique
      solution: the solver succeeds exactly when there is one, and returns
      it. */
  method SolvePivoted(A: Matrix, b: Vectors.Vec) returns (r: Result<Elimination>)
    ensures (r.Failure? && r.error == ShapeError) <==> !IsSquare(A) || Rows(A) != |b|
    ensures r.Failure? ==> r.error == ShapeError || r.error == PivotError
    ensures r.Success? ==> UniqueSolution(A, b, r.v.x)
    ensures r.Failure? && r.error == PivotError ==> forall x :: !UniqueSolution(A, b, x)
    ensures r.Success? ==> Square(r.v.upper, Rows(A)) && ZeroBelow(r.v.upper, Rows(A), Rows(A))
    ensures r.Success? ==>
      r.v.det == (if r.v.swaps % 2 == 1 then -1.0 else 1.0) * Sums.Product(Diagonal(r.v.upper, Rows(A)))
    ensures r.Success? ==> r.v.det != 0.0 && r.v.swaps < Rows(A)
    ensures r.Success? ==> r.v.det == Determinants.DetRef(A)
  {
    if !IsSquare(A) || Rows(A) != |b| {
      return Failure(ShapeError);
    }
    var n := Rows(A);
    var ok, a, c, swaps := ForwardPivoted(A, b);
    if !ok {
      return Failure(PivotError);
    }
    var e := BackPhase(A, b, a, c, n, swaps);
    return Success(e);
  }

  /** The forward phase of `SolvePivoted`.  It stops with `ok` false at the
      first column with no non-zero entry on or below the diagonal, and
      then the system has no unique solution. */
  method ForwardPivoted(A: Matrix, b: seq<real>) returns (ok: bool, a: seq<seq<real>>, c: seq<real>, swaps: nat)
    requires IsSquare(A) && Rows(A) == |b|
    ensures Square(a, Rows(A)) && |c| == Rows(A) && swaps < Rows(A)
    ensures forall x :: Solves(A, b, x) <==> Solves(a, c, x)
    ensures ok ==> ZeroBelow(a, Rows(A), Rows(A)) && forall j :: 0 <= j < Rows(A) ==> a[j][j] != 0.0
    ensures ok ==> Determinants.DetRef(A) == DeterminantLaws.Signed(swaps, Determinants.DetRef(a))
    ensures !ok ==> forall x :: !UniqueSolution(A, b, x)
  {
    var n := Rows(A);
    a, c := A, b;
    swaps := 0;
    var k := 0;
    while k < n - 1
      invariant 0 <= k <= n - 1
      invariant Reduced(A, b, a, c, n, k, swaps)
    {
      var stop, a', c', s' := PivotedColumnStep(A, b, a, c, n, k, swaps);
      if stop {
        return false, a', c', s';
      }
      a, c, swaps := a', c', s';
      k := k + 1;
    }
    ok := a[n - 1][n - 1] != 0.0;
    if !ok {
      var z := NullVector(a, n, n - 1);
      NoUniqueSolution(A, b, a, c, z, n - 1);
    }
  }

  /** One column of `ForwardPivoted`: the pivot search, then the
      elimination below the pivot.  `stop` is true when the whole column on
      and below the diagonal is zero. */
  method PivotedColumnStep(A: Matrix, b: seq<real>, a: seq<seq<real>>, c: seq<real>, n: nat, k: nat, swaps: nat)
      returns (stop: bool, a': seq<seq<real>>, c': seq<real>, swaps': nat)
    requires Reduced(A, b, a, c, n, k, swaps) && k + 1 < n
    ensures Square(a', n) && |c'| == n && swaps' <= k + 1
    ensures forall x :: Solves(A, b, x) <==> Solves(a', c', x)
    ensures stop ==> forall x :: !UniqueSolution(A, b, x)
    ensures !stop ==> Reduced(A, b, a', c', n, k + 1, swaps')
  {
    var a1, c1, s1 := ColumnPivotStep(A, b, a, c, n, k, swaps);
    if a1[k][k] == 0.0 {
      var z := NullVector(a1, n, k);
      NoUniqueSolution(A, b, a1, c1, z, k);
      return true, a1, c1, s1;
    }
    var a2, c2 := EliminateColumn(a1, c1, n, k);
    forall j | 0 <= j < k
      ensures a2[j] == a[j]
    {
      assert a2[..k + 1][j] == a1[..k + 1][j];
      assert a1[..k][j] == a[..k][j];
    }
    assert a2[k] == a1[..k + 1][k];
    return false, a2, c2, s1;
  }

  /** The pivot search of one column with `ColumnPivotRow`: a zero pivot
      is exchanged with the row of largest magnitude in the column, when
      that entry is not zero too. */
  method ColumnPivotStep(A: Matrix, b: seq<real>, a: seq<seq<real>>, c: seq<real>, n: nat, k: nat, swaps: nat)
      returns (a': seq<seq<real>>, c': seq<real>, swaps': nat)
    requires IsSquare(A) && Rows(A) == n && Square(a, n) && |c| == n && k < n && ZeroBelow(a, n, k)
    requires forall x :: Solves(A, b, x) <==> Solves(a, c, x)
    requires Determinants.DetRef(A) == DeterminantLaws.Signed(swaps, Determinants.DetRef(a))
    ensures Square(a', n) && |c'| == n && ZeroBelow(a', n, k) && a'[..k] == a[..k]
    ensures swaps' == swaps || swaps' == swaps + 1
    ensures a[k][k] != 0.0 ==> swaps' == swaps && a' == a
    ensures a'[k][k] == 0.0 ==> forall i :: k <= i < n ==> a'[i][k] == 0.0
    ensures forall x :: Solves(A, b, x) <==> Solves(a', c', x)
    ensures Determinants.DetRef(A) == DeterminantLaws.Signed(swaps', Determinants.DetRef(a'))
  {
    a', c', swaps' := a, c, swaps;
    if a[k][k] == 0.0 {
      var p := ColumnPivotRow(a, n, k);
      if a[p][k] != 0.0 {
        SwapPreserves(a, c, k, p);
        SwapKeepsZeroBelow(a, n, k, p);
        DeterminantLaws.SwapNegates(a, k, p);
        a', c' := Swap(a, k, p), Swap(c, k, p);
        swaps' := swaps + 1;
      }
    }
  }

  /** Exchanging two rows at or below `k` keeps the first `k` columns zero
      below the diagonal. */
  lemma {:induction false} SwapKeepsZeroBelow(a: seq<seq<real>>, n: nat, k: nat, p: nat)
    requires Square(a, n) && k <= p < n && ZeroBelow(a, n, k)
    ensures Square(Swap(a, k, p), n) && ZeroBelow(Swap(a, k, p), n, k)
  {
  }

  // ---------------------------------------------------------------------
  // Properties

  /** Only diagonal entries are searched: for `[[0, 1], [1, 0]]` no
      replacement row is found for the zero pivot (`PivotRow` keeps row 0),
      so the solver divides by zero; yet every system with this matrix has
      exactly one solution, which `SolvePivoted` therefore finds. */
  lemma {:induction false} DiagonalSearchMissesPivot(c: seq<real>)
    requires |c| == 2
    ensures var a := [[0.0, 1.0], [1.0, 0.0]];
      Square(a, 2) && a[0][0] == 0.0 && a[1][0] != 0.0 &&
      (forall i :: 0 < i < 2 ==> a[i][i] == 0.0 || Vectors.Abs(a[i][i]) <= Vectors.Abs(a[0][0])) &&
      UniqueSolution(a, c, [c[1], c[0]])
  {
    var a := [[0.0, 1.0], [1.0, 0.0]];
    forall x | |x| == 2
      ensures Solves(a, c, x) <==> x == [c[1], c[0]]
    {
      Sums.DotTwo(a[0], x);
      Sums.DotTwo(a[1], x);
      if x[0] == c[1] && x[1] == c[0] {
        assert x == [c[1], c[0]];
      }
    }
  }

  /** Both solvers on `[[0, 1], [1, 0]] x = c`: the diagonal search finds
      no pivot and the library's solver fails, while the column search
      returns the unique solution `(c[1], c[0])`. */
  method DiagonalSearchRun(c: seq<real>) returns (r: Result<Elimination>, rp: Result<Elimination>)
    requires |c| == 2
    ensures r == Failure(PivotError)
    ensures rp.Success? && rp.v.x == [c[1], c[0]]
  {
    var A: Matrix := [[0.0, 1.0], [1.0, 0.0]];
    DiagonalSearchMissesPivot(c);
    r := SolveMatrixSystem(A, c);
    rp := SolvePivoted(A, c);
  }

  /** The inner product of two 3-vectors. */
  lemma {:induction false} DotThree(u: seq<real>, v: seq<real>)
    requires |u| == |v| == 3
    ensures Sums.Dot(u, v) == u[0] * v[0] + u[1] * v[1] + u[2] * v[2]
  {
    Sums.DotStep(u, v, 0);
    Sums.DotStep(u, v, 1);
    Sums.DotStep(u, v, 2);
    assert u[..0] == [] && v[..0] == [];
    assert u[..3] == u && v[..3] == v;
  }

  /** The worked example of the library's tests: the system
      `[[4, 2, -1], [5, 3, -2], [3, 2, -3]] x = (1, 2, 0)` has exactly one
      solution, `x = (-1, 3, 1)`, so that is what a successful run returns. */
  lemma {:induction false} GaussExample(x: seq<real>)
    ensures Solves([[4.0, 2.0, -1.0], [5.0, 3.0, -2.0], [3.0, 2.0, -3.0]], [1.0, 2.0, 0.0], x) <==> x == [-1.0, 3.0, 1.0]
  {
    var a := [[4.0, 2.0, -1.0], [5.0, 3.0, -2.0], [3.0, 2.0, -3.0]];
    if |x| == 3 {
      DotThree(a[0], x);
      DotThree(a[1], x);
      DotThree(a[2], x);
      if Solves(a, [1.0, 2.0, 0.0], x) {
        assert x[0] == -1.0 && x[1] == 3.0 && x[2] == 1.0;
        assert x == [x[0], x[1], x[2]];
      }
    }
  }

  /** Every leading block of the example's matrix is non-singular: the
      blocks have determinants 4, 2 and -3. */
  lemma {:induction false} ExampleMinors(A: Matrix)
    requires A == [[4.0, 2.0, -1.0], [5.0, 3.0, -2.0], [3.0, 2.0, -3.0]]
    ensures IsSquare(A) && LeadingMinorsNonZero(A)
    ensures Determinants.DetRef(A) == -3.0
  {
    ExampleBlockOne(A);
    ExampleBlockTwo(A);
    ExampleBlockThree(A);
    forall s | 1 <= s <= 3
      ensures Determinants.DetRef(Leading(A, s)) != 0.0
    {
      if s == 1 {
      } else if s == 2 {
      } else {
      }
    }
  }

  lemma {:induction false} ExampleBlockOne(A: Matrix)
    requires A == [[4.0, 2.0, -1.0], [5.0, 3.0, -2.0], [3.0, 2.0, -3.0]]
    ensures Determinants.DetRef(Leading(A, 1)) == 4.0
  {
    var l := Leading(A, 1);
    assert l == [[4.0]] by {
      assert l[0] == A[0][..1] == [4.0];
    }
  }

  lemma {:induction false} ExampleBlockTwo(A: Matrix)
    requires A == [[4.0, 2.0, -1.0], [5.0, 3.0, -2.0], [3.0, 2.0, -3.0]]
    ensures Determinants.DetRef(Leading(A, 2)) == 2.0
  {
    var l := Leading(A, 2);
    assert l == [[4.0, 2.0], [5.0, 3.0]] by {
      assert l[0] == A[0][..2] == [4.0, 2.0];
      assert l[1] == A[1][..2] == [5.0, 3.0];
    }
    Determinants.DetTwo(l);
  }

  lemma {:induction false} ExampleBlockThree(A: Matrix)
    requires A == [[4.0, 2.0, -1.0], [5.0, 3.0, -2.0], [3.0, 2.0, -3.0]]
    ensures Leading(A, 3) == A && Determinants.DetRef(A) == -3.0
  {
    var l := Leading(A, 3);
    forall i | 0 <= i < 3
      ensures l[i] == A[i]
    {
      assert A[i][..3] == A[i];
    }
    Determinants.DetThree(A);
  }

  /** The library's test run: the solver succeeds on the example without a
      swap, returns the solution `(-1, 3, 1)` and the determinant -3. */
  method GaussExampleRun() returns (r: Result<Elimination>)
    ensures r.Success? && r.v.x == [-1.0, 3.0, 1.0]
    ensures r.Success? && r.v.det == -3.0 && r.v.swaps == 0
  {
    var A: Matrix := [[4.0, 2.0, -1.0], [5.0, 3.0, -2.0], [3.0, 2.0, -3.0]];
    ExampleMinors(A);
    r := SolveMatrixSystem(A, [1.0, 2.0, 0.0]);
    GaussExample(r.v.x);
  }
}
