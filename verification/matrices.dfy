/** Dense `n x m` matrices of reals and their structural operations.

    The library has two matrix classes with the same constructors and the
    same `Transpose`, `ToVectors`, `Subtract` and `Multiply` code (one is
    used by the determinant and inverse, the other by the elimination
    solver).  Both are modelled by the one subset type `Matrix`: a non-empty
    sequence of rows, all of the same non-zero length.  Matrices are values,
    so the copy constructor is the identity and no two matrices share
    storage.
 */
module Matrices {
  import opened Results
  import opened Vectors
  import Sums

  predicate IsMatrix(m: seq<seq<real>>)
  {
    |m| >= 1 && |m[0]| >= 1 && forall i :: 0 <= i < |m| ==> |m[i]| == |m[0]|
  }

  type Matrix = m: seq<seq<real>> | IsMatrix(m) witness [[0.0]]

  function Rows(m: Matrix): nat { |m| }

  function Cols(m: Matrix): nat { |m[0]| }

  predicate IsSquare(m: Matrix) { Rows(m) == Cols(m) }

  /** The message of the shape check of `new Matrix(n, m)`. */
  function ShapeError(n: int, m: int): string
  {
    "Can not create " + IntText(n) + "x" + IntText(m) + " matrix. Such a matrix has no meaning"
  }

  /** The message of the value-count check of `new Matrix(n, m, values)`. */
  function CountError(expected: int, received: int): string
  {
    "Expected " + IntText(expected) + " values but received " + IntText(received)
  }

  // ---------------------------------------------------------------------
  // Construction

  /** `new Matrix(n, m)`: the all-zero `n x m` matrix; a shape with `n < 1` or
      `m < 1` is rejected.  `new Matrix(n)` is `Zero(n, n)`. */
  function Zero(n: int, m: int): (r: Result<Matrix>)
    ensures r.Success? <==> n >= 1 && m >= 1
    ensures r.Failure? ==> r.error == ShapeError(n, m)
    ensures r.Success? ==> Rows(r.v) == n && Cols(r.v) == m
    ensures r.Success? ==> forall i, j :: 0 <= i < n && 0 <= j < m ==> r.v[i][j] == 0.0
  {
    if n < 1 || m < 1 then Result<Matrix>.Failure(ShapeError(n, m))
    else Success(seq(n, _ => seq(m, _ => 0.0)))
  }

  /** The row-major enumeration of a matrix's elements. */
  function Flatten(m: seq<seq<real>>): seq<real>
  {
    if |m| == 0 then [] else Flatten(m[..|m| - 1]) + m[|m| - 1]
  }

  /** Cuts `n * m` values into `n` consecutive rows of `m`. */
  function Chunk(values: seq<real>, n: nat, m: nat): (rows: seq<seq<real>>)
    requires |values| == n * m
    ensures |rows| == n && forall i :: 0 <= i < n ==> |rows[i]| == m
  {
    if n == 0 then []
    else
      assert (n - 1) * m == n * m - m;
      Chunk(values[..(n - 1) * m], n - 1, m) + [values[(n - 1) * m..]]
  }

  /** Chunking then enumerating row-major gives back the values. */
  lemma {:induction false} FlattenChunk(values: seq<real>, n: nat, m: nat)
    requires |values| == n * m
    ensures Flatten(Chunk(values, n, m)) == values
  {
    if n > 0 {
      assert (n - 1) * m == n * m - m;
      var rows := Chunk(values, n, m);
      var k := (n - 1) * m;
      assert rows[..n - 1] == Chunk(values[..k], n - 1, m);
      FlattenChunk(values[..k], n - 1, m);
      assert values == values[..k] + values[k..];
    }
  }

  /** Enumerating row-major then chunking gives back the rows. */
  lemma {:induction false} ChunkFlatten(rows: seq<seq<real>>, m: nat)
    requires forall i :: 0 <= i < |rows| ==> |rows[i]| == m
    ensures |Flatten(rows)| == |rows| * m
    ensures Chunk(Flatten(rows), |rows|, m) == rows
  {
    FlattenLength(rows, m);
    if |rows| > 0 {
      var n := |rows|;
      var p := rows[..n - 1];
      ChunkFlatten(p, m);
      var f := Flatten(rows);
      assert f == Flatten(p) + rows[n - 1];
      assert (n - 1) * m == |Flatten(p)|;
      assert f[..(n - 1) * m] == Flatten(p);
      assert f[(n - 1) * m..] == rows[n - 1];
      assert rows == p + [rows[n - 1]];
    }
  }

  /** `new Matrix(n, m, values)`: the shape is checked first, then exactly
      `n * m` values are required, stored row-major.  `new Matrix(n,
      values)` is `FromValues(n, n, values)`. */
  function FromValues(n: int, m: int, values: seq<real>): (r: Result<Matrix>)
    ensures r.Success? <==> n >= 1 && m >= 1 && |values| == n * m
    ensures n < 1 || m < 1 ==> r == Failure(ShapeError(n, m))
    ensures n >= 1 && m >= 1 && |values| != n * m ==> r == Failure(CountError(n * m, |values|))
    ensures r.Success? ==> Rows(r.v) == n && Cols(r.v) == m
    ensures r.Success? ==> Flatten(r.v) == values
  {
    if n < 1 || m < 1 then Result<Matrix>.Failure(ShapeError(n, m))
    else if n * m != |values| then Result<Matrix>.Failure(CountError(n * m, |values|))
    else
      FlattenChunk(values, n, m);
      Success(Chunk(values, n, m))
  }

  lemma {:induction false} FlattenLength(m: seq<seq<real>>, cols: nat)
    requires forall i :: 0 <= i < |m| ==> |m[i]| == cols
    ensures |Flatten(m)| == |m| * cols
  {
    if |m| > 0 {
      FlattenLength(m[..|m| - 1], cols);
    }
  }

  lemma {:induction false} FlattenIndex(m: seq<seq<real>>, cols: nat, i: nat, j: nat)
    requires forall k :: 0 <= k < |m| ==> |m[k]| == cols
    requires i < |m| && j < cols
    ensures |Flatten(m)| == |m| * cols
    ensures i * cols + j < |Flatten(m)| && Flatten(m)[i * cols + j] == m[i][j]
  {
    FlattenLength(m, cols);
    var p := m[..|m| - 1];
    FlattenLength(p, cols);
    if i < |m| - 1 {
      FlattenIndex(p, cols, i, j);
    } else {
      assert i * cols == |p| * cols;
    }
  }

  /** Element `(i, j)` of a matrix built from values is value `i * m + j`. */
  lemma {:induction false} FromValuesEntry(n: int, m: int, values: seq<real>, i: nat, j: nat)
    requires FromValues(n, m, values).Success? && i < n && j < m
    ensures i * m + j < |values| && FromValues(n, m, values).v[i][j] == values[i * m + j]
  {
    FlattenIndex(FromValues(n, m, values).v, m, i, j);
  }

  /** Construction from values and row-major enumeration are inverse. */
  lemma {:induction false} FromValuesRoundTrip(m: Matrix)
    ensures FromValues(Rows(m), Cols(m), Flatten(m)) == Success(m)
  {
    var n, c, f := Rows(m), Cols(m), Flatten(m);
    ChunkFlatten(m, c);
    assert n >= 1 && c >= 1 && |f| == n * c;
    assert Chunk(f, n, c) == m;
  }

  /** `new Matrix(vectors)`: stacks equal-dimension vectors as rows; an empty
      list or vectors of differing dimension are rejected. */
  function FromVectors(vs: seq<Vec>): (r: Result<Matrix>)
    ensures r.Success? <==> |vs| >= 1 && forall i :: 0 <= i < |vs| ==> |vs[i]| == |vs[0]|
    ensures r.Success? ==> Rows(r.v) == |vs| && Cols(r.v) == |vs[0]|
    ensures r.Success? ==> forall i :: 0 <= i < |vs| ==> r.v[i] == vs[i]
  {
    if |vs| == 0 then Result<Matrix>.Failure("Expect at least 1 vector")
    else if exists i :: 0 <= i < |vs| && |vs[i]| != |vs[0]| then Result<Matrix>.Failure("Not all provided vectors have the same dimension")
    else Success(vs)
  }

  /** `ToVectors`: one vector per row.  The source refills one row buffer,
      but every `Vector` clones it, so the vectors are independent. */
  function ToVectors(m: Matrix): (vs: seq<Vec>)
    ensures |vs| == Rows(m)
    ensures forall i :: 0 <= i < |vs| ==> |vs[i]| == Cols(m)
  {
    seq(|m|, i requires 0 <= i < |m| => m[i])
  }

  /** Splitting a matrix into rows and stacking them back are inverse. */
  lemma {:induction false} VectorsRoundTrip(m: Matrix, vs: seq<Vec>)
    requires |vs| >= 1 && forall i :: 0 <= i < |vs| ==> |vs[i]| == |vs[0]|
    ensures FromVectors(ToVectors(m)) == Success(m)
    ensures ToVectors(FromVectors(vs).v) == vs
  {
    assert ToVectors(m) == m;
  }

  /** `CreateIdentityMatrix(n)`: zero except for ones on the diagonal; the
      shape check of `new Matrix(n)` rejects `n < 1`. */
  function Identity(n: int): (r: Result<Matrix>)
    ensures r.Success? <==> n >= 1
    ensures r.Failure? ==> r.error == ShapeError(n, n)
    ensures r.Success? ==> Rows(r.v) == n && Cols(r.v) == n
    ensures r.Success? ==> forall i, j :: 0 <= i < n && 0 <= j < n ==> r.v[i][j] == if i == j then 1.0 else 0.0
  {
    if n < 1 then Result<Matrix>.Failure(ShapeError(n, n))
    else Success(seq(n, i requires 0 <= i < n => Unit(n, i)))
  }

  /** Row `i` of the `n x n` identity: one at `i`, zero elsewhere. */
  function Unit(n: nat, i: nat): (e: seq<real>)
    ensures |e| == n
    ensures forall j {:trigger e[j]} :: 0 <= j < n ==> e[j] == if i == j then 1.0 else 0.0
  {
    seq(n, j => if i == j then 1.0 else 0.0)
  }

  // ---------------------------------------------------------------------
  // Square arrays, as the elimination and the determinant laws use them

  /** `a` is an `n x n` array of rows. */
  predicate Square(a: seq<seq<real>>, n: nat)
  {
    |a| == n && forall i :: 0 <= i < n ==> |a[i]| == n
  }

  /** The first `k` columns are zero below the diagonal; with `k == n` the
      array is upper triangular. */
  predicate ZeroBelow(a: seq<seq<real>>, n: nat, k: nat)
    requires Square(a, n)
  {
    forall i, j :: 0 <= j < k && j < i < n ==> a[i][j] == 0.0
  }

  function Diagonal(a: seq<seq<real>>, n: nat): (d: seq<real>)
    requires Square(a, n)
    ensures |d| == n && forall i :: 0 <= i < n ==> d[i] == a[i][i]
  {
    seq(n, i requires 0 <= i < n => a[i][i])
  }

  /** `s` with elements `i` and `j` exchanged. */
  function Swap<T>(s: seq<T>, i: nat, j: nat): (r: seq<T>)
    requires i < |s| && j < |s|
    ensures |r| == |s| && r[i] == s[j] && r[j] == s[i]
    ensures forall t :: 0 <= t < |s| && t != i && t != j ==> r[t] == s[t]
  {
    s[i := s[j]][j := s[i]]
  }

  // ---------------------------------------------------------------------
  // Operations

  /** `Transpose`: the `m x n` matrix with `T[i][j] == M[j][i]`. */
  function Transpose(m: Matrix): (t: Matrix)
    ensures Rows(t) == Cols(m) && Cols(t) == Rows(m)
    ensures forall i, j :: 0 <= i < Rows(t) && 0 <= j < Cols(t) ==> t[i][j] == m[j][i]
  {
    seq(|m[0]|, i requires 0 <= i < |m[0]| => seq(|m|, j requires 0 <= j < |m| => m[j][i]))
  }

  /** Transposing twice gives back the original matrix. */
  lemma {:induction false} TransposeInvolution(m: Matrix)
    ensures Transpose(Transpose(m)) == m
  {
    var t := Transpose(Transpose(m));
    assert forall i :: 0 <= i < |m| ==> t[i] == m[i];
  }

  /** `Subtract`: element-wise `A - B` of same-shape matrices. */
  function Subtract(a: Matrix, b: Matrix): (r: Result<Matrix>)
    ensures r.Failure? <==> Rows(a) != Rows(b) || Cols(a) != Cols(b)
    ensures r.Success? ==> Rows(r.v) == Rows(a) && Cols(r.v) == Cols(a)
    ensures r.Success? ==>
      forall i, j :: 0 <= i < Rows(a) && 0 <= j < Cols(a) ==> r.v[i][j] == a[i][j] - b[i][j]
  {
    if Rows(a) != Rows(b) || Cols(a) != Cols(b) then Result<Matrix>.Failure("Matrices have different dimensions")
    else Success(seq(|a|, i requires 0 <= i < |a| =>
                   seq(|a[0]|, j requires 0 <= j < |a[0]| => a[i][j] - b[i][j])))
  }

  /** `Multiply(M, v)`: the matrix-vector product; row `i` of the result is
      the left-to-right sum of `M[i][j] * v[j]`. */
  function Multiply(m: Matrix, v: Vec): (r: Result<Vec>)
    ensures r.Failure? <==> Cols(m) != |v|
    ensures r.Success? ==> |r.v| == Rows(m)
    ensures r.Success? ==> forall i :: 0 <= i < Rows(m) ==> r.v[i] == Sums.Dot(m[i], v)
  {
    if Cols(m) != |v| then Result<Vec>.Failure("Matrices columns count different then vector dimension")
    else Success(seq(|m|, i requires 0 <= i < |m| => Sums.Dot(m[i], v)))
  }

  /** The product distributes over the difference of matrices:
      `(A - B) v == A v - B v`. */
  lemma {:induction false} MultiplySubtract(a: Matrix, b: Matrix, v: Vec)
    requires Rows(a) == Rows(b) && Cols(a) == Cols(b) == |v|
    ensures Multiply(Subtract(a, b).v, v).v == Vectors.Subtract(Multiply(a, v).v, Multiply(b, v).v).v
  {
    var d := Subtract(a, b).v;
    forall i | 0 <= i < Rows(a)
      ensures Sums.Dot(d[i], v) == Sums.Dot(a[i], v) - Sums.Dot(b[i], v)
    {
      assert d[i] == Sums.AddScaled(a[i], -1.0, b[i]);
      Sums.DotAddScaled(a[i], -1.0, b[i], v);
    }
  }

  /** The identity matrix leaves every vector unchanged. */
  lemma {:induction false} MultiplyIdentity(v: Vec)
    ensures Multiply(Identity(|v|).v, v) == Success(v)
  {
    var id := Identity(|v|).v;
    forall i | 0 <= i < |v|
      ensures Sums.Dot(id[i], v) == v[i]
    {
      UnitDot(|v|, v, i);
    }
    assert Multiply(id, v).v == v;
  }

  /** The inner product with the `i`-th unit row picks coordinate `i`. */
  lemma {:induction false} UnitDot(n: nat, v: seq<real>, i: nat)
    requires n == |v| && i < n
    ensures Sums.Dot(Unit(n, i), v) == v[i]
  {
    var e := Unit(n, i);
    Sums.DotSplit(e, v, i);
    Sums.DotZero(e[..i], v[..i]);
    Sums.DotSplit(e[i..], v[i..], 1);
    Sums.DotZero(e[i..][1..], v[i..][1..]);
    assert e[i..][..1] == [1.0] && v[i..][..1] == [v[i]];
    assert Sums.Dot([1.0], [v[i]]) == Sums.Dot([], []) + 1.0 * v[i];
  }

  /** `Divide`: every element divided by a non-zero scalar; the input is not
      changed. */
  function Divide(m: Matrix, scalar: real): (r: Result<Matrix>)
    ensures r.Failure? <==> scalar == 0.0
    ensures r.Success? ==> Rows(r.v) == Rows(m) && Cols(r.v) == Cols(m)
    ensures r.Success? ==>
      forall i, j :: 0 <= i < Rows(m) && 0 <= j < Cols(m) ==> r.v[i][j] * scalar == m[i][j]
  {
    if scalar == 0.0 then Result<Matrix>.Failure("Scalar can not be 0")
    else Success(seq(|m|, i requires 0 <= i < |m| =>
                   seq(|m[0]|, j requires 0 <= j < |m[0]| => m[i][j] / scalar)))
  }

  // ---------------------------------------------------------------------
  // Minors

  /** `CutRowAndColumn(M, r, c)`: the `(n-1) x (m-1)` matrix left after
      deleting row `r` and column `c`.  Only called on matrices of at least
      two rows and columns; `CutEntry` states the library's index
      arithmetic. */
  function Cut(m: Matrix, r: nat, c: nat): (k: Matrix)
    requires Rows(m) >= 2 && Cols(m) >= 2 && r < Rows(m) && c < Cols(m)
    ensures Rows(k) == Rows(m) - 1 && Cols(k) == Cols(m) - 1
    ensures forall i {:trigger k[i]} :: 0 <= i < Rows(m) - 1 ==> k[i] == Delete(if i < r then m[i] else m[i + 1], c)
  {
    DeleteColumn(Delete(m, r), c)
  }

  /** Every row with position `c` deleted. */
  function DeleteColumn(rows: seq<seq<real>>, c: nat): (r: seq<seq<real>>)
    requires forall i :: 0 <= i < |rows| ==> c < |rows[i]|
    ensures |r| == |rows|
    ensures forall i {:trigger r[i]} :: 0 <= i < |rows| ==> r[i] == Delete(rows[i], c)
  {
    if |rows| == 0 then []
    else DeleteColumn(rows[..|rows| - 1], c) + [Delete(rows[|rows| - 1], c)]
  }

  /** Deleting one element of a sequence: the elements after `k` move one
      place up. */
  function Delete<T>(s: seq<T>, k: nat): (r: seq<T>)
    requires k < |s|
    ensures |r| == |s| - 1
    ensures forall i {:trigger r[i]} :: 0 <= i < |r| ==> r[i] == if i < k then s[i] else s[i + 1]
  {
    s[..k] + s[k + 1..]
  }

  /** Entry `(i, j)` of the cut: indices at or past `r` (resp. `c`) read
      one row further down (resp. one column further right). */
  lemma {:induction false} CutEntry(m: Matrix, r: nat, c: nat, i: nat, j: nat)
    requires Rows(m) >= 2 && Cols(m) >= 2 && r < Rows(m) && c < Cols(m)
    requires i < Rows(m) - 1 && j < Cols(m) - 1
    ensures Cut(m, r, c)[i][j] ==
      if i < r && j < c then m[i][j]
      else if i >= r && j < c then m[i + 1][j]
      else if i < r && j >= c then m[i][j + 1]
      else m[i + 1][j + 1]
  {
    assert Cut(m, r, c)[i] == Delete(if i < r then m[i] else m[i + 1], c);
  }
}
