# AppliedMathLibrary, modelled in Dafny

A model of the numerical core of AppliedMathLibrary, a small C# library
of applied mathematics, together with proofs about it. `double` is
modelled as the exact `real`. The model covers:

- `Result<T>`, the library's success/failure value (`results.dfy`).
- Vectors (`vectors.dfy`): element-wise arithmetic, value equality within
  `1e-16`, and comparability.
- Both dense matrix classes (`matrices.dfy`): row-major construction,
  transpose, subtraction, matrix x vector, scalar division, identity and
  row/column deletion.
- Determinant and inverse (`determinant.dfy`): the recursive Laplace
  expansion along row 0, and the inverse by minors, cofactors and
  adjugate. `determinant_laws.dfy` proves the laws of that determinant for
  every order: linearity in a row, sign change under a row exchange, zero
  for two equal rows, invariance under a row operation, and the diagonal
  product for a triangular matrix. `inverse_laws.dfy` proves the expansion
  along any row, that alien cofactors vanish, and hence that the inverse
  undoes the matrix.
- Gaussian elimination (`gauss.dfy`): it solves `A x = b` and returns the
  determinant. Besides the solver as written, `Gauss.SolvePivoted` runs the
  same elimination with a column pivot search.
- Coefficient-sequence polynomials (`polynomials.dfy`), and Lagrange
  interpolation built on them (`lagrange.dfy`).
- Rectangle and trapezium integration (`integrals.dfy`), with their four
  ways of counting area above and below the axis.
- Pareto and Slater dominance, and the `BestBy...` sweep that keeps the
  undominated vectors (`dominance.dfy`).
- Statistics (`statistics.dfy`): mean, median, mode, expectation and
  variance.

`sums.dfy` holds the finite sums, products and inner products the other
modules share. `cancellation.dfy` models the cancellation token.

Modelling conventions:

- An exception, or a non-finite result the library would return, becomes
  `Failure(message)`. Where the library's message is fixed text or
  interpolated from the arguments, the model uses the same text.
- Vectors, matrices and polynomials are sequences with their size
  invariant (at least one element; rectangular rows).
- The library's copies (copy constructors, `ToArray`, `ToList`) are the
  identity on these immutable values.
- A cancellation token is described by the poll from which it reports
  cancellation. Wall-clock time is not modelled.

## Model

| member | source | states |
|---|---|---|
| Results.Succeed | src/AppliedMathLibrary/Result.cs:49-54 | A success result is not failed, its error is empty, and its value is the given one (implicit conversion and `Success<T>`) |
| Results.Fail | src/AppliedMathLibrary/Result.cs:59-64 | A failure is failed, carries the given error, and yields the default instead of a value |
| Results.TagDiscipline | src/AppliedMathLibrary/Result.cs:13-36 | For both result kinds `IsSuccess` is exactly the negation of `IsFailure`, and a success has an empty error |
| Results.OutcomeConstructors | src/AppliedMathLibrary/Result.cs:47-59 | Non-generic `Success()` is not failed and has no error; `Failure(e)` is failed and carries `e` |
| Vectors.Zero | src/AppliedMathLibrary/Objects/Vector.cs:15-21 | An `n`-dimensional zero vector exists exactly when `n >= 1`; otherwise the failure names `n` |
| Vectors.FromValues | src/AppliedMathLibrary/Objects/Vector.cs:25-28 | A vector of the given values, whose dimension is their count; no values is rejected as 0-dimensional |
| Vectors.CompareByValue | src/AppliedMathLibrary/Objects/Vector.cs:66-81 | Fails exactly on a dimension mismatch; otherwise true iff every pair of coordinates differs by at most `1e-16` |
| Vectors.Comparable | src/AppliedMathLibrary/Objects/Vector.cs:89-112 | False for different dimensions, true for value-equal vectors, otherwise true iff exactly one side has some strictly larger coordinate |
| Vectors.ComparableSymmetric | src/AppliedMathLibrary/Objects/Vector.cs:89-112 | Comparability does not depend on the order of the two vectors |
| Vectors.Subtract | src/AppliedMathLibrary/Objects/Vector.cs:133-144 | Fails exactly on a dimension mismatch; otherwise the coordinate-wise difference |
| Vectors.Sum | src/AppliedMathLibrary/Objects/Vector.cs:156-167 | Fails exactly on a dimension mismatch; otherwise the coordinate-wise sum |
| Vectors.Divide | src/AppliedMathLibrary/Objects/Vector.cs:179-189 | Fails exactly for scalar 0; otherwise each coordinate times the scalar gives back the original |
| Vectors.Multiply | src/AppliedMathLibrary/Objects/Vector.cs:205-213 | Keeps the dimension and scales every coordinate |
| Vectors.SubtractThenSum | src/AppliedMathLibrary/Objects/Vector.cs:133-167 | Subtracting and then adding the same vector gives back the original; both reject the same inputs |
| Vectors.DivideThenMultiply | src/AppliedMathLibrary/Objects/Vector.cs:179-213 | Dividing by a non-zero scalar and multiplying by it again gives back the original |
| Matrices.Zero | src/AppliedMathLibrary/Objects/Matrix.cs:18-26 | An `n x m` zero matrix exists exactly when `n, m >= 1`; otherwise the failure names the shape |
| Matrices.FromValues | src/AppliedMathLibrary/Objects/Matrix.cs:32-44 | Checks the shape first, then requires exactly `n * m` values (exact failure texts), and stores them row-major |
| Matrices.FromValuesEntry | src/AppliedMathLibrary/Matrices/Matrix.cs:36-48 | Entry `(i, j)` of a matrix built from values is value `i * m + j` |
| Matrices.FromValuesRoundTrip | src/AppliedMathLibrary/Objects/Matrix.cs:50-64 | Building a matrix from its own row-major enumeration gives back the matrix |
| Matrices.FromVectors | src/AppliedMathLibrary/Objects/Matrix.cs:91-111 | Rejects an empty list and vectors of different dimension; otherwise row `i` is vector `i` |
| Matrices.ToVectors | src/AppliedMathLibrary/Matrices/Matrix.cs:163-178 | One vector per row, each of the column count |
| Matrices.VectorsRoundTrip | src/AppliedMathLibrary/Objects/Matrix.cs:164-179 | Splitting into row vectors and stacking them back are inverse, in both orders |
| Matrices.Identity | src/AppliedMathLibrary/Objects/Matrix.cs:281-288 | Exists exactly for `n >= 1`; one on the diagonal and zero elsewhere |
| Matrices.Transpose | src/AppliedMathLibrary/Objects/Matrix.cs:143-156 | An `m x n` matrix with `T[i][j] = M[j][i]` |
| Matrices.TransposeInvolution | src/AppliedMathLibrary/Matrices/Matrix.cs:139-152 | Transposing twice gives back the matrix |
| Matrices.Subtract | src/AppliedMathLibrary/Objects/Matrix.cs:196-212 | Fails exactly on a shape mismatch; otherwise the entry-wise difference |
| Matrices.Multiply | src/AppliedMathLibrary/Objects/Matrix.cs:230-249 | Fails exactly when the column count differs from the dimension; otherwise entry `i` is the inner product of row `i` with the vector |
| Matrices.MultiplySubtract | src/AppliedMathLibrary/Matrices/Matrix.cs:195-248 | The product distributes over subtraction: `(A - B) v = A v - B v` |
| Matrices.MultiplyIdentity | src/AppliedMathLibrary/Objects/Matrix.cs:281-288 | The identity matrix maps every vector to itself |
| Matrices.Divide | src/AppliedMathLibrary/Objects/Matrix.cs:253-268 | Fails exactly for scalar 0; otherwise the same shape, each entry times the scalar giving back the original |
| Matrices.Cut | src/AppliedMathLibrary/Objects/Matrix.cs:363-379 | Removing row `r` and column `c` leaves an `(n-1) x (m-1)` matrix whose row `i` is row `i` (above `r`) or `i + 1` (from `r` on) with column `c` deleted |
| Matrices.CutEntry | src/AppliedMathLibrary/Objects/Matrix.cs:363-379 | Entry `(i, j)` of the cut is the original's entry shifted down past row `r` and right past column `c`, in each of the four cases of the library's index arithmetic |
| Determinants.Determinant | src/AppliedMathLibrary/Objects/Matrix.cs:297-314 | Fails exactly on a non-square matrix (exact text); otherwise the Laplace expansion along row 0 |
| Determinants.DetIsLaplace | src/AppliedMathLibrary/Objects/Matrix.cs:301-311 | The library's shortcuts for orders 1 and 2 and its skipping of zero entries give the plain cofactor expansion |
| Determinants.ExpansionIsLaplace | src/AppliedMathLibrary/Objects/Matrix.cs:306-311 | The loop that skips zero entries of row 0 sums to the full expansion |
| Determinants.RowTermZero | src/AppliedMathLibrary/Objects/Matrix.cs:308 | A zero entry of row 0 contributes nothing, so skipping it is harmless |
| Determinants.DetTwo | src/AppliedMathLibrary/Objects/Matrix.cs:302 | A 2x2 determinant is `ad - bc` |
| Determinants.DetThree | src/AppliedMathLibrary/Objects/Matrix.cs:304-313 | A 3x3 determinant is the expansion along row 0 into three 2x2 minors |
| Determinants.TwoByTwo | src/AppliedMathLibrary/Objects/Matrix.cs:302 | Swapping the rows of a 2x2 matrix negates its determinant; transposing keeps it |
| Determinants.DetIdentity | src/AppliedMathLibrary/Objects/Matrix.cs:281-314 | The identity of every order has determinant 1 |
| Determinants.DeterminantExamples | src/AppliedMathLibrary.Tests/MatricesTests/MatrixTests.cs:11-12 | The tested determinants 1 and 14 |
| Determinants.DeterminantExampleNotSquare | src/AppliedMathLibrary.Tests/MatricesTests/MatrixTests.cs:33-41 | The 2x3 matrix fails with the not-square error |
| Determinants.DeterminantExampleThree | src/AppliedMathLibrary.Tests/MatricesTests/MatrixTests.cs:13 | The tested 3x3 determinant -306 |
| Determinants.DeterminantExampleZeroColumn | src/AppliedMathLibrary.Tests/MatricesTests/MatrixTests.cs:14 | A matrix with a zero first column has determinant 0 |
| Determinants.ZeroColumnThree | src/AppliedMathLibrary/Objects/Matrix.cs:304-313 | Every 3x3 matrix whose first column is zero has determinant 0 |
| Determinants.Minors | src/AppliedMathLibrary/Objects/Matrix.cs:348-361 | Entry `(i, j)` is the determinant of the matrix without row `i` and column `j` |
| Determinants.Cofactors | src/AppliedMathLibrary/Objects/Matrix.cs:335-342 | Entry `(i, j)` is the minor with sign `(-1)^(i+j)` |
| Determinants.AdjugateOver | src/AppliedMathLibrary/Objects/Matrix.cs:345 | The transposed cofactor matrix divided by the determinant: entry `(i, j)` times the determinant is cofactor `(j, i)` |
| Determinants.Inverse | src/AppliedMathLibrary/Objects/Matrix.cs:322-346 | Fails exactly for a non-square or singular matrix, each with the library's text; otherwise square of the same order |
| Determinants.InverseIsAdjugate | src/AppliedMathLibrary/Objects/Matrix.cs:331-345 | From order 2 on, the inverse is the adjugate over the determinant |
| Determinants.InverseOneByOne | src/AppliedMathLibrary/Objects/Matrix.cs:330 | A 1x1 matrix `[[a]]` has inverse `[[1/a]]`, and `(1/a) a = 1` |
| Determinants.InverseTwoByTwo | src/AppliedMathLibrary/Objects/Matrix.cs:322-346 | For a non-singular 2x2 matrix, multiplying by the matrix and by its inverse undo each other, in both orders |
| DeterminantLaws.DetIsDot | src/AppliedMathLibrary/Objects/Matrix.cs:304-313 | The expansion along row 0 is the inner product of row 0 with the signed minors of its entries |
| DeterminantLaws.LinearZero | src/AppliedMathLibrary/Objects/Matrix.cs:304-313 | The determinant is linear in row 0: `det(u + c w) == det(u) + c det(w)` with the other rows fixed |
| DeterminantLaws.SwapTop | src/AppliedMathLibrary/Objects/Matrix.cs:304-313 | Exchanging rows 0 and 1 negates the determinant, for every order |
| DeterminantLaws.SwapNegates | src/AppliedMathLibrary/Methods/GaussMethod.cs:32-36 | Exchanging any two rows negates the determinant, which is why each swap of the solver flips the sign |
| DeterminantLaws.EqualRowsZero | src/AppliedMathLibrary/Objects/Matrix.cs:297-314 | A matrix with two equal rows has determinant 0 |
| DeterminantLaws.RowOpKeepsDet | src/AppliedMathLibrary/Methods/GaussMethod.cs:38-48 | Adding a multiple of one row to another keeps the determinant |
| DeterminantLaws.FirstColumnZero | src/AppliedMathLibrary/Objects/Matrix.cs:297-314 | A matrix whose first column is zero has determinant 0 |
| DeterminantLaws.TriangularDet | src/AppliedMathLibrary/Methods/GaussMethod.cs:57-60 | An upper triangular matrix has the product of its diagonal as determinant |
| InverseLaws.MoveTopSign | src/AppliedMathLibrary/Objects/Matrix.cs:304-313 | Moving row `l` to the top, the other rows in order, multiplies the determinant by `(-1)^l` |
| InverseLaws.RowExpansion | src/AppliedMathLibrary/Objects/Matrix.cs:335-345 | The determinant is the inner product of any row `l` with cofactor row `l` |
| InverseLaws.AlienCofactors | src/AppliedMathLibrary/Objects/Matrix.cs:335-345 | A row against the cofactors of another row gives 0 |
| InverseLaws.CofactorProducts | src/AppliedMathLibrary/Objects/Matrix.cs:335-345 | `M cof^T == det(M) I`: row `i` against cofactor row `l` is `det(M)` when `i == l` and 0 otherwise |
| InverseLaws.AdjugateRightInverse | src/AppliedMathLibrary/Objects/Matrix.cs:345 | Any `cof` with `M cof^T == det I` makes `cof^T / det` undo `M`: `M ((cof^T / det) v) == v` |
| InverseLaws.RightInverse | src/AppliedMathLibrary/Objects/Matrix.cs:322-346 | For a non-singular matrix of every order the inverse succeeds and `M (M^-1 v) == v` for every vector `v` |
| InverseLaws.InverseProduct | src/AppliedMathLibrary/Objects/Matrix.cs:322-346 | `M M^-1 == I` for every order: row `i` of the matrix against column `j` of its inverse is 1 when `i == j` and 0 otherwise |
| Gauss.SolveMatrixSystem | src/AppliedMathLibrary/Methods/GaussMethod.cs:19-65 | Rejects a non-square `A` or a `b` of another dimension. On success `x` is the one and only solution of `A x = b`, the final matrix is upper triangular with a non-zero diagonal, the triangular system has the same solutions, and the determinant is the diagonal product negated for an odd swap count, which equals the determinant of `A`. When every leading block of `A` is non-singular the run succeeds without a swap. When every diagonal entry of `A` is zero the run ends in the pivot failure, whatever the entries off the diagonal |
| Matrices.Swap | src/AppliedMathLibrary/Methods/GaussMethod.cs:89-97 | Exchanges two positions and leaves all others |
| Gauss.SwapPreserves | src/AppliedMathLibrary/Methods/GaussMethod.cs:77-98 | Swapping two equations of the system, in `A` and `b` alike, keeps its solutions |
| Gauss.RowOpPreserves | src/AppliedMathLibrary/Methods/GaussMethod.cs:38-48 | Adding a multiple of one equation to another keeps the solutions |
| Gauss.EliminatedRowIsRowOp | src/AppliedMathLibrary/Methods/GaussMethod.cs:43-47 | Updating only the columns after `k` and writing 0 at `k` is the full row operation, given the pivot row's zero prefix |
| Gauss.EliminateColumn | src/AppliedMathLibrary/Methods/GaussMethod.cs:38-48 | One elimination step clears column `k` below the diagonal, leaves rows up to `k` alone and keeps the solutions |
| Gauss.PivotRow | src/AppliedMathLibrary/Methods/GaussMethod.cs:77-88 | The search looks at diagonal entries only: it keeps `k` unless a later row has a non-zero diagonal entry of larger magnitude, and then picks the first largest |
| Gauss.ColumnPivotRow | src/AppliedMathLibrary/Methods/GaussMethod.cs:81-88 | Searching column `k` instead finds the first row of largest magnitude, which is non-zero whenever any entry at or below the diagonal is |
| Gauss.RowSum | src/AppliedMathLibrary/Methods/GaussMethod.cs:67-75 | The sum over the columns after `k` of `A[k][j] x[j]` |
| Gauss.BackSubstitute | src/AppliedMathLibrary/Methods/GaussMethod.cs:51-55 | For an upper-triangular system with a non-zero diagonal, the computed `x` solves it |
| Gauss.DiagonalProduct | src/AppliedMathLibrary/Methods/GaussMethod.cs:57-60 | The product of the diagonal entries |
| Gauss.DiagonalSearchRun | src/AppliedMathLibrary/Methods/GaussMethod.cs:19-88 | On `[[0, 1], [1, 0]] x = c` the library's solver ends in the pivot failure, while the column-pivoting solver succeeds with the unique solution `(c[1], c[0])` |
| Gauss.DiagonalSearchMissesPivot | src/AppliedMathLibrary/Methods/GaussMethod.cs:83 | For `[[0, 1], [1, 0]]` the diagonal search finds no replacement for the zero pivot, though column 0 has a non-zero entry below it; yet every right-hand side `c` gives the unique solution `(c[1], c[0])` |
| Gauss.SolvePivoted | src/AppliedMathLibrary/Methods/GaussMethod.cs:19-98 | The solver with the column pivot search. It rejects the same shapes, succeeds exactly when `A x = b` has a unique solution, and returns that solution and the signed diagonal product, which is the determinant of `A` |
| Gauss.UpperUnique | src/AppliedMathLibrary/Methods/GaussMethod.cs:51-55 | An upper-triangular system with a non-zero diagonal has exactly the one solution back-substitution finds |
| Gauss.ShiftByNull | src/AppliedMathLibrary/Methods/GaussMethod.cs:32-36 | Adding a vector that every equation maps to zero turns a solution into another one |
| Gauss.NullVector | src/AppliedMathLibrary/Methods/GaussMethod.cs:30-36 | When a column is zero on and below the diagonal after elimination, there is a vector with a 1 in that column that every equation maps to zero |
| Gauss.NoUniqueSolution | src/AppliedMathLibrary/Methods/GaussMethod.cs:30-36 | A system equivalent to one with such a null vector has no unique solution |
| Gauss.GaussExample | src/AppliedMathLibrary.Tests/Methods/GaussMethodTests.cs:12-26 | The tested system has exactly one solution, `(-1, 3, 1)` |
| Gauss.ForwardEliminate | src/AppliedMathLibrary/Methods/GaussMethod.cs:30-49 | The forward phase keeps the solutions and tracks `det(A)` as the signed determinant of the current matrix; on success the matrix is upper triangular with a non-zero diagonal, and it always succeeds without a swap when every leading block is non-singular. It always fails when every diagonal entry of `A` is zero, because the diagonal search then finds no replacement for the first pivot |
| Gauss.PivotStep | src/AppliedMathLibrary/Methods/GaussMethod.cs:32-36 | A zero pivot is exchanged with the row the diagonal search finds and the swap is counted; solutions are kept and, when the new pivot is non-zero, so is the signed determinant; with non-singular leading blocks the pivot is already non-zero. When the pivot and every later diagonal entry are zero, the search keeps row `k`: the matrix is unchanged, yet the swap is counted |
| Gauss.EliminateRow | src/AppliedMathLibrary/Methods/GaussMethod.cs:40-47 | One row's update clears its entry in column `k`, changes no other row, and keeps the solutions, the determinant and every leading block's determinant |
| Gauss.RowOpKeepsMinors | src/AppliedMathLibrary/Methods/GaussMethod.cs:38-48 | Adding a multiple of an earlier row to a later one keeps the determinant of every leading block |
| Gauss.PivotNonZero | src/AppliedMathLibrary/Methods/GaussMethod.cs:32 | After `k` steps without a swap, a non-singular leading block of order `k + 1` makes the pivot `a[k][k]` non-zero |
| Gauss.DetFromElimination | src/AppliedMathLibrary/Methods/GaussMethod.cs:57-62 | The sign of the swap count times the diagonal product of the triangular matrix is the determinant of `A` |
| Gauss.ForwardPivoted | src/AppliedMathLibrary/Methods/GaussMethod.cs:30-49 | The forward phase with column pivoting: on success as `ForwardEliminate`; on a failure the system has no unique solution |
| Gauss.ColumnPivotStep | src/AppliedMathLibrary/Methods/GaussMethod.cs:32-36 | A zero pivot is exchanged with the largest entry of its column when that is non-zero; solutions and the signed determinant are kept, and a pivot still zero means a zero column at and below the diagonal |
| Gauss.ColumnStep | src/AppliedMathLibrary/Methods/GaussMethod.cs:30-49 | One column of the forward phase: a pivot that stays zero stops it, which non-singular leading blocks rule out; otherwise one more column is cleared below a non-zero pivot, with the solutions and the signed determinant kept. A zero pivot with zeros on the rest of the diagonal always stops it |
| Gauss.PivotedColumnStep | src/AppliedMathLibrary/Methods/GaussMethod.cs:30-49 | One column with column pivoting: a stop means the system has no unique solution; otherwise one more column is cleared, with the solutions and the signed determinant kept |
| Gauss.BackPhase | src/AppliedMathLibrary/Methods/GaussMethod.cs:51-62 | On a triangular system with a non-zero diagonal, the back phase returns the unique solution of `A x = b` and the signed diagonal product, which is non-zero and equals the determinant of `A` |
| Gauss.ExampleMinors | src/AppliedMathLibrary.Tests/Methods/GaussMethodTests.cs:12-26 | The tested matrix has leading-block determinants 4, 2 and -3 |
| Gauss.GaussExampleRun | src/AppliedMathLibrary.Tests/Methods/GaussMethodTests.cs:12-26 | The solver succeeds on the tested system without a swap, returns `(-1, 3, 1)` and the determinant -3 |
| Polynomials.FromCoefficients | src/AppliedMathLibrary/Objects/Polynomial.cs:15-31 | Rejects an empty coefficient list with the library's text; otherwise keeps the coefficients |
| Polynomials.HighestPower | src/AppliedMathLibrary/Objects/Polynomial.cs:40-50 | The largest index with a non-zero coefficient, or 0 when all are zero |
| Polynomials.HighestPowerEval | src/AppliedMathLibrary/Objects/Polynomial.cs:40-50 | Dropping the coefficients above the highest power does not change the polynomial's value anywhere |
| Polynomials.Multiply | src/AppliedMathLibrary/Objects/Polynomial.cs:63-76 | The product has `len1 + len2 - 1` coefficients, each the convolution sum, and its value is the product of the values at every point |
| Polynomials.EvalProduct | src/AppliedMathLibrary/Objects/Polynomial.cs:63-76 | The convolution of coefficients evaluates to the product of the two polynomials' values |
| Polynomials.ProductExamples | src/AppliedMathLibrary.Tests/ObjectsTests/PolynomialTests.cs:11-27 | The two tested products |
| Polynomials.EvalScale | src/AppliedMathLibrary/Objects/Polynomial.cs:80-90 | Scaling the coefficients scales the polynomial's value at every point |
| Polynomials.SumAsWritten | src/AppliedMathLibrary/Objects/Polynomial.cs:114-127 | Copies the operand with the strictly higher highest power (the second on a tie), and fails with an index error exactly when the other operand is longer; a success is the padded sum |
| Polynomials.SumRejectsTrailingZero | src/AppliedMathLibrary/Objects/Polynomial.cs:114-127 | `[1, 2, 0] + [1, 2]` fails as written, while the padded sum is `[2, 4, 0]` |
| Polynomials.Add | src/AppliedMathLibrary/Objects/Polynomial.cs:114-127 | The padded sum: `max(len1, len2)` coefficients, missing terms read as 0 |
| Polynomials.EvalAdd | src/AppliedMathLibrary/Objects/Polynomial.cs:114-127 | The sum's value is the sum of the values at every point |
| Polynomials.Subtract | src/AppliedMathLibrary/Objects/Polynomial.cs:139-154 | `max(len1, len2)` coefficients, each the difference with missing terms read as 0 |
| Polynomials.EvalSubtract | src/AppliedMathLibrary/Objects/Polynomial.cs:139-154 | The difference's value is the difference of the values at every point |
| Polynomials.SubtractThenAdd | src/AppliedMathLibrary/Objects/Polynomial.cs:139-154 | Subtracting and then adding `q` gives back `p`, padded to the longer length |
| Polynomials.Divide | src/AppliedMathLibrary/Objects/Polynomial.cs:166-178 | Fails exactly for scalar 0 with the library's text; otherwise keeps the length and divides each coefficient |
| Polynomials.DivideThenScale | src/AppliedMathLibrary/Objects/Polynomial.cs:166-178 | Dividing by a non-zero scalar and multiplying back gives the original |
| Lagrange.CalculatePolynomialCoefficients | src/AppliedMathLibrary/NumericalMethods/LagrangianInterpolation.cs:41-74 | The count and length checks never fail. Cancellation at poll `i` fails; a `ys` shorter than `xs` fails with an index error at the first missing point. Otherwise there are `n` coefficients, and the polynomial takes value `ys[k]` at every node `xs[k]` |
| Lagrange.CreatePolinimial | src/AppliedMathLibrary/NumericalMethods/LagrangianInterpolation.cs:14-33 | Propagates the coefficient failures; on success the returned function is `x -> sum c_i x^i` and hits every node exactly |
| Lagrange.AddTerm | src/AppliedMathLibrary/NumericalMethods/LagrangianInterpolation.cs:70 | Adding term `i` with the library's `Sum` never fails here, and afterwards the sum takes value `ys[k]` at the nodes seen so far and 0 at the rest |
| Lagrange.BasisTerm | src/AppliedMathLibrary/NumericalMethods/LagrangianInterpolation.cs:57-68 | The inner loop builds `prod_{j != i} (X - x_j)` and `y_i / prod_{j != i} (x_i - x_j)` |
| Lagrange.TermAtNode | src/AppliedMathLibrary/NumericalMethods/LagrangianInterpolation.cs:57-70 | Term `i` is `y_i` at node `i` and 0 at every other node |
| Lagrange.EvalNodePoly | src/AppliedMathLibrary/NumericalMethods/LagrangianInterpolation.cs:61-65 | The product of the linear factors evaluates to the product of `z - x_j` over `j != i` |
| Lagrange.NodeProductVanishes | src/AppliedMathLibrary/NumericalMethods/LagrangianInterpolation.cs:61-65 | That product vanishes at every other node |
| Lagrange.WeightTimesNodeProduct | src/AppliedMathLibrary/NumericalMethods/LagrangianInterpolation.cs:59-67 | The divided weight times the product at the own node gives back `y_i` (distinct nodes) |
| Integrals.Increment | src/AppliedMathLibrary/NumericalMethods/Integrals.cs:79-87 | `Full` is the area above plus below the axis, `UpperOX` the part above, `LowerOX` the part below, `UpperMinusLower` the signed value; all but the last are non-negative |
| Integrals.PointValue | src/AppliedMathLibrary/NumericalMethods/Integrals.cs:33 | Adding `h` at every step, the `k`-th point is `s + k h` |
| Integrals.Rectangles | src/AppliedMathLibrary/NumericalMethods/Integrals.cs:21-39 | Fails when `a >= b` before sampling `f`. Fails on cancellation at any poll it makes. With `h <= 0` the walk never reaches `b`, so it ends only through the token, with the cancellation failure. Otherwise the sum of increments of `h f(x)` over the midpoints below `b` |
| Integrals.TrapeziumAsWritten | src/AppliedMathLibrary/NumericalMethods/Integrals.cs:52-77 | The same failures, including the cancellation failure for `h <= 0`; otherwise the sum of trapezium increments over the segments whose right end is strictly below `b` |
| Integrals.Trapezium | src/AppliedMathLibrary/NumericalMethods/Integrals.cs:66 | With the loop bound `x <= b`, the trapezium rule also adds the segment ending at `b` |
| Integrals.AddTrapezoid | src/AppliedMathLibrary/NumericalMethods/Integrals.cs:66-72 | One pass adds the current segment's increment and carries the right value over as the next left value |
| Integrals.RuleNonNegative | src/AppliedMathLibrary/NumericalMethods/Integrals.cs:27-33 | Except under `UpperMinusLower` both rules add only non-negative amounts |
| Integrals.RuleParts | src/AppliedMathLibrary/NumericalMethods/Integrals.cs:81-84 | Over any walk, `Full = UpperOX + LowerOX` and `UpperMinusLower = UpperOX - LowerOX` |
| Integrals.GridSegments | src/AppliedMathLibrary/NumericalMethods/Integrals.cs:28-71 | When `b - a` is `m` steps, the rectangle rule and the corrected trapezium rule use `m` segments, the trapezium rule as written `m - 1` |
| Integrals.RectanglesExactOnConstants | src/AppliedMathLibrary/NumericalMethods/Integrals.cs:27-34 | On a constant `c` over a whole number of steps the signed rectangle sum is `(b - a) c` |
| Integrals.TrapeziumExactOnConstants | src/AppliedMathLibrary/NumericalMethods/Integrals.cs:58-72 | The corrected trapezium rule is exact on constants too |
| Integrals.TrapeziumDropsLastSegment | src/AppliedMathLibrary/NumericalMethods/Integrals.cs:66 | On `f = 1` over `[0, 1]` with `h = 1/2` the trapezium rule as written returns 1/2; the rectangle rule and the corrected rule return 1 |
| Dominance.BetterByPareto | src/AppliedMathLibrary/Methods/ParetoMethods.cs:15-32 | Fails on a dimension mismatch; otherwise true iff some coordinate is larger and none is smaller |
| Dominance.BetterBySlater | src/AppliedMathLibrary/Methods/SlaterMethods.cs:12-27 | Fails on a dimension mismatch; otherwise true iff every coordinate is strictly larger |
| Dominance.Compare | src/AppliedMathLibrary/Methods/ParetoMethods.cs:36 | `CompareByPareto` / `CompareBySlater` are the relation for the chosen principle |
| Dominance.Asymmetric | src/AppliedMathLibrary/Methods/ParetoMethods.cs:20-31 | No vector beats itself, and of two vectors at most one beats the other |
| Dominance.Transitive | src/AppliedMathLibrary/Methods/SlaterMethods.cs:17-26 | Both relations are transitive |
| Dominance.SlaterImpliesPareto | src/AppliedMathLibrary/Methods/SlaterMethods.cs:12-27 | Slater dominance implies Pareto dominance |
| Dominance.RemoveAt | src/AppliedMathLibrary/Methods/ParetoMethods.cs:58 | `RemoveAt(j)` shifts the later elements down by one |
| Dominance.KeptAfterRemoval | src/AppliedMathLibrary/Methods/ParetoMethods.cs:57-58 | Removing a vector beaten by another still in the list keeps the sub-list, every undominated input vector with its multiplicity, and every dimension |
| Dominance.RowStep | src/AppliedMathLibrary/Methods/ParetoMethods.cs:55-58 | One inner step either changes nothing and has compared positions `i` and `j`, or removes a beaten vector |
| Dominance.Row | src/AppliedMathLibrary/Methods/ParetoMethods.cs:53-59 | The inner loop: when it removes nothing, the vector at `i` was compared with every other one |
| Dominance.Sweep | src/AppliedMathLibrary/Methods/SlaterMethods.cs:45-55 | One pass: when it removes nothing, every ordered pair of positions was compared |
| Dominance.BestBy | src/AppliedMathLibrary/Methods/ParetoMethods.cs:40-64 | Fewer than two vectors come back unchanged. Otherwise it succeeds iff all share one dimension. The result is a non-empty order-preserving sub-list that keeps every undominated vector with all its copies, and none of its vectors beats another |
| Dominance.SettledUndominated | src/AppliedMathLibrary/Methods/SlaterMethods.cs:56 | When a pass removes nothing, no vector of the list beats another |
| Dominance.DominanceExamples | src/AppliedMathLibrary.Tests/Methods/ParetoEqualityTests.cs:13-21 | Worked pairs: dominated, incomparable, and Pareto- but not Slater-dominated |
| Statistics.Mean | src/AppliedMathLibrary/Methods/Statistics.cs:11 | Fails exactly on no items (LINQ's text); otherwise the mean times the count is the sum |
| Statistics.MeanBounds | src/AppliedMathLibrary/Methods/Statistics.cs:11 | The mean lies between any lower and upper bound of the items |
| Statistics.MeanExamples | src/AppliedMathLibrary.Tests/Methods/StatisticsTests.cs:11-16 | The tested means 3 and -0.75 |
| Statistics.MedianAsWritten | src/AppliedMathLibrary/Methods/Statistics.cs:14-22 | The library's median, read in the list's given order: 0 for no items, an element of the list for an odd count, and the average of two adjacent elements for an even count. Which element or pair is pinned down by `MedianAgreesOnSorted` and `MedianOfSortedArrangement`, which equate it with the median of the values on sorted input |
| Statistics.Median | src/AppliedMathLibrary/Methods/Statistics.cs:14-22 | The corrected median, taken after sorting: 0 for no items; an odd count gives an element of the list |
| Statistics.MedianOfSortedArrangement | src/AppliedMathLibrary/Methods/Statistics.cs:14-22 | The corrected median is the library's reading of any sorted arrangement of the items, because there is exactly one such arrangement |
| Statistics.MedianPermutationInvariant | src/AppliedMathLibrary/Methods/Statistics.cs:14-22 | The corrected median does not depend on the order of the items |
| Statistics.MedianAgreesOnSorted | src/AppliedMathLibrary/Methods/Statistics.cs:14-22 | On sorted input the library's median and the corrected one agree |
| Statistics.MedianAsWrittenDependsOnOrder | src/AppliedMathLibrary/Methods/Statistics.cs:19-21 | On any arrangement of 1, 2, 3 with 1 in the middle, such as `[3, 1, 2]`, the library's median is 1 while the median of the values is 2 |
| Statistics.MedianExamples | src/AppliedMathLibrary.Tests/Methods/StatisticsTests.cs:18-23 | The tested medians of no items, of `[2]` and of `[2, 4]` |
| Statistics.MedianExamplesSorted | src/AppliedMathLibrary.Tests/Methods/StatisticsTests.cs:24-26 | The tested samples `[2, 3, 5]`, `[2, 3, 5, 6]`, `[2, 3, 5, 6, 8]` are sorted, and the library's median gives 3, 4 and 5 on them |
| Statistics.CountFrequencies | src/AppliedMathLibrary/Methods/Statistics.cs:27-33 | Every distinct item once, with its number of occurrences |
| Statistics.MaxFrequency | src/AppliedMathLibrary/Methods/Statistics.cs:35 | The largest frequency, attained by some key |
| Statistics.KeysWithFrequency | src/AppliedMathLibrary/Methods/Statistics.cs:37 | Exactly the keys with that frequency, each once |
| Statistics.Mode | src/AppliedMathLibrary/Methods/Statistics.cs:25-38 | Fails on no items; otherwise exactly the distinct values occurring most often |
| Statistics.RoundThousandths | src/AppliedMathLibrary/Methods/Statistics.cs:50 | Rounding to three decimals, ties to even, moves a value by at most 0.0005 |
| Statistics.RoundsToOne | src/AppliedMathLibrary/Methods/Statistics.cs:50 | A sum rounds to 1 iff it lies in `[0.9995, 1.0005]` |
| Statistics.MathExpectation | src/AppliedMathLibrary/Methods/Statistics.cs:43-58 | Fails on a length mismatch, then on probabilities not summing to 1 after rounding; otherwise the inner product of items and probabilities |
| Statistics.ExpectationBounds | src/AppliedMathLibrary/Methods/Statistics.cs:53-57 | With non-negative probabilities the expectation lies between `lo` and `hi` times their sum |
| Statistics.Uniform | src/AppliedMathLibrary/Methods/Statistics.cs:64 | `n` equal probabilities `1/n` summing to 1 |
| Statistics.ExpectationUniform | src/AppliedMathLibrary/Methods/Statistics.cs:43-58 | With uniform probabilities the expectation is the mean |
| Statistics.ExpectationDocumentedExample | src/AppliedMathLibrary/Methods/Statistics.cs:40 | The documented example pairs 7 values with 6 probabilities, which the method rejects |
| Statistics.Var | src/AppliedMathLibrary/Methods/Statistics.cs:61-74 | Fails on no items; otherwise non-negative and `count` times it is the sum of squared deviations from the mean |
| Statistics.VarWithProbabilities | src/AppliedMathLibrary/Methods/Statistics.cs:79-93 | The expectation's failures; otherwise the squared deviations from the expectation weighted by the probabilities, non-negative for non-negative probabilities |
| Statistics.DeviationsExpand | src/AppliedMathLibrary/Methods/Statistics.cs:86-90 | For any centre `m` and any weights, `Σ (x - m)² p = Σ x² p - 2m Σ x p + m² Σ p` |
| Statistics.VarianceShortcut | src/AppliedMathLibrary/Methods/Statistics.cs:79-93 | When the probabilities sum to exactly 1 and the expectation is `m`, the variance is `Σ x² p - m²` |
| Statistics.VarianceOfConstantWeighted | src/AppliedMathLibrary/Methods/Statistics.cs:79-93 | Constant items have variance 0 under any probabilities summing to exactly 1, uniform or not |
| Statistics.VarianceUniform | src/AppliedMathLibrary/Methods/Statistics.cs:61-93 | With uniform probabilities the two overloads agree |
| Statistics.VarianceOfConstant | src/AppliedMathLibrary/Methods/Statistics.cs:61-74 | Constant items have variance 0 |

## Left out

- Root finders (`NewtonMethod`, `ChordMethod`, secant): floating-point convergence loops whose termination rests on a timeout or on convergence alone.
- `Norm`, `DistanceBetween` and `Std`: they need square roots.
- Random sampling (`GenerateRandomArray`, `RandomSampleByRule1/2`): they depend on `System.Random`.
- `ToString`, enumerators, indexers, null-argument checks and the benchmarks: no behaviour beyond plain data access.
- The points and the plain `Vectors/Vector.cs` container: a vector is a sequence of length at least 1.
- The commented-out 3x3 inverse in `Matrices/Matrix.cs`: it is not code.
- Floating point: rounding, overflow and NaN/infinity are not modelled. The library's tests that compare rounded doubles are out of reach.
- The five-second default cancellation timer: a token is given by the poll at which it fires.
- The 4x4 determinant example of the tests (-240): the Laplace expansion of a literal 4x4 matrix is too large to unfold.
- Matrices.FromValues: `n * m` is an unbounded product, whereas the library computes it in 32-bit `int`, which can wrap for very large shapes.
- Gauss.SolveMatrixSystem: a zero pivot is a `Failure`, whereas the library divides by zero and returns non-finite values. Its swap counter is also raised when no replacement row is found; that path always ends at the zero pivot, so the counter is never seen.
- Lagrange.CalculatePolynomialCoefficients: requires distinct nodes, because a repeated node makes the library divide by zero. That the interpolation polynomial is unique is not proved.
- Lagrange.CreatePolinimial: requires distinct nodes, for the same reason.
- Integrals.Rectangles: requires `h > 0` or a token that fires at some poll. A token that never fires with `h <= 0` would loop forever. The library's own default is a five-second timer, which always fires.
- Integrals.TrapeziumAsWritten: the same requirement, for the same reason; so do `Integrals.Trapezium`, `Integrals.RectangleWalk` and `Integrals.TrapeziumWalk`.
- Statistics.Mode: does not state the order of the modes, because `Dictionary` enumeration order is unspecified.
- Statistics.Median: states the corrected median, whose even-count value is only reached through `MedianAgreesOnSorted`.
- Determinants.Inverse: states its entries through `InverseIsAdjugate`, `Cofactors` and `AdjugateOver`, not in its own contract. That the inverse undoes the matrix is proved in `InverseLaws.RightInverse`, for every order, as `M (M^-1 v) == v`. The other order, `M^-1 (M v) == v`, is proved only for orders 1 and 2 (`InverseOneByOne`, `InverseTwoByTwo`). For larger orders it needs the expansion along a column, that is, that transposing keeps the determinant, which is not proved.

## Findings

| source | as written | input that shows it | evidently intended | confidence | as-written member | corrected member |
|---|---|---|---|---|---|---|
| src/AppliedMathLibrary/NumericalMethods/Integrals.cs:66 | The trapezium loop runs while the right end `x < b`, so the segment ending at `b` is never added | `f = 1`, `[0, 1]`, `h = 1/2`: returns 1/2 | Every segment of `[a, b]` is added (`x <= b`), giving 1, as the rectangle rule does | not executed | Integrals.TrapeziumDropsLastSegment | Integrals.Trapezium |
| src/AppliedMathLibrary/Methods/GaussMethod.cs:83 | `SwapLines` looks for a replacement pivot among diagonal entries `A[i][i]`, not in column `k` | `[[0, 1], [1, 0]]`: no row is found and the solver divides by zero, although the matrix is invertible | Partial pivoting: pick the row with the largest `abs(A[i][k])`, `i >= k`, which is non-zero whenever column `k` has a non-zero entry at or below the diagonal | not executed | Gauss.DiagonalSearchRun | Gauss.SolvePivoted |
| src/AppliedMathLibrary/Objects/Polynomial.cs:114-127 | `Sum` copies the operand with the higher `HighestPower` and indexes it with the other operand's length | `[1, 2, 0] + [1, 2]`: index out of range | The padded sum, with missing coefficients read as 0 | not executed | Polynomials.SumRejectsTrailingZero | Polynomials.Add |
| src/AppliedMathLibrary/Methods/Statistics.cs:14-22 | `Median` takes the middle of the list in its given order, without sorting | `[3, 1, 2]`: returns 1 | The median of the values, 2 | not executed | Statistics.MedianAsWrittenDependsOnOrder | Statistics.Median |

The documented `MathExpectation` example pairs seven values with six
probabilities, so the method as written rejects it (`Statistics.ExpectationDocumentedExample`).
Lagrange interpolation always adds operands of equal length, or the
initial one-coefficient polynomial, so it never reaches the `Sum` index
error (`Lagrange.AddTerm`).
