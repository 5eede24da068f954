/**
 * Dense matrices as values: the mathematical meaning of the matrix
 * primitives of symnmf.c (transpose, product, squared norms, distance).
 * A matrix is a sequence of rows; `IsMatrix(M, rows, cols)` fixes its shape.
 * Every sum adds the same terms as the C accumulators, in the same order;
 * the squared Frobenius norm groups them row by row.
 */
module MatrixAlgebra {

  type Matrix = seq<seq<real>>

  predicate IsMatrix(M: Matrix, rows: nat, cols: nat)
  {
    |M| == rows && forall i :: 0 <= i < rows ==> |M[i]| == cols
  }

  /** Every entry is >= 0. */
  predicate NonNegative(M: Matrix)
  {
    forall i, j :: 0 <= i < |M| && 0 <= j < |M[i]| ==> M[i][j] >= 0.0
  }

  /** Every entry is > 0. */
  predicate Positive(M: Matrix)
  {
    forall i, j :: 0 <= i < |M| && 0 <= j < |M[i]| ==> M[i][j] > 0.0
  }

  predicate Symmetric(M: Matrix, n: nat)
    requires IsMatrix(M, n, n)
  {
    forall i, j :: 0 <= i < n && 0 <= j < n ==> M[i][j] == M[j][i]
  }

  /** Every entry off the main diagonal is exactly 0. */
  predicate Diagonal(M: Matrix, n: nat)
    requires IsMatrix(M, n, n)
  {
    forall i, j :: 0 <= i < n && 0 <= j < n && i != j ==> M[i][j] == 0.0
  }

  predicate ZeroDiagonal(M: Matrix, n: nat)
    requires IsMatrix(M, n, n)
  {
    forall i :: 0 <= i < n ==> M[i][i] == 0.0
  }

  // ---------------------------------------------------------------- transpose

  /** The cols x rows matrix whose entry (i, j) is M's entry (j, i). */
  function Transpose(M: Matrix, rows: nat, cols: nat): (T: Matrix)
    requires IsMatrix(M, rows, cols)
    ensures IsMatrix(T, cols, rows)
  {
    seq(cols, i requires 0 <= i < cols => seq(rows, j requires 0 <= j < rows => M[j][i]))
  }

  lemma TransposeInvolution(M: Matrix, rows: nat, cols: nat)
    requires IsMatrix(M, rows, cols)
    ensures Transpose(Transpose(M, rows, cols), cols, rows) == M
  {
    var TT := Transpose(Transpose(M, rows, cols), cols, rows);
    forall i | 0 <= i < rows
      ensures TT[i] == M[i]
    {
      assert forall j :: 0 <= j < cols ==> TT[i][j] == M[i][j];
    }
  }

  // ------------------------------------------------------------------ product

  /** Sum over t < m of A[i][t] * B[t][j], accumulated in the order t = 0, 1, ... */
  function Dot(A: Matrix, B: Matrix, i: nat, j: nat, m: nat): real
    requires i < |A| && m <= |A[i]| && m <= |B|
    requires forall t :: 0 <= t < m ==> j < |B[t]|
  {
    if m == 0 then 0.0 else Dot(A, B, i, j, m - 1) + A[i][m - 1] * B[m - 1][j]
  }

  /** The n x r product of an n x m and an m x r matrix. */
  function Product(A: Matrix, B: Matrix, n: nat, m: nat, r: nat): (C: Matrix)
    requires IsMatrix(A, n, m) && IsMatrix(B, m, r)
    ensures IsMatrix(C, n, r)
  {
    seq(n, i requires 0 <= i < n => seq(r, j requires 0 <= j < r => Dot(A, B, i, j, m)))
  }

  /** Swapping the factors and transposing both leaves each sum unchanged. */
  lemma {:induction false} DotTranspose(A: Matrix, B: Matrix, n: nat, m: nat, r: nat, i: nat, j: nat, p: nat)
    requires IsMatrix(A, n, m) && IsMatrix(B, m, r) && i < n && j < r && p <= m
    ensures Dot(A, B, i, j, p) == Dot(Transpose(B, m, r), Transpose(A, n, m), j, i, p)
  {
    if p > 0 {
      DotTranspose(A, B, n, m, r, i, j, p - 1);
    }
  }

  /** (A B)^T == B^T A^T */
  lemma ProductTranspose(A: Matrix, B: Matrix, n: nat, m: nat, r: nat)
    requires IsMatrix(A, n, m) && IsMatrix(B, m, r)
    ensures Transpose(Product(A, B, n, m, r), n, r)
         == Product(Transpose(B, m, r), Transpose(A, n, m), r, m, n)
  {
    var L := Transpose(Product(A, B, n, m, r), n, r);
    var R := Product(Transpose(B, m, r), Transpose(A, n, m), r, m, n);
    forall j | 0 <= j < r
      ensures L[j] == R[j]
    {
      forall i | 0 <= i < n
        ensures L[j][i] == R[j][i]
      {
        DotTranspose(A, B, n, m, r, i, j, m);
      }
    }
  }

  /** H H^T is symmetric, for every H. */
  lemma GramSymmetric(H: Matrix, n: nat, k: nat)
    requires IsMatrix(H, n, k)
    ensures Symmetric(Product(H, Transpose(H, n, k), n, k, n), n)
  {
    var G := Product(H, Transpose(H, n, k), n, k, n);
    ProductTranspose(H, Transpose(H, n, k), n, k, n);
    TransposeInvolution(H, n, k);
    forall i, j | 0 <= i < n && 0 <= j < n
      ensures G[i][j] == G[j][i]
    {
      assert Transpose(G, n, n)[j][i] == G[i][j];
    }
  }

  lemma {:induction false} DotNonNegative(A: Matrix, B: Matrix, i: nat, j: nat, m: nat)
    requires i < |A| && m <= |A[i]| && m <= |B|
    requires forall t :: 0 <= t < m ==> j < |B[t]|
    requires forall t :: 0 <= t < m ==> A[i][t] >= 0.0 && B[t][j] >= 0.0
    ensures Dot(A, B, i, j, m) >= 0.0
  {
    if m > 0 {
      DotNonNegative(A, B, i, j, m - 1);
      assert A[i][m - 1] * B[m - 1][j] >= 0.0;
    }
  }

  lemma {:induction false} DotPositive(A: Matrix, B: Matrix, i: nat, j: nat, m: nat)
    requires i < |A| && m <= |A[i]| && m <= |B|
    requires forall t :: 0 <= t < m ==> j < |B[t]|
    requires forall t :: 0 <= t < m ==> A[i][t] > 0.0 && B[t][j] > 0.0
    requires m >= 1
    ensures Dot(A, B, i, j, m) > 0.0
  {
    assert A[i][m - 1] * B[m - 1][j] > 0.0;
    if m > 1 {
      DotPositive(A, B, i, j, m - 1);
    }
  }

  /** When row i of L is zero off the diagonal, the sum keeps only the term t == i. */
  lemma {:induction false} DotDiagonalLeft(L: Matrix, B: Matrix, i: nat, j: nat, m: nat)
    requires i < |L| && m <= |L[i]| && m <= |B|
    requires forall t :: 0 <= t < m ==> j < |B[t]|
    requires forall t :: 0 <= t < m && t != i ==> L[i][t] == 0.0
    ensures Dot(L, B, i, j, m) == if i < m then L[i][i] * B[i][j] else 0.0
  {
    if m > 0 {
      DotDiagonalLeft(L, B, i, j, m - 1);
    }
  }

  /** When column j of R is zero off the diagonal, the sum keeps only the term t == j. */
  lemma {:induction false} DotDiagonalRight(A: Matrix, R: Matrix, i: nat, j: nat, m: nat)
    requires i < |A| && m <= |A[i]| && m <= |R|
    requires forall t :: 0 <= t < m ==> j < |R[t]|
    requires forall t :: 0 <= t < m && t != j ==> R[t][j] == 0.0
    ensures Dot(A, R, i, j, m) == if j < m then A[i][j] * R[j][j] else 0.0
  {
    if m > 0 {
      DotDiagonalRight(A, R, i, j, m - 1);
    }
  }

  /** Multiplying by a diagonal matrix on the left scales row i by L[i][i]. */
  lemma ProductDiagonalLeft(L: Matrix, B: Matrix, n: nat, r: nat, i: nat, j: nat)
    requires IsMatrix(L, n, n) && IsMatrix(B, n, r) && Diagonal(L, n) && i < n && j < r
    ensures Product(L, B, n, n, r)[i][j] == L[i][i] * B[i][j]
  {
    DotDiagonalLeft(L, B, i, j, n);
  }

  /** Multiplying by a diagonal matrix on the right scales column j by R[j][j]. */
  lemma ProductDiagonalRight(A: Matrix, R: Matrix, n: nat, m: nat, i: nat, j: nat)
    requires IsMatrix(A, n, m) && IsMatrix(R, m, m) && Diagonal(R, m) && i < n && j < m
    ensures Product(A, R, n, m, m)[i][j] == A[i][j] * R[j][j]
  {
    DotDiagonalRight(A, R, i, j, m);
  }

  // ------------------------------------------------------ sums of squares

  function Square(x: real): real
  {
    x * x
  }

  lemma MulPositive(a: real, b: real)
    requires a > 0.0 && b > 0.0
    ensures a * b > 0.0
  {
  }

  lemma SquareSign(x: real)
    ensures Square(x) >= 0.0
    ensures x != 0.0 ==> Square(x) > 0.0
    ensures Square(-x) == Square(x)
  {
    if x > 0.0 {
      calc {
        Square(x);
        x * x;
      > { MulPositive(x, x); }
        0.0;
      }
    } else if x < 0.0 {
      calc {
        Square(x);
        (-x) * (-x);
      > { MulPositive(-x, -x); }
        0.0;
      }
    }
  }

  /** Sum over t < d of (x1[t] - x2[t])^2. */
  function SqDistance(x1: seq<real>, x2: seq<real>, d: nat): real
    requires d <= |x1| && d <= |x2|
  {
    if d == 0 then 0.0 else SqDistance(x1, x2, d - 1) + Square(x1[d - 1] - x2[d - 1])
  }

  lemma {:induction false} SqDistanceProperties(x1: seq<real>, x2: seq<real>, d: nat)
    requires d <= |x1| && d <= |x2|
    ensures SqDistance(x1, x2, d) >= 0.0
    ensures SqDistance(x1, x2, d) == SqDistance(x2, x1, d)
    ensures x1[..d] == x2[..d] ==> SqDistance(x1, x2, d) == 0.0
  {
    if d > 0 {
      SqDistanceProperties(x1, x2, d - 1);
      SquareSign(x1[d - 1] - x2[d - 1]);
      assert x2[d - 1] - x1[d - 1] == -(x1[d - 1] - x2[d - 1]);
      if x1[..d] == x2[..d] {
        assert x1[..d - 1] == x1[..d][..d - 1];
        assert x2[..d - 1] == x2[..d][..d - 1];
        assert x1[d - 1] == x1[..d][d - 1];
        assert x2[d - 1] == x2[..d][d - 1];
      }
    }
  }

  /** Sum over j < k of row[j]^2. */
  function RowSquares(row: seq<real>, k: nat): real
    requires k <= |row|
  {
    if k == 0 then 0.0 else RowSquares(row, k - 1) + Square(row[k - 1])
  }

  /** Sum over the first n rows and first k columns of A[i][j]^2, row by row. */
  function SquaredFrobenius(A: Matrix, n: nat, k: nat): real
    requires n <= |A| && forall i :: 0 <= i < n ==> k <= |A[i]|
  {
    if n == 0 then 0.0 else SquaredFrobenius(A, n - 1, k) + RowSquares(A[n - 1], k)
  }

  lemma {:induction false} RowSquaresZero(row: seq<real>, k: nat)
    requires k <= |row|
    ensures RowSquares(row, k) >= 0.0
    ensures RowSquares(row, k) == 0.0 <==> forall j :: 0 <= j < k ==> row[j] == 0.0
  {
    if k > 0 {
      RowSquaresZero(row, k - 1);
      SquareSign(row[k - 1]);
    }
  }

  /** The squared Frobenius norm is >= 0 and is 0 exactly for the zero matrix. */
  lemma {:induction false} SquaredFrobeniusZero(A: Matrix, n: nat, k: nat)
    requires n <= |A| && forall i :: 0 <= i < n ==> k <= |A[i]|
    ensures SquaredFrobenius(A, n, k) >= 0.0
    ensures SquaredFrobenius(A, n, k) == 0.0 <==>
            forall i, j :: 0 <= i < n && 0 <= j < k ==> A[i][j] == 0.0
  {
    if n > 0 {
      SquaredFrobeniusZero(A, n - 1, k);
      RowSquaresZero(A[n - 1], k);
    }
  }

  lemma {:induction false} RowSquaresSameSquares(r1: seq<real>, r2: seq<real>, k: nat)
    requires k <= |r1| && k <= |r2|
    requires forall j :: 0 <= j < k ==> Square(r1[j]) == Square(r2[j])
    ensures RowSquares(r1, k) == RowSquares(r2, k)
  {
    if k > 0 {
      RowSquaresSameSquares(r1, r2, k - 1);
    }
  }

  lemma {:induction false} SquaredFrobeniusSameSquares(A: Matrix, B: Matrix, n: nat, k: nat)
    requires n <= |A| && forall i :: 0 <= i < n ==> k <= |A[i]|
    requires n <= |B| && forall i :: 0 <= i < n ==> k <= |B[i]|
    requires forall i, j :: 0 <= i < n && 0 <= j < k ==> Square(A[i][j]) == Square(B[i][j])
    ensures SquaredFrobenius(A, n, k) == SquaredFrobenius(B, n, k)
  {
    if n > 0 {
      SquaredFrobeniusSameSquares(A, B, n - 1, k);
      RowSquaresSameSquares(A[n - 1], B[n - 1], k);
    }
  }

  // ----------------------------------------------------------------- distance

  /** Entrywise A - B. */
  function Difference(A: Matrix, B: Matrix, n: nat, k: nat): (M: Matrix)
    requires IsMatrix(A, n, k) && IsMatrix(B, n, k)
    ensures IsMatrix(M, n, k)
  {
    seq(n, i requires 0 <= i < n => seq(k, j requires 0 <= j < k => A[i][j] - B[i][j]))
  }

  /** The squared Frobenius norm of A - B. */
  function Distance(A: Matrix, B: Matrix, n: nat, k: nat): real
    requires IsMatrix(A, n, k) && IsMatrix(B, n, k)
  {
    SquaredFrobenius(Difference(A, B, n, k), n, k)
  }

  lemma DistanceSymmetric(A: Matrix, B: Matrix, n: nat, k: nat)
    requires IsMatrix(A, n, k) && IsMatrix(B, n, k)
    ensures Distance(A, B, n, k) == Distance(B, A, n, k)
  {
    var D1, D2 := Difference(A, B, n, k), Difference(B, A, n, k);
    forall i, j | 0 <= i < n && 0 <= j < k
      ensures Square(D1[i][j]) == Square(D2[i][j])
    {
      assert D2[i][j] == -D1[i][j];
      SquareSign(D1[i][j]);
    }
    SquaredFrobeniusSameSquares(D1, D2, n, k);
  }

  /** The distance is >= 0, and it is 0 exactly when the two matrices are equal. */
  lemma DistanceZeroIffEqual(A: Matrix, B: Matrix, n: nat, k: nat)
    requires IsMatrix(A, n, k) && IsMatrix(B, n, k)
    ensures Distance(A, B, n, k) >= 0.0
    ensures Distance(A, B, n, k) == 0.0 <==> A == B
  {
    var D := Difference(A, B, n, k);
    SquaredFrobeniusZero(D, n, k);
    if Distance(A, B, n, k) == 0.0 {
      forall i | 0 <= i < n
        ensures A[i] == B[i]
      {
        forall j | 0 <= j < k
          ensures A[i][j] == B[i][j]
        {
          assert D[i][j] == A[i][j] - B[i][j] == 0.0;
        }
      }
    }
  }
}
