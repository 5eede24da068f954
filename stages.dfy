/**
 * The four stages of the SymNMF pipeline as functions of their inputs:
 * the Gaussian affinity matrix (sym), the degree matrix (ddg), the
 * normalized affinity D^-1/2 A D^-1/2 (norm) and one damped
 * multiplicative update of the factor H (update_H), with the properties
 * each stage guarantees.
 */
module Stages {
  import opened MatrixAlgebra
  import opened Libm

  /** Mixing parameter of the multiplicative update. */
  const BETA: real := 0.5

  // ------------------------------------------------------------------ sym

  /**
   * Entry (i, j) is exp(-||x_i - x_j||^2 / 2) off the diagonal; the diagonal
   * is 0 whatever the formula would give.
   */
  function Affinity(X: Matrix, n: nat, d: nat, exp: real -> real): (A: Matrix)
    requires IsMatrix(X, n, d)
    ensures IsMatrix(A, n, n)
  {
    seq(n, i requires 0 <= i < n =>
      seq(n, j requires 0 <= j < n =>
        if i == j then 0.0 else exp(-1.0 * SqDistance(X[i], X[j], d) / 2.0)))
  }

  /** The affinity matrix is symmetric with a zero diagonal, whatever exp is. */
  lemma AffinitySymmetric(X: Matrix, n: nat, d: nat, exp: real -> real)
    requires IsMatrix(X, n, d)
    ensures Symmetric(Affinity(X, n, d, exp), n)
    ensures ZeroDiagonal(Affinity(X, n, d, exp), n)
  {
    var A := Affinity(X, n, d, exp);
    forall i, j | 0 <= i < n && 0 <= j < n
      ensures A[i][j] == A[j][i]
    {
      SqDistanceProperties(X[i], X[j], d);
    }
  }

  /** Off the diagonal every affinity lies in (0, 1]. */
  lemma AffinityOffDiagonal(X: Matrix, n: nat, d: nat, exp: real -> real)
    requires IsMatrix(X, n, d) && ExpLike(exp)
    ensures NonNegative(Affinity(X, n, d, exp))
    ensures forall i, j :: 0 <= i < n && 0 <= j < n && i != j ==>
              0.0 < Affinity(X, n, d, exp)[i][j] <= 1.0
  {
    var A := Affinity(X, n, d, exp);
    forall i, j | 0 <= i < n && 0 <= j < n && i != j
      ensures 0.0 < A[i][j] <= 1.0
    {
      SqDistanceProperties(X[i], X[j], d);
      assert -1.0 * SqDistance(X[i], X[j], d) / 2.0 <= 0.0;
    }
  }

  // ------------------------------------------------------------------ ddg

  /** Sum of the first m entries of a row, accumulated left to right. */
  function RowSum(row: seq<real>, m: nat): real
    requires m <= |row|
  {
    if m == 0 then 0.0 else RowSum(row, m - 1) + row[m - 1]
  }

  /** The diagonal matrix of the row sums of the affinity matrix. */
  function Degree(X: Matrix, n: nat, d: nat, exp: real -> real): (D: Matrix)
    requires IsMatrix(X, n, d)
    ensures IsMatrix(D, n, n)
  {
    var A := Affinity(X, n, d, exp);
    seq(n, i requires 0 <= i < n =>
      seq(n, j requires 0 <= j < n => if i != j then 0.0 else RowSum(A[i], n)))
  }

  lemma {:induction false} RowSumNonNegative(row: seq<real>, m: nat)
    requires m <= |row|
    requires forall t :: 0 <= t < m ==> row[t] >= 0.0
    ensures RowSum(row, m) >= 0.0
  {
    if m > 0 {
      RowSumNonNegative(row, m - 1);
    }
  }

  /** A sum of non-negative entries, one of which is positive, is positive. */
  lemma {:induction false} RowSumPositive(row: seq<real>, m: nat, p: nat)
    requires m <= |row| && p < m
    requires forall t :: 0 <= t < m ==> row[t] >= 0.0
    requires row[p] > 0.0
    ensures RowSum(row, m) > 0.0
  {
    if p < m - 1 {
      RowSumPositive(row, m - 1, p);
    } else {
      RowSumNonNegative(row, m - 1);
    }
  }

  /**
   * The degree matrix is diagonal, its diagonal holds the row sums of the
   * affinity matrix, and every degree is >= 0. With two or more points every
   * degree is positive; a single point has degree 0.
   */
  lemma DegreeProperties(X: Matrix, n: nat, d: nat, exp: real -> real)
    requires IsMatrix(X, n, d) && ExpLike(exp)
    ensures Diagonal(Degree(X, n, d, exp), n)
    ensures forall i :: 0 <= i < n ==>
              Degree(X, n, d, exp)[i][i] == RowSum(Affinity(X, n, d, exp)[i], n)
    ensures NonNegative(Degree(X, n, d, exp))
    ensures n >= 2 ==> forall i :: 0 <= i < n ==> Degree(X, n, d, exp)[i][i] > 0.0
    ensures n == 1 ==> Degree(X, n, d, exp)[0][0] == 0.0
  {
    var A := Affinity(X, n, d, exp);
    var D := Degree(X, n, d, exp);
    AffinityOffDiagonal(X, n, d, exp);
    forall i | 0 <= i < n
      ensures D[i][i] >= 0.0
      ensures n >= 2 ==> D[i][i] > 0.0
    {
      RowSumNonNegative(A[i], n);
      if n >= 2 {
        RowSumPositive(A[i], n, if i == 0 then 1 else 0);
      }
    }
  }

  // ----------------------------------------------------------------- norm

  /** The diagonal matrix with 1 / sqrt(D[i][i]) on the diagonal. */
  function InvSqrtDegree(D: Matrix, n: nat, sqrt: real -> real): (M: Matrix)
    requires IsMatrix(D, n, n)
    requires forall i :: 0 <= i < n ==> sqrt(D[i][i]) != 0.0
    ensures IsMatrix(M, n, n)
  {
    seq(n, i requires 0 <= i < n =>
      seq(n, j requires 0 <= j < n => if i == j then 1.0 / sqrt(D[i][j]) else 0.0))
  }

  /** D^-1/2 is diagonal, with 1 / sqrt(D[t][t]) at (t, t). */
  lemma InvSqrtDegreeDiagonal(D: Matrix, n: nat, sqrt: real -> real)
    requires IsMatrix(D, n, n)
    requires forall i :: 0 <= i < n ==> sqrt(D[i][i]) != 0.0
    ensures Diagonal(InvSqrtDegree(D, n, sqrt), n)
    ensures forall t :: 0 <= t < n ==> InvSqrtDegree(D, n, sqrt)[t][t] == 1.0 / sqrt(D[t][t])
  {
  }

  /** No degree has a zero square root, so D^-1/2 has no division by zero. */
  predicate NormDefined(X: Matrix, n: nat, d: nat, exp: real -> real, sqrt: real -> real)
    requires IsMatrix(X, n, d)
  {
    var D := Degree(X, n, d, exp);
    forall i :: 0 <= i < n ==> sqrt(D[i][i]) != 0.0
  }

  /** D^-1/2 A D^-1/2, computed as two products, left one first. */
  function Normalized(X: Matrix, n: nat, d: nat, exp: real -> real, sqrt: real -> real): (W: Matrix)
    requires IsMatrix(X, n, d) && NormDefined(X, n, d, exp, sqrt)
    ensures IsMatrix(W, n, n)
  {
    var A := Affinity(X, n, d, exp);
    var M := InvSqrtDegree(Degree(X, n, d, exp), n, sqrt);
    Product(Product(M, A, n, n, n), M, n, n, n)
  }

  /** With exp and sqrt behaving as their names say, norm is defined for every table except a single point. */
  lemma NormDefinedUnlessSingleton(X: Matrix, n: nat, d: nat, exp: real -> real, sqrt: real -> real)
    requires IsMatrix(X, n, d) && ExpLike(exp) && SqrtLike(sqrt) && n != 1
    ensures NormDefined(X, n, d, exp, sqrt)
  {
    DegreeProperties(X, n, d, exp);
  }

  /** Entry (i, j) of D^-1/2 A D^-1/2 is A[i][j] scaled by 1 / sqrt(D[i][i]) on the left and 1 / sqrt(D[j][j]) on the right. */
  lemma ScaledEntry(A: Matrix, D: Matrix, n: nat, sqrt: real -> real, i: nat, j: nat)
    requires IsMatrix(A, n, n) && IsMatrix(D, n, n) && i < n && j < n
    requires forall t :: 0 <= t < n ==> sqrt(D[t][t]) != 0.0
    ensures var M := InvSqrtDegree(D, n, sqrt);
            Product(Product(M, A, n, n, n), M, n, n, n)[i][j] == (1.0 / sqrt(D[i][i])) * A[i][j] * (1.0 / sqrt(D[j][j]))
  {
    var M := InvSqrtDegree(D, n, sqrt);
    InvSqrtDegreeDiagonal(D, n, sqrt);
    ProductDiagonalLeft(M, A, n, n, i, j);
    ProductDiagonalRight(Product(M, A, n, n, n), M, n, n, i, j);
  }

  /** Entry (i, j) of the normalized matrix is A[i][j] / (sqrt(D[i][i]) * sqrt(D[j][j])). */
  lemma NormalizedEntry(X: Matrix, n: nat, d: nat, exp: real -> real, sqrt: real -> real, i: nat, j: nat)
    requires IsMatrix(X, n, d) && NormDefined(X, n, d, exp, sqrt) && i < n && j < n
    ensures var A, D := Affinity(X, n, d, exp), Degree(X, n, d, exp);
            Normalized(X, n, d, exp, sqrt)[i][j] == A[i][j] / (sqrt(D[i][i]) * sqrt(D[j][j]))
  {
    var A, D := Affinity(X, n, d, exp), Degree(X, n, d, exp);
    ScaledEntry(A, D, n, sqrt, i, j);
    InverseScaling(A[i][j], sqrt(D[i][i]), sqrt(D[j][j]));
  }

  lemma InverseScaling(a: real, si: real, sj: real)
    requires si != 0.0 && sj != 0.0
    ensures (1.0 / si) * a * (1.0 / sj) == a / (si * sj)
  {
  }

  /** The normalized matrix is symmetric with a zero diagonal. */
  lemma NormalizedSymmetric(X: Matrix, n: nat, d: nat, exp: real -> real, sqrt: real -> real)
    requires IsMatrix(X, n, d) && NormDefined(X, n, d, exp, sqrt)
    ensures Symmetric(Normalized(X, n, d, exp, sqrt), n)
    ensures ZeroDiagonal(Normalized(X, n, d, exp, sqrt), n)
  {
    var A, D := Affinity(X, n, d, exp), Degree(X, n, d, exp);
    var W := Normalized(X, n, d, exp, sqrt);
    AffinitySymmetric(X, n, d, exp);
    forall i, j | 0 <= i < n && 0 <= j < n
      ensures W[i][j] == W[j][i]
      ensures i == j ==> W[i][j] == 0.0
    {
      NormalizedEntry(X, n, d, exp, sqrt, i, j);
      NormalizedEntry(X, n, d, exp, sqrt, j, i);
      SwapDenominator(A[i][j], sqrt(D[i][i]), sqrt(D[j][j]));
    }
  }

  lemma SwapDenominator(a: real, si: real, sj: real)
    requires si != 0.0 && sj != 0.0
    ensures a / (si * sj) == a / (sj * si)
    ensures a == 0.0 ==> a / (si * sj) == 0.0
  {
  }

  /** Quotient of a positive (non-negative) number by a product of two positive numbers. */
  lemma DivideByPositives(a: real, si: real, sj: real)
    requires si > 0.0 && sj > 0.0 && a >= 0.0
    ensures a / (si * sj) >= 0.0
    ensures a > 0.0 ==> a / (si * sj) > 0.0
  {
    MulPositive(si, sj);
  }

  /** When exp and sqrt behave as their names say, W is non-negative and positive off the diagonal. */
  lemma NormalizedNonNegative(X: Matrix, n: nat, d: nat, exp: real -> real, sqrt: real -> real)
    requires IsMatrix(X, n, d) && ExpLike(exp) && SqrtLike(sqrt) && NormDefined(X, n, d, exp, sqrt)
    ensures NonNegative(Normalized(X, n, d, exp, sqrt))
    ensures forall i, j :: 0 <= i < n && 0 <= j < n && i != j ==> Normalized(X, n, d, exp, sqrt)[i][j] > 0.0
  {
    var A, D := Affinity(X, n, d, exp), Degree(X, n, d, exp);
    var W := Normalized(X, n, d, exp, sqrt);
    NormalizedSymmetric(X, n, d, exp, sqrt);
    forall i, j | 0 <= i < n && 0 <= j < n && i != j
      ensures W[i][j] > 0.0
    {
      assert A[i][j] > 0.0 by {
        AffinityOffDiagonal(X, n, d, exp);
      }
      assert D[i][i] > 0.0 && D[j][j] > 0.0 by {
        DegreeProperties(X, n, d, exp);
      }
      NormalizedEntry(X, n, d, exp, sqrt, i, j);
      DivideByPositives(A[i][j], sqrt(D[i][i]), sqrt(D[j][j]));
    }
    forall i, j | 0 <= i < |W| && 0 <= j < |W[i]|
      ensures W[i][j] >= 0.0
    {
      assert i == j ==> W[i][j] == 0.0;
    }
  }

  // ------------------------------------------------------------- update_H

  /** H H^T H, the denominator of the update. */
  function Gram3(H: Matrix, n: nat, k: nat): (G: Matrix)
    requires IsMatrix(H, n, k)
    ensures IsMatrix(G, n, k)
  {
    Product(Product(H, Transpose(H, n, k), n, k, n), H, n, n, k)
  }

  /** No entry of G is 0. */
  predicate NoZeroEntry(G: Matrix, n: nat, k: nat)
    requires IsMatrix(G, n, k)
  {
    forall i, j :: 0 <= i < n && 0 <= j < k ==> G[i][j] != 0.0
  }

  /** No entry of H H^T H is 0, so the update divides by no zero. */
  predicate UpdateDefined(H: Matrix, n: nat, k: nat)
    requires IsMatrix(H, n, k)
  {
    NoZeroEntry(Gram3(H, n, k), n, k)
  }

  /** Entrywise H[i][j] * (1 - BETA + BETA * WH[i][j] / G[i][j]). */
  function Damped(H: Matrix, WH: Matrix, G: Matrix, n: nat, k: nat): (N: Matrix)
    requires IsMatrix(H, n, k) && IsMatrix(WH, n, k) && IsMatrix(G, n, k) && NoZeroEntry(G, n, k)
    ensures IsMatrix(N, n, k)
  {
    seq(n, i requires 0 <= i < n =>
      seq(k, j requires 0 <= j < k => H[i][j] * (1.0 - BETA + BETA * (WH[i][j] / G[i][j]))))
  }

  /** One update: the damped step with numerator W H and denominator H H^T H. */
  function Updated(H: Matrix, W: Matrix, n: nat, k: nat): (N: Matrix)
    requires IsMatrix(H, n, k) && IsMatrix(W, n, n) && UpdateDefined(H, n, k)
    ensures IsMatrix(N, n, k)
  {
    Damped(H, Product(W, H, n, n, k), Gram3(H, n, k), n, k)
  }

  lemma DivNonNegative(a: real, b: real)
    requires a >= 0.0 && b > 0.0
    ensures a / b >= 0.0
  {
  }

  /** h * f >= h / 2 when h >= 0 and f >= 1/2, and h * f is 0 only when h is. */
  lemma ScaleByFactor(h: real, f: real)
    requires h >= 0.0 && f >= 0.5
    ensures h * f >= h * 0.5
    ensures h * f == 0.0 <==> h == 0.0
  {
    if h > 0.0 {
      calc {
        h * f - h * 0.5;
        h * (f - 0.5);
      >= { if f > 0.5 { MulPositive(h, f - 0.5); } }
        0.0;
      }
      calc {
        h * f;
      >= h * 0.5;
      > 0.0;
      }
    }
  }

  /**
   * With H >= 0, W >= 0 and no zero denominator, the update keeps H >= 0,
   * never shrinks an entry below (1 - BETA) of its value, and keeps exactly
   * the zero entries of H at zero.
   */
  lemma UpdatedNonNegative(H: Matrix, W: Matrix, n: nat, k: nat)
    requires IsMatrix(H, n, k) && IsMatrix(W, n, n) && UpdateDefined(H, n, k)
    requires NonNegative(H) && NonNegative(W)
    ensures NonNegative(Updated(H, W, n, k))
    ensures forall i, j :: 0 <= i < n && 0 <= j < k ==>
              Updated(H, W, n, k)[i][j] >= H[i][j] * (1.0 - BETA)
    ensures forall i, j :: 0 <= i < n && 0 <= j < k ==>
              (Updated(H, W, n, k)[i][j] == 0.0 <==> H[i][j] == 0.0)
  {
    var N := Updated(H, W, n, k);
    var WH := Product(W, H, n, n, k);
    var HT := Transpose(H, n, k);
    var HHT := Product(H, HT, n, k, n);
    var G := Gram3(H, n, k);
    forall i, j | 0 <= i < n && 0 <= j < k
      ensures N[i][j] >= H[i][j] * (1.0 - BETA)
      ensures N[i][j] == 0.0 <==> H[i][j] == 0.0
      ensures N[i][j] >= 0.0
    {
      DotNonNegative(W, H, i, j, n);
      forall t | 0 <= t < n
        ensures HHT[i][t] >= 0.0
      {
        DotNonNegative(H, HT, i, t, k);
      }
      DotNonNegative(HHT, H, i, j, n);
      assert G[i][j] > 0.0;
      DivNonNegative(WH[i][j], G[i][j]);
      var f := 1.0 - BETA + BETA * (WH[i][j] / G[i][j]);
      assert f >= 0.5;
      ScaleByFactor(H[i][j], f);
    }
  }

  /**
   * A strictly positive H and a non-negative W give a positive H H^T H, so
   * the update is defined, and its result is strictly positive again.
   */
  lemma UpdatedPositive(H: Matrix, W: Matrix, n: nat, k: nat)
    requires IsMatrix(H, n, k) && IsMatrix(W, n, n)
    requires Positive(H) && NonNegative(W)
    ensures UpdateDefined(H, n, k)
    ensures Positive(Updated(H, W, n, k))
  {
    var HT := Transpose(H, n, k);
    var HHT := Product(H, HT, n, k, n);
    var G := Gram3(H, n, k);
    forall i, j | 0 <= i < n && 0 <= j < k
      ensures G[i][j] > 0.0
    {
      forall t | 0 <= t < n
        ensures HHT[i][t] > 0.0
      {
        DotPositive(H, HT, i, t, k);
      }
      DotPositive(HHT, H, i, j, n);
    }
    UpdatedNonNegative(H, W, n, k);
    var N := Updated(H, W, n, k);
    forall i, j | 0 <= i < n && 0 <= j < k
      ensures N[i][j] > 0.0
    {
      assert N[i][j] >= 0.0 && N[i][j] != 0.0;
    }
  }
}
