/**
 * The matrix primitives of symnmf.c on heap buffers: each produced matrix is
 * a freshly allocated `array2<real>`, filled by the same loops as the C code,
 * and proved equal to its mathematical meaning in MatrixAlgebra.
 */
module Primitives {
  import opened MatrixAlgebra

  /** The matrix a buffer currently holds, as a value. */
  ghost function Contents(a: array2<real>): (M: Matrix)
    reads a
    ensures IsMatrix(M, a.Length0, a.Length1)
    ensures forall i, j :: 0 <= i < a.Length0 && 0 <= j < a.Length1 ==> M[i][j] == a[i, j]
  {
    seq(a.Length0, i requires 0 <= i < a.Length0 reads a =>
      seq(a.Length1, j requires 0 <= j < a.Length1 reads a => a[i, j]))
  }

  /** A buffer holds M when it has M's shape and agrees with it entry by entry. */
  lemma ContentsEqual(a: array2<real>, M: Matrix)
    requires IsMatrix(M, a.Length0, a.Length1)
    requires forall i, j :: 0 <= i < a.Length0 && 0 <= j < a.Length1 ==> a[i, j] == M[i][j]
    ensures Contents(a) == M
  {
    var C := Contents(a);
    forall i | 0 <= i < a.Length0
      ensures C[i] == M[i]
    {
    }
  }

  /** frobenius_norm_squared: sum of the squares of all entries, row by row. */
  method FrobeniusNormSquared(A: array2<real>, n: nat, k: nat) returns (r: real)
    requires A.Length0 == n && A.Length1 == k
    ensures r == SquaredFrobenius(Contents(A), n, k)
    ensures r >= 0.0
  {
    ghost var a := Contents(A);
    r := 0.0;
    for i := 0 to n
      invariant r == SquaredFrobenius(a, i, k)
    {
      for j := 0 to k
        invariant r == SquaredFrobenius(a, i, k) + RowSquares(a[i], j)
      {
        r := r + A[i, j] * A[i, j];
      }
    }
    SquaredFrobeniusZero(a, n, k);
  }

  /** matrix_transpose: a new k x n buffer with entry (i, j) equal to A's entry (j, i). */
  method MatrixTranspose(A: array2<real>, n: nat, k: nat) returns (T: array2<real>)
    requires A.Length0 == n && A.Length1 == k
    ensures fresh(T) && T.Length0 == k && T.Length1 == n
    ensures Contents(T) == Transpose(Contents(A), n, k)
  {
    ghost var a := Contents(A);
    T := new real[k, n];
    for i := 0 to k
      invariant forall p, q :: 0 <= p < i && 0 <= q < n ==> T[p, q] == a[q][p]
    {
      for j := 0 to n
        invariant forall p, q :: 0 <= p < i && 0 <= q < n ==> T[p, q] == a[q][p]
        invariant forall q :: 0 <= q < j ==> T[i, q] == a[q][i]
      {
        T[i, j] := A[j, i];
      }
    }
    ContentsEqual(T, Transpose(a, n, k));
  }

  /** euclidian_norm_squared: sum over the first d coordinates of (x1[t] - x2[t])^2. */
  method EuclidianNormSquared(x1: seq<real>, x2: seq<real>, d: nat) returns (r: real)
    requires d <= |x1| && d <= |x2|
    ensures r == SqDistance(x1, x2, d)
    ensures r >= 0.0
  {
    r := 0.0;
    for i := 0 to d
      invariant r == SqDistance(x1, x2, i)
    {
      r := r + (x1[i] - x2[i]) * (x1[i] - x2[i]);
    }
    SqDistanceProperties(x1, x2, d);
  }

  /**
   * matrix_multiplication: a new n x r buffer whose entry (i, j) is
   * accumulated as the sum over t < m of A[i][t] * B[t][j], in the order
   * t = 0, 1, ... (the C code accumulates in the entry itself; the sum is
   * kept in a local here and stored once, which gives the same value).
   */
  method MatrixMultiplication(A: array2<real>, B: array2<real>, n: nat, m: nat, r: nat)
    returns (C: array2<real>)
    requires A.Length0 == n && A.Length1 == m && B.Length0 == m && B.Length1 == r
    ensures fresh(C) && C.Length0 == n && C.Length1 == r
    ensures Contents(C) == Product(Contents(A), Contents(B), n, m, r)
  {
    ghost var a, b := Contents(A), Contents(B);
    ghost var P := Product(a, b, n, m, r);
    C := new real[n, r];
    for i := 0 to n
      invariant forall p, q :: 0 <= p < i && 0 <= q < r ==> C[p, q] == P[p][q]
    {
      for j := 0 to r
        invariant forall p, q :: 0 <= p < i && 0 <= q < r ==> C[p, q] == P[p][q]
        invariant forall q :: 0 <= q < j ==> C[i, q] == P[i][q]
      {
        var sum := 0.0;
        for t := 0 to m
          invariant sum == Dot(a, b, i, j, t)
        {
          sum := sum + A[i, t] * B[t, j];
        }
        C[i, j] := sum;
      }
    }
    ContentsEqual(C, P);
  }

  /**
   * frob_distance: fills a scratch buffer with A - B and returns its squared
   * Frobenius norm.
   */
  method FrobDistance(A: array2<real>, B: array2<real>, n: nat, k: nat) returns (r: real)
    requires A.Length0 == n && A.Length1 == k && B.Length0 == n && B.Length1 == k
    ensures r == Distance(Contents(A), Contents(B), n, k)
    ensures r >= 0.0
  {
    ghost var a, b := Contents(A), Contents(B);
    var M := new real[n, k];
    for i := 0 to n
      invariant forall p, q :: 0 <= p < i && 0 <= q < k ==> M[p, q] == a[p][q] - b[p][q]
    {
      for j := 0 to k
        invariant forall p, q :: 0 <= p < i && 0 <= q < k ==> M[p, q] == a[p][q] - b[p][q]
        invariant forall q :: 0 <= q < j ==> M[i, q] == a[i][q] - b[i][q]
      {
        M[i, j] := A[i, j] - B[i, j];
      }
    }
    ContentsEqual(M, Difference(a, b, n, k));
    r := FrobeniusNormSquared(M, n, k);
  }
}
