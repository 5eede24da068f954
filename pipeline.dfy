/**
 * The four stages of symnmf.c (sym, ddg, norm, update_H) on heap buffers,
 * each proved to compute the function of its inputs that Stages defines.
 * The point table X is only read, so it is passed as a value: row i is X[i].
 * exp and sqrt are the C library's, passed in as functions.
 */
module Pipeline {
  import opened MatrixAlgebra
  import opened Libm
  import opened Stages
  import opened Primitives

  /** sym: the n x n affinity matrix of the first n points (d coordinates each). */
  method Sym(X: Matrix, n: nat, d: nat, exp: real -> real) returns (A: array2<real>)
    requires IsMatrix(X, n, d)
    ensures fresh(A) && A.Length0 == n && A.Length1 == n
    ensures Contents(A) == Affinity(X, n, d, exp)
  {
    ghost var S := Affinity(X, n, d, exp);
    A := new real[n, n];
    for i := 0 to n
      invariant forall p, q :: 0 <= p < i && 0 <= q < n ==> A[p, q] == S[p][q]
    {
      for j := 0 to n
        invariant forall p, q :: 0 <= p < i && 0 <= q < n ==> A[p, q] == S[p][q]
        invariant forall q :: 0 <= q < j ==> A[i, q] == S[i][q]
      {
        if i == j {
          A[i, j] := 0.0;
        } else {
          var e := EuclidianNormSquared(X[i], X[j], d);
          A[i, j] := exp(-1.0 * e / 2.0);
        }
      }
    }
    ContentsEqual(A, S);
  }

  /**
   * ddg: the diagonal degree matrix, each diagonal entry summed over row i
   * of sym's result in the order t = 0, 1, ... (the C code accumulates in
   * D[i][i] itself; the sum is kept in a local here and stored once).
   */
  method Ddg(X: Matrix, n: nat, d: nat, exp: real -> real) returns (D: array2<real>)
    requires IsMatrix(X, n, d)
    ensures fresh(D) && D.Length0 == n && D.Length1 == n
    ensures Contents(D) == Degree(X, n, d, exp)
  {
    ghost var G := Degree(X, n, d, exp);
    D := new real[n, n];
    var A := Sym(X, n, d, exp);
    ghost var a := Contents(A);
    for i := 0 to n
      modifies D
      invariant forall p, q :: 0 <= p < i && 0 <= q < n ==> D[p, q] == G[p][q]
    {
      for j := 0 to n
        modifies D
        invariant forall p, q :: 0 <= p < i && 0 <= q < n ==> D[p, q] == G[p][q]
        invariant forall q :: 0 <= q < j ==> D[i, q] == G[i][q]
      {
        if i != j {
          D[i, j] := 0.0;
        } else {
          var sum := 0.0;
          for t := 0 to n
            invariant sum == RowSum(a[i], t)
          {
            sum := sum + A[i, t];
          }
          D[i, i] := sum;
        }
      }
    }
    ContentsEqual(D, G);
  }

  /** The loop of norm that builds D^-1/2: 1 / sqrt(D[i][i]) on the diagonal, 0 elsewhere. */
  method InvSqrtDiagonal(D: array2<real>, n: nat, sqrt: real -> real) returns (M: array2<real>)
    requires D.Length0 == n && D.Length1 == n
    requires forall i :: 0 <= i < n ==> sqrt(D[i, i]) != 0.0
    ensures fresh(M) && M.Length0 == n && M.Length1 == n
    ensures Contents(M) == InvSqrtDegree(Contents(D), n, sqrt)
  {
    ghost var S := InvSqrtDegree(Contents(D), n, sqrt);
    M := new real[n, n];
    for i := 0 to n
      invariant forall p, q :: 0 <= p < i && 0 <= q < n ==> M[p, q] == S[p][q]
    {
      for j := 0 to n
        invariant forall p, q :: 0 <= p < i && 0 <= q < n ==> M[p, q] == S[p][q]
        invariant forall q :: 0 <= q < j ==> M[i, q] == S[i][q]
      {
        M[i, j] := 0.0;
        if i == j {
          M[i, j] := 1.0 / sqrt(D[i, j]);
        }
      }
    }
    ContentsEqual(M, S);
  }

  /**
   * norm: D^-1/2 A D^-1/2, with D from ddg and A from sym, and the two
   * products taken left first.
   */
  method Norm(X: Matrix, n: nat, d: nat, exp: real -> real, sqrt: real -> real)
    returns (W: array2<real>)
    requires IsMatrix(X, n, d) && NormDefined(X, n, d, exp, sqrt)
    ensures fresh(W) && W.Length0 == n && W.Length1 == n
    ensures Contents(W) == Normalized(X, n, d, exp, sqrt)
  {
    var D := Ddg(X, n, d, exp);
    var A := Sym(X, n, d, exp);
    var M := InvSqrtDiagonal(D, n, sqrt);
    var MA := MatrixMultiplication(M, A, n, n, n);
    W := MatrixMultiplication(MA, M, n, n, n);
  }

  /**
   * The final loop of update_H: a new buffer with entry (i, j) equal to
   * H[i][j] * (1 - BETA + BETA * WH[i][j] / G[i][j]).
   */
  method DampedStep(H: array2<real>, WH: array2<real>, G: array2<real>, n: nat, k: nat)
    returns (N: array2<real>)
    requires H.Length0 == n && H.Length1 == k && WH.Length0 == n && WH.Length1 == k
    requires G.Length0 == n && G.Length1 == k && NoZeroEntry(Contents(G), n, k)
    ensures fresh(N) && N.Length0 == n && N.Length1 == k
    ensures Contents(N) == Damped(Contents(H), Contents(WH), Contents(G), n, k)
  {
    ghost var U := Damped(Contents(H), Contents(WH), Contents(G), n, k);
    N := new real[n, k];
    for i := 0 to n
      invariant forall p, q :: 0 <= p < i && 0 <= q < k ==> N[p, q] == U[p][q]
    {
      for j := 0 to k
        invariant forall p, q :: 0 <= p < i && 0 <= q < k ==> N[p, q] == U[p][q]
        invariant forall q :: 0 <= q < j ==> N[i, q] == U[i][q]
      {
        N[i, j] := H[i, j] * (1.0 - BETA + (BETA * (WH[i, j] / G[i, j])));
      }
    }
    ContentsEqual(N, U);
  }

  /**
   * update_H: one damped multiplicative update of the n x k factor H against
   * the n x n matrix W, into a new buffer; H and W are only read.
   */
  method UpdateH(H: array2<real>, W: array2<real>, n: nat, k: nat) returns (N: array2<real>)
    requires H.Length0 == n && H.Length1 == k && W.Length0 == n && W.Length1 == n
    requires UpdateDefined(Contents(H), n, k)
    ensures fresh(N) && N.Length0 == n && N.Length1 == k
    ensures Contents(N) == Updated(Contents(H), Contents(W), n, k)
  {
    var WH := MatrixMultiplication(W, H, n, n, k);
    var HT := MatrixTranspose(H, n, k);
    var HHT := MatrixMultiplication(H, HT, n, k, n);
    var HHTH := MatrixMultiplication(HHT, H, n, n, k);
    N := DampedStep(H, WH, HHTH, n, k);
  }
}
