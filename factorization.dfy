/**
 * The convergence loop of symnmf as a function: the sequence of updates it
 * computes from an initial factor H, and when it stops.
 */
module Factorization {
  import opened MatrixAlgebra
  import opened Stages

  /** Convergence threshold on the squared Frobenius distance of two iterates. */
  const EPS: real := 0.0001
  /** Most updates the loop performs. */
  const MAX_ITER: nat := 300

  /**
   * Every update the loop reaches, from H at iteration i on, divides by no
   * zero. The loop stops after an update within EPS of its predecessor, or
   * after the update of iteration MAX_ITER - 1.
   */
  ghost predicate RunDefined(H: Matrix, W: Matrix, n: nat, k: nat, i: nat)
    requires IsMatrix(H, n, k) && IsMatrix(W, n, n) && i < MAX_ITER
    decreases MAX_ITER - i
  {
    && UpdateDefined(H, n, k)
    && var next := Updated(H, W, n, k);
       Distance(next, H, n, k) < EPS || i + 1 == MAX_ITER || RunDefined(next, W, n, k, i + 1)
  }

  /**
   * The iterates of the loop when it enters iteration i with current iterate
   * H: H itself, then every update the loop computes, in order. The last one
   * is what symnmf returns; the ones before it are the iterates it frees.
   */
  function Run(H: Matrix, W: Matrix, n: nat, k: nat, i: nat): (hs: seq<Matrix>)
    requires IsMatrix(H, n, k) && IsMatrix(W, n, n) && i < MAX_ITER
    requires RunDefined(H, W, n, k, i)
    decreases MAX_ITER - i
    ensures 2 <= |hs| <= MAX_ITER - i + 1 && hs[0] == H
    ensures forall t :: 0 <= t < |hs| ==> IsMatrix(hs[t], n, k)
  {
    var next := Updated(H, W, n, k);
    if Distance(next, H, n, k) < EPS || i + 1 == MAX_ITER then [H, next]
    else [H] + Run(next, W, n, k, i + 1)
  }

  /** Iterate t + 1 of hs is the (defined) update of iterate t. */
  ghost predicate UpdateStep(hs: seq<Matrix>, W: Matrix, n: nat, k: nat, t: nat)
    requires t + 1 < |hs| && IsMatrix(hs[t], n, k) && IsMatrix(W, n, n)
  {
    UpdateDefined(hs[t], n, k) && hs[t + 1] == Updated(hs[t], W, n, k)
  }

  /** Iterate t + 1 of hs is at least EPS away from iterate t. */
  ghost predicate Moved(hs: seq<Matrix>, n: nat, k: nat, t: nat)
    requires t + 1 < |hs| && IsMatrix(hs[t], n, k) && IsMatrix(hs[t + 1], n, k)
  {
    Distance(hs[t + 1], hs[t], n, k) >= EPS
  }

  /** Every iterate of hs is an n x k matrix. */
  ghost predicate Shaped(hs: seq<Matrix>, n: nat, k: nat)
  {
    forall t :: 0 <= t < |hs| ==> IsMatrix(hs[t], n, k)
  }

  /**
   * hs is what the loop computes when it enters iteration i with hs[0]: at
   * most MAX_ITER - i updates and at least one, each the update of its
   * predecessor, every update but the last at least EPS away from its
   * predecessor, and the last one within EPS of its predecessor unless it is
   * the update of iteration MAX_ITER - 1.
   */
  ghost predicate Trace(hs: seq<Matrix>, W: Matrix, n: nat, k: nat, i: nat)
    requires Shaped(hs, n, k) && IsMatrix(W, n, n)
  {
    && 2 <= |hs| <= MAX_ITER - i + 1
    && (forall t :: 0 <= t < |hs| - 1 ==> UpdateStep(hs, W, n, k, t))
    && (forall t :: 0 <= t < |hs| - 2 ==> Moved(hs, n, k, t))
    && (!Moved(hs, n, k, |hs| - 2) || i + |hs| - 1 == MAX_ITER)
  }

  /**
   * A trace preceded by the iterate it was computed from, when the loop goes
   * on after that first update, is a trace from one iteration earlier.
   */
  lemma TraceCons(H: Matrix, rest: seq<Matrix>, W: Matrix, n: nat, k: nat, i: nat)
    requires IsMatrix(H, n, k) && Shaped(rest, n, k) && IsMatrix(W, n, n) && i < MAX_ITER
    requires Trace(rest, W, n, k, i + 1)
    requires UpdateDefined(H, n, k) && rest[0] == Updated(H, W, n, k) && Distance(rest[0], H, n, k) >= EPS
    ensures Shaped([H] + rest, n, k) && Trace([H] + rest, W, n, k, i)
  {
    var hs := [H] + rest;
    assert hs[1..] == rest;
    forall t | 0 <= t < |hs| - 1
      ensures UpdateStep(hs, W, n, k, t)
    {
      if t > 0 {
        assert UpdateStep(rest, W, n, k, t - 1);
      }
    }
    forall t | 0 <= t < |hs| - 2
      ensures Moved(hs, n, k, t)
    {
      if t > 0 {
        assert Moved(rest, n, k, t - 1);
      }
    }
    assert Moved(hs, n, k, |hs| - 2) == Moved(rest, n, k, |rest| - 2);
  }

  /**
   * The run of the loop from H is a trace: each iterate after the first is
   * the update of its predecessor, the loop goes on only after an update at
   * least EPS from its predecessor, and it stops after an update within EPS
   * of its predecessor or after the update of iteration MAX_ITER - 1.
   */
  lemma {:induction false} RunIsTrace(H: Matrix, W: Matrix, n: nat, k: nat, i: nat)
    requires IsMatrix(H, n, k) && IsMatrix(W, n, n) && i < MAX_ITER && RunDefined(H, W, n, k, i)
    decreases MAX_ITER - i
    ensures Shaped(Run(H, W, n, k, i), n, k) && Trace(Run(H, W, n, k, i), W, n, k, i)
  {
    var next := Updated(H, W, n, k);
    if Distance(next, H, n, k) < EPS || i + 1 == MAX_ITER {
      var hs := [H, next];
      assert UpdateStep(hs, W, n, k, 0);
      assert !Moved(hs, n, k, 0) || i + 1 == MAX_ITER;
    } else {
      RunIsTrace(next, W, n, k, i + 1);
      TraceCons(H, Run(next, W, n, k, i + 1), W, n, k, i);
    }
  }

  /** A trace of more than one update goes on as a trace from its second iterate. */
  lemma TraceTail(hs: seq<Matrix>, W: Matrix, n: nat, k: nat, i: nat)
    requires Shaped(hs, n, k) && IsMatrix(W, n, n) && Trace(hs, W, n, k, i) && |hs| > 2
    ensures Moved(hs, n, k, 0) && Shaped(hs[1..], n, k) && Trace(hs[1..], W, n, k, i + 1)
  {
    var rest := hs[1..];
    forall t | 0 <= t < |rest| - 1
      ensures UpdateStep(rest, W, n, k, t)
    {
      assert UpdateStep(hs, W, n, k, t + 1);
    }
    forall t | 0 <= t < |rest| - 2
      ensures Moved(rest, n, k, t)
    {
      assert Moved(hs, n, k, t + 1);
    }
    assert Moved(rest, n, k, |rest| - 2) == Moved(hs, n, k, |hs| - 2);
  }

  /** A trace is the run from its first iterate: the loop has no other outcome. */
  lemma {:induction false} TraceIsRun(hs: seq<Matrix>, W: Matrix, n: nat, k: nat, i: nat)
    requires Shaped(hs, n, k) && IsMatrix(W, n, n) && i < MAX_ITER && Trace(hs, W, n, k, i)
    decreases |hs|
    ensures RunDefined(hs[0], W, n, k, i) && Run(hs[0], W, n, k, i) == hs
  {
    var H := hs[0];
    assert UpdateStep(hs, W, n, k, 0);
    var next := Updated(H, W, n, k);
    if |hs| == 2 {
      assert hs == [H, next];
    } else {
      TraceTail(hs, W, n, k, i);
      var rest := hs[1..];
      assert rest[0] == next;
      TraceIsRun(rest, W, n, k, i + 1);
      assert Run(H, W, n, k, i) == [H] + rest;
      assert [H] + rest == hs;
    }
  }

  /**
   * If H is already within EPS of its own update, the loop stops after that
   * single update, and what it returns is within EPS of H.
   */
  lemma StopsAtFixedPoint(H: Matrix, W: Matrix, n: nat, k: nat)
    requires IsMatrix(H, n, k) && IsMatrix(W, n, n) && UpdateDefined(H, n, k)
    requires Distance(Updated(H, W, n, k), H, n, k) < EPS
    ensures RunDefined(H, W, n, k, 0)
    ensures Run(H, W, n, k, 0) == [H, Updated(H, W, n, k)]
  {
  }

  /**
   * A strictly positive initial H with a non-negative W keeps every update
   * defined, and every iterate strictly positive.
   */
  lemma {:induction false} RunPositive(H: Matrix, W: Matrix, n: nat, k: nat, i: nat)
    requires IsMatrix(H, n, k) && IsMatrix(W, n, n) && i < MAX_ITER
    requires Positive(H) && NonNegative(W)
    decreases MAX_ITER - i
    ensures RunDefined(H, W, n, k, i)
    ensures forall t :: 0 <= t < |Run(H, W, n, k, i)| ==> Positive(Run(H, W, n, k, i)[t])
  {
    UpdatedPositive(H, W, n, k);
    var next := Updated(H, W, n, k);
    if !(Distance(next, H, n, k) < EPS || i + 1 == MAX_ITER) {
      RunPositive(next, W, n, k, i + 1);
      assert Run(H, W, n, k, i) == [H] + Run(next, W, n, k, i + 1);
    }
  }

  /**
   * A non-negative initial H with a non-negative W, whose updates are all
   * defined, keeps every iterate non-negative.
   */
  lemma {:induction false} RunNonNegative(H: Matrix, W: Matrix, n: nat, k: nat, i: nat)
    requires IsMatrix(H, n, k) && IsMatrix(W, n, n) && i < MAX_ITER
    requires NonNegative(H) && NonNegative(W) && RunDefined(H, W, n, k, i)
    decreases MAX_ITER - i
    ensures forall t :: 0 <= t < |Run(H, W, n, k, i)| ==> NonNegative(Run(H, W, n, k, i)[t])
  {
    UpdatedNonNegative(H, W, n, k);
    var next := Updated(H, W, n, k);
    if !(Distance(next, H, n, k) < EPS || i + 1 == MAX_ITER) {
      RunNonNegative(next, W, n, k, i + 1);
      assert Run(H, W, n, k, i) == [H] + Run(next, W, n, k, i + 1);
    }
  }

  /** Every entry that is zero in H is zero in M. */
  ghost predicate KeepsZeros(H: Matrix, M: Matrix, n: nat, k: nat)
    requires IsMatrix(H, n, k) && IsMatrix(M, n, k)
  {
    forall r, c :: 0 <= r < n && 0 <= c < k && H[r][c] == 0.0 ==> M[r][c] == 0.0
  }

  lemma KeepsZerosTransitive(A: Matrix, B: Matrix, C: Matrix, n: nat, k: nat)
    requires IsMatrix(A, n, k) && IsMatrix(B, n, k) && IsMatrix(C, n, k)
    requires KeepsZeros(A, B, n, k) && KeepsZeros(B, C, n, k)
    ensures KeepsZeros(A, C, n, k)
  {
  }

  /**
   * From a non-negative H and a non-negative W, whose updates are all
   * defined, an entry that is zero in H stays zero in every iterate.
   */
  lemma RunKeepsZeros(H: Matrix, W: Matrix, n: nat, k: nat, i: nat)
    requires IsMatrix(H, n, k) && IsMatrix(W, n, n) && i < MAX_ITER
    requires NonNegative(H) && NonNegative(W) && RunDefined(H, W, n, k, i)
    ensures forall t :: 0 <= t < |Run(H, W, n, k, i)| ==> KeepsZeros(H, Run(H, W, n, k, i)[t], n, k)
  {
    RunKeepsZerosOf(H, H, W, n, k, i);
  }

  /** The zeros of Z that H keeps, every iterate of the run from H keeps. */
  lemma {:induction false} RunKeepsZerosOf(Z: Matrix, H: Matrix, W: Matrix, n: nat, k: nat, i: nat)
    requires IsMatrix(Z, n, k) && IsMatrix(H, n, k) && IsMatrix(W, n, n) && i < MAX_ITER
    requires NonNegative(H) && NonNegative(W) && RunDefined(H, W, n, k, i)
    requires KeepsZeros(Z, H, n, k)
    decreases MAX_ITER - i
    ensures forall t :: 0 <= t < |Run(H, W, n, k, i)| ==> KeepsZeros(Z, Run(H, W, n, k, i)[t], n, k)
  {
    UpdatedKeepsZeros(H, W, n, k);
    var next := Updated(H, W, n, k);
    KeepsZerosTransitive(Z, H, next, n, k);
    if !(Distance(next, H, n, k) < EPS || i + 1 == MAX_ITER) {
      RunKeepsZerosOf(Z, next, W, n, k, i + 1);
      assert Run(H, W, n, k, i) == [H] + Run(next, W, n, k, i + 1);
    }
  }

  /** One update from non-negative H and W keeps H's zero entries, and stays non-negative. */
  lemma UpdatedKeepsZeros(H: Matrix, W: Matrix, n: nat, k: nat)
    requires IsMatrix(H, n, k) && IsMatrix(W, n, n) && UpdateDefined(H, n, k)
    requires NonNegative(H) && NonNegative(W)
    ensures NonNegative(Updated(H, W, n, k)) && KeepsZeros(H, Updated(H, W, n, k), n, k)
  {
    UpdatedNonNegative(H, W, n, k);
  }

  /**
   * n = 2, k = 1, H = [[1], [1]], W = [[0, 1], [1, 0]]: W H = [[1], [1]] and
   * H H^T H = [[2], [2]], so one update gives [[0.75], [0.75]], at squared
   * distance 0.125 from H; the loop does not stop after that first update.
   */
  lemma TwoPointExample()
    ensures var H, W := [[1.0], [1.0]], [[0.0, 1.0], [1.0, 0.0]];
      && IsMatrix(H, 2, 1) && IsMatrix(W, 2, 2) && UpdateDefined(H, 2, 1)
      && Updated(H, W, 2, 1) == [[0.75], [0.75]]
      && Distance(Updated(H, W, 2, 1), H, 2, 1) == 0.125
      && Distance(Updated(H, W, 2, 1), H, 2, 1) >= EPS
  {
    TwoPointUpdate();
    TwoPointDistance();
  }

  /** The update of TwoPointExample, entry by entry. */
  lemma TwoPointUpdate()
    ensures var H, W := [[1.0], [1.0]], [[0.0, 1.0], [1.0, 0.0]];
      && IsMatrix(H, 2, 1) && IsMatrix(W, 2, 2) && UpdateDefined(H, 2, 1)
      && Updated(H, W, 2, 1) == [[0.75], [0.75]]
  {
    var H, W := [[1.0], [1.0]], [[0.0, 1.0], [1.0, 0.0]];
    TwoPointGram();
    TwoPointNumerator();
    var N := Updated(H, W, 2, 1);
    assert N[0] == [0.75] && N[1] == [0.75];
  }

  /** H H^T H for the H of TwoPointExample. */
  lemma TwoPointGram()
    ensures Gram3([[1.0], [1.0]], 2, 1) == [[2.0], [2.0]]
  {
    var H := [[1.0], [1.0]];
    var HT := Transpose(H, 2, 1);
    assert HT[0] == [1.0, 1.0];
    var HHT := Product(H, HT, 2, 1, 2);
    assert Dot(H, HT, 0, 0, 1) == H[0][0] * HT[0][0] == 1.0;
    assert Dot(H, HT, 0, 1, 1) == H[0][0] * HT[0][1] == 1.0;
    assert Dot(H, HT, 1, 0, 1) == H[1][0] * HT[0][0] == 1.0;
    assert Dot(H, HT, 1, 1, 1) == H[1][0] * HT[0][1] == 1.0;
    assert HHT[0] == [1.0, 1.0] && HHT[1] == [1.0, 1.0];
    var G := Gram3(H, 2, 1);
    assert Dot(HHT, H, 0, 0, 2) == 2.0 && Dot(HHT, H, 1, 0, 2) == 2.0;
    assert G[0] == [2.0] && G[1] == [2.0];
  }

  /** W H for the H and W of TwoPointExample. */
  lemma TwoPointNumerator()
    ensures Product([[0.0, 1.0], [1.0, 0.0]], [[1.0], [1.0]], 2, 2, 1) == [[1.0], [1.0]]
  {
    var H, W := [[1.0], [1.0]], [[0.0, 1.0], [1.0, 0.0]];
    var WH := Product(W, H, 2, 2, 1);
    assert Dot(W, H, 0, 0, 2) == 1.0 && Dot(W, H, 1, 0, 2) == 1.0;
    assert WH[0] == [1.0] && WH[1] == [1.0];
  }

  /** The distance of TwoPointExample's update from its start. */
  lemma TwoPointDistance()
    ensures Distance([[0.75], [0.75]], [[1.0], [1.0]], 2, 1) == 0.125
  {
    var N, H := [[0.75], [0.75]], [[1.0], [1.0]];
    var Df := Difference(N, H, 2, 1);
    assert Df[0] == [-0.25] && Df[1] == [-0.25];
    assert Square(-0.25) == 0.0625;
    assert RowSquares(Df[0], 1) == 0.0625 && RowSquares(Df[1], 1) == 0.0625;
    assert SquaredFrobenius(Df, 1, 1) == 0.0625;
  }
}
