/**
 * symnmf, the factorization loop of symnmf.c, on heap buffers: it computes
 * the iterates that Factorization.Run defines, and it frees each superseded
 * iterate exactly once, as a ghost Ownership.Ledger records.
 */
module Driver {
  import opened MatrixAlgebra
  import opened Factorization
  import opened Primitives
  import opened Ownership
  import opened Pipeline

  /**
   * One pass of symnmf's loop: next_H from update_H, and its distance to
   * current_H, which decides whether the run stops here. The new buffer is
   * one the caller neither owned nor freed.
   */
  method Advance(current: array2<real>, W: array2<real>, n: nat, k: nat, ghost hs: seq<Matrix>, ghost i: nat,
                 ghost owned: Ledger, ghost iterates: seq<array2<real>>, ghost ledger: Ledger)
    returns (next: array2<real>, distance: real)
    requires current.Length0 == n && current.Length1 == k && W.Length0 == n && W.Length1 == n
    requires Shaped(hs, n, k) && Trace(hs, Contents(W), n, k, 0)
    requires i < |hs| - 1 && Contents(current) == hs[i]
    requires |iterates| == i + 1 && iterates[i] == current && Holding(ledger, owned, iterates, i)
    requires current == iterates[0] || current !in owned.live
    requires current in ledger.live && W in ledger.live
    ensures fresh(next) && next.Length0 == n && next.Length1 == k
    ensures Contents(next) == hs[i + 1]
    ensures distance < EPS ==> i + 2 == |hs|
    ensures distance >= EPS ==> i + 2 < |hs| || i + 1 == MAX_ITER
    ensures next !in owned.live && next !in owned.freed && next !in iterates
    ensures Holding(FreeMatrix(Allocate(ledger, next), current, n), owned, iterates + [next], i + 1)
  {
    assert UpdateStep(hs, Contents(W), n, k, i);
    next := UpdateH(current, W, n, k);
    Replace(ledger, owned, iterates, i, next);
    distance := FrobDistance(next, current, n, k);
    if i < |hs| - 2 {
      assert Moved(hs, n, k, i);
    }
  }

  /**
   * The loop of symnmf, up to the point where it is left, on the iterates hs
   * it computes: `next` is the last update and `iterates` lists the buffers
   * of H0 and of every update. When the loop was left by its break
   * (i < MAX_ITER), `current` is the iterate `next` came from and is still
   * live; otherwise it is `next` itself.
   */
  method Iterate(H0: array2<real>, W: array2<real>, n: nat, k: nat, ghost hs: seq<Matrix>, ghost owned: Ledger)
    returns (current: array2<real>, next: array2<real>, i: nat,
             ghost iterates: seq<array2<real>>, ghost ledger: Ledger)
    requires H0.Length0 == n && H0.Length1 == k && W.Length0 == n && W.Length1 == n
    requires Shaped(hs, n, k) && Trace(hs, Contents(W), n, k, 0) && hs[0] == Contents(H0)
    requires owned.Valid() && H0 in owned.live && W in owned.live && W != H0
    ensures |iterates| == |hs| && Contents(next) == hs[|hs| - 1]
    ensures iterates[0] == H0 && next == iterates[|iterates| - 1]
    ensures next.Length0 == n && next.Length1 == k && current.Length0 == n
    ensures i <= MAX_ITER
    ensures i < MAX_ITER ==>
      && |iterates| == i + 2 && current == iterates[i]
      && ledger.Valid() && current in ledger.live && Holding(FreeMatrix(ledger, current, n), owned, iterates, i + 1)
    ensures i == MAX_ITER ==> |iterates| == i + 1 && Holding(ledger, owned, iterates, i) && current == next
    ensures next !in owned.live && next !in owned.freed
  {
    i := 0;
    current := H0;
    next := H0;
    iterates := [H0];
    ledger := owned;
    assert iterates[..0] == [];
    while i < MAX_ITER
      invariant Trace(hs, Contents(W), n, k, 0)
      invariant i <= MAX_ITER && i < |hs| && (i < MAX_ITER ==> i < |hs| - 1)
      invariant current.Length0 == n && current.Length1 == k && Contents(current) == hs[i]
      invariant i == MAX_ITER ==> next == current
      invariant |iterates| == i + 1 && iterates[0] == H0 && iterates[i] == current
      invariant current == H0 || current !in owned.live
      invariant i > 0 ==> current !in owned.live && current !in owned.freed
      invariant Holding(ledger, owned, iterates, i)
    {
      var distance;
      next, distance := Advance(current, W, n, k, hs, i, owned, iterates, ledger);
      ledger := Allocate(ledger, next);
      iterates := iterates + [next];
      if distance < EPS {
        return;
      }
      ledger := FreeMatrix(ledger, current, n);
      current := next;
      i := i + 1;
    }
  }

  /**
   * symnmf: repeats update_H from H0 until an update lands within EPS of the
   * iterate it came from, or MAX_ITER updates have been made, and returns
   * the last update. `iterates` lists the buffers of H0 and of every update
   * in order; `owned` and `ledger` are the caller's buffers before and after:
   * every iterate but the last, H0 included, is freed once and in order, and
   * the returned buffer stays live.
   */
  method SymNmf(H0: array2<real>, W: array2<real>, n: nat, k: nat, ghost owned: Ledger)
    returns (result: array2<real>, ghost iterates: seq<array2<real>>, ghost ledger: Ledger)
    requires H0.Length0 == n && H0.Length1 == k && W.Length0 == n && W.Length1 == n
    requires RunDefined(Contents(H0), Contents(W), n, k, 0)
    requires owned.Valid() && H0 in owned.live && W in owned.live && W != H0
    ensures var hs := Run(old(Contents(H0)), old(Contents(W)), n, k, 0);
      |iterates| == |hs| && Contents(result) == hs[|hs| - 1]
    ensures iterates[0] == H0 && result == iterates[|iterates| - 1]
    ensures result.Length0 == n && result.Length1 == k
    ensures Holding(ledger, owned, iterates, |iterates| - 1) && W in ledger.live
    ensures result !in owned.live && result !in owned.freed
  {
    var current, next, i;
    ghost var H, Wm := Contents(H0), Contents(W);
    ghost var hs := Run(H, Wm, n, k, 0);
    RunIsTrace(H, Wm, n, k, 0);
    current, next, i, iterates, ledger := Iterate(H0, W, n, k, hs, owned);
    if i < MAX_ITER {
      ledger := FreeMatrix(ledger, current, n);
      assert Holding(ledger, owned, iterates, i + 1);
    } else {
      assert Holding(ledger, owned, iterates, i);
    }
    HoldingKeeps(ledger, owned, iterates, |iterates| - 1, W);
    result := next;
  }
}
