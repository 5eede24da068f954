/**
 * Heap ownership of matrices: which buffers a piece of code still owns, and
 * the order in which it released buffers with free_matrix. Dafny has no
 * deallocation, so freeing is a ghost step on this ledger; a valid ledger
 * never frees a buffer twice and never keeps a freed buffer live.
 */
module Ownership {

  datatype Ledger = Ledger(live: set<array2<real>>, freed: seq<array2<real>>)
  {
    /** No buffer is freed twice, and no freed buffer is still live. */
    ghost predicate Valid()
    {
      && (forall p, q :: 0 <= p < q < |freed| ==> freed[p] != freed[q])
      && (forall p :: 0 <= p < |freed| ==> freed[p] !in live)
    }
  }

  /** A newly allocated buffer becomes live; it was never live or freed before. */
  ghost function Allocate(l: Ledger, a: array2<real>): (r: Ledger)
    requires l.Valid() && a !in l.live && a !in l.freed
    ensures r.Valid()
    ensures r.live == l.live + {a} && r.freed == l.freed
  {
    Ledger(l.live + {a}, l.freed)
  }

  /**
   * free_matrix(A, rows): releases every row and then the row table, so the
   * count passed must be the buffer's row count. Only a live buffer may be
   * freed; afterwards it is no longer live and is recorded once as freed.
   */
  ghost function FreeMatrix(l: Ledger, a: array2<real>, rows: nat): (r: Ledger)
    requires l.Valid() && a in l.live && rows == a.Length0
    ensures r.Valid()
    ensures a !in r.live && a in r.freed
    ensures r.live == l.live - {a} && r.freed == l.freed + [a]
  {
    Ledger(l.live - {a}, l.freed + [a])
  }

  /**
   * The buffers of a replacement loop started from `owned`, in which buffer
   * `first` was replaced in turn by the buffers of `chain`: the loop owns
   * what the caller owned, less `first`, plus chain[m], and it has freed
   * chain[0], ..., chain[m - 1] in order.
   */
  ghost predicate Holding(l: Ledger, owned: Ledger, chain: seq<array2<real>>, m: nat)
    requires m < |chain|
  {
    && l.Valid()
    && l.live == owned.live - {chain[0]} + {chain[m]}
    && l.freed == owned.freed + chain[..m]
  }

  /**
   * One replacement: allocating a buffer that was never owned nor freed,
   * then freeing the buffer it replaces, extends the chain by that buffer.
   */
  lemma Replace(l: Ledger, owned: Ledger, chain: seq<array2<real>>, m: nat, b: array2<real>)
    requires m + 1 == |chain| && Holding(l, owned, chain, m)
    requires chain[m] == chain[0] || chain[m] !in owned.live
    requires b !in owned.live && b !in owned.freed && b !in chain
    ensures b !in l.live && b !in l.freed
    ensures chain[m] in Allocate(l, b).live
    ensures Holding(FreeMatrix(Allocate(l, b), chain[m], chain[m].Length0), owned, chain + [b], m + 1)
  {
    var l2 := FreeMatrix(Allocate(l, b), chain[m], chain[m].Length0);
    assert (chain + [b])[..m + 1] == chain[..m] + [chain[m]];
    assert l2.live == owned.live - {chain[0]} + {b};
  }

  /**
   * In a replacement loop that has freed chain[0], ..., chain[m - 1] and
   * still owns chain[m], the buffers of the chain are pairwise distinct:
   * none was freed twice, and the one still owned was never freed.
   */
  lemma HoldingDistinct(l: Ledger, owned: Ledger, chain: seq<array2<real>>, m: nat)
    requires m + 1 == |chain| && Holding(l, owned, chain, m)
    ensures forall p, q :: 0 <= p < q < |chain| ==> chain[p] != chain[q]
  {
    forall p, q | 0 <= p < q < |chain|
      ensures chain[p] != chain[q]
    {
      assert chain[p] == l.freed[|owned.freed| + p];
      if q < m {
        assert chain[q] == l.freed[|owned.freed| + q];
      } else {
        assert chain[q] in l.live;
      }
    }
  }

  /** A buffer the caller owned that is not the first of the chain stays live. */
  lemma HoldingKeeps(l: Ledger, owned: Ledger, chain: seq<array2<real>>, m: nat, a: array2<real>)
    requires m < |chain| && Holding(l, owned, chain, m)
    requires a in owned.live && a != chain[0]
    ensures a in l.live
  {
  }
}
