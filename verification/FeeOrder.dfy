/** The order of package candidates (src/miner.h, src/txmempool.h): by fee rate, and by id among equals. */
module FeeOrder {
  import opened Mempool
  import opened Packages

  /** One candidate with its totals comes before another. Rates are compared by multiplying out. */
  predicate Better(t: Tx, a: Modified, u: Tx, b: Modified) {
    var f1, f2 := b.size * a.modFees, a.size * b.modFees;
    if f1 == f2 then t < u else f1 > f2
  }

  /** The totals that the pool has for a transaction with its ancestors. */
  function PoolTotals(pool: Pool, t: Tx): Modified
    requires t in pool.entries
  {
    var e := pool.entries[t];
    Modified(e.sizeWithAncestors, e.modFeesWithAncestors, e.sigOpsWithAncestors)
  }

  /** Among candidates of positive size this is a total order by rate. */
  lemma BetterIsRate(t: Tx, a: Modified, u: Tx, b: Modified)
    requires a.size > 0 && b.size > 0
    ensures
      var ra, rb := a.modFees as real / a.size as real, b.modFees as real / b.size as real;
      Better(t, a, u, b) <==> ra > rb || (ra == rb && t < u)
  {
    var x, y := a.modFees as real, b.modFees as real;
    var p, q := a.size as real, b.size as real;
    RateOrder(x, p, y, q);
    assert (b.size * a.modFees) as real == q * x && (a.size * b.modFees) as real == p * y;
  }

  lemma RateOrder(x: real, p: real, y: real, q: real)
    requires p > 0.0 && q > 0.0
    ensures x / p > y / q <==> q * x > p * y
    ensures x / p == y / q <==> q * x == p * y
  {
    var r, s := x / p, y / q;
    assert r * p == x && s * q == y;
    Scaled(r, s, p * q);
    assert q * x == r * (p * q) && p * y == s * (p * q);
  }

  lemma Scaled(r: real, s: real, k: real)
    requires k > 0.0
    ensures r > s <==> r * k > s * k
    ensures r == s <==> r * k == s * k
  {
  }

  /** What is no better than something no better than a third is no better than that. */
  lemma NoBetter(t: Tx, a: Modified, u: Tx, b: Modified, v: Tx, c: Modified)
    requires a.size > 0 && b.size > 0 && c.size > 0
    requires !Better(u, b, t, a) && !Better(v, c, u, b)
    ensures !Better(v, c, t, a)
  {
    BetterIsRate(u, b, t, a);
    BetterIsRate(v, c, u, b);
    BetterIsRate(v, c, t, a);
  }

  /** The index of the pool: every transaction once, the best first. */
  ghost predicate IsIndex(pool: Pool, byScore: seq<Tx>) {
    && (forall t :: t in byScore <==> t in pool.entries)
    && (forall i, j :: 0 <= i < j < |byScore| ==>
          byScore[i] != byScore[j]
          && !Better(byScore[j], PoolTotals(pool, byScore[j]), byScore[i], PoolTotals(pool, byScore[i])))
  }

  /** The best entry of the map. */
  method BestModified(mod: ModMap) returns (best: Tx)
    requires mod != map[] && forall t :: t in mod ==> mod[t].size > 0
    ensures best in mod && forall u :: u in mod ==> !Better(u, mod[u], best, mod[best])
  {
    best :| best in mod;
    var rest := mod.Keys - {best};
    while rest != {}
      invariant best in mod && rest <= mod.Keys
      invariant forall u :: u in mod && u !in rest ==> !Better(u, mod[u], best, mod[best])
      decreases rest
    {
      var t :| t in rest;
      if Better(t, mod[t], best, mod[best]) {
        forall u | u in mod && u !in rest
          ensures !Better(u, mod[u], t, mod[t])
        {
          BetterOne(t, mod[t], best, mod[best]);
          NoBetter(t, mod[t], best, mod[best], u, mod[u]);
        }
        best := t;
      }
      rest := rest - {t};
    }
  }

  lemma BetterOne(t: Tx, a: Modified, u: Tx, b: Modified)
    requires Better(t, a, u, b)
    ensures !Better(u, b, t, a)
  {
  }
}
