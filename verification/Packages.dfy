/** The ancestor totals that package selection keeps up to date while transactions are included
    (src/miner.cpp, src/miner.h). */
module Packages {
  import opened Mempool

  datatype Modified = Modified(size: int, modFees: int, sigOps: int)

  type ModMap = map<Tx, Modified>

  /** The totals of an entry for its package without `done`: size and signature operations exactly, and the
      fees up to the prioritisation of the transactions in `done`. */
  ghost predicate TotalsFor(pool: Pool, t: Tx, done: set<Tx>, e: Modified)
    requires t in pool.ancestors && pool.Package(t) <= pool.entries.Keys && done <= pool.entries.Keys
  {
    var rest := pool.Package(t) - done;
    && e.size == pool.Size(rest) && e.sigOps == pool.SigOps(rest)
    && pool.ModFees(rest) - pool.Deltas(done) <= e.modFees <= pool.ModFees(rest) + pool.Deltas(done)
  }

  /** The ancestors that were taken off a package: some that are in the block, and all of them unless the
      candidate failed before. */
  ghost predicate TakenOff(pool: Pool, block: set<Tx>, failed: set<Tx>, t: Tx, done: set<Tx>)
    requires t in pool.ancestors
  {
    done <= pool.Package(t) * block && (t !in failed ==> done == pool.Package(t) * block)
  }

  /** An entry of the map has the totals of its package without some ancestors, at least one. */
  ghost predicate TotalsOk(pool: Pool, block: set<Tx>, failed: set<Tx>, t: Tx, e: Modified)
    requires t in pool.ancestors && pool.Package(t) <= pool.entries.Keys
  {
    exists done :: done != {} && TakenOff(pool, block, failed, t, done) && TotalsFor(pool, t, done, e)
  }

  /** Entries in the map have right totals for the given block; any other candidate has no ancestor
      in the block, so that the pool's own totals are right for it. Transactions in `adding` are
      about to be included. */
  ghost predicate Cached(pool: Pool, block: set<Tx>, adding: set<Tx>, failed: set<Tx>, mod: ModMap)
    requires pool.Valid()
  {
    && mod.Keys <= pool.entries.Keys - block - adding
    && (forall t :: t in mod ==> TotalsOk(pool, block, failed, t, mod[t]))
    && (forall t :: t in pool.entries && t !in mod && t !in block && t !in adding && t !in failed ==>
          pool.ancestors[t] !! block)
  }

  ghost predicate Closed(pool: Pool, block: set<Tx>) {
    forall t :: t in block ==> t in pool.ancestors && pool.ancestors[t] <= block
  }

  /** What including `it` does to the entry of one of its descendants. An entry that is not in the map
      yet starts from the pool's totals. */
  function Lowered(pool: Pool, mod: ModMap, it: Tx, d: Tx): Modified
    requires it in pool.entries && d in pool.entries
  {
    var i, e := pool.entries[it], pool.entries[d];
    if d in mod then
      Modified(mod[d].size - i.size, mod[d].modFees - i.fee, mod[d].sigOps - i.sigOps)
    else
      Modified(e.sizeWithAncestors - i.size, e.modFeesWithAncestors - i.modFee, e.sigOpsWithAncestors - i.sigOps)
  }

  ghost predicate IsUpdate(pool: Pool, mod: ModMap, mod': ModMap, targets: set<Tx>, it: Tx)
    requires pool.Valid() && it in pool.entries && targets <= pool.entries.Keys
  {
    && mod'.Keys == mod.Keys + targets
    && (forall d :: d in targets ==> mod'[d] == Lowered(pool, mod, it, d))
    && (forall d :: d in mod && d !in targets ==> mod'[d] == mod[d])
  }

  lemma TotalsNext(pool: Pool, block: set<Tx>, failed: set<Tx>, mod: ModMap, it: Tx, d: Tx)
    requires pool.Valid() && it in pool.entries && d in pool.entries && it in pool.ancestors[d]
    requires it !in block
    requires if d in mod then TotalsOk(pool, block, failed, d, mod[d])
             else d in failed || pool.Package(d) !! block
    ensures TotalsOk(pool, block + {it}, failed, d, Lowered(pool, mod, it, d))
  {
    hide Pool.Valid, Pool.Size, Pool.SigOps, Pool.ModFees, Pool.Deltas, TotalsFor;
    pool.Totals(d);
    var done: set<Tx> := {};
    if d in mod {
      done :| done != {} && TakenOff(pool, block, failed, d, done) && TotalsFor(pool, d, done, mod[d]);
    } else {
      NothingTaken(pool, block, failed, d);
    }
    TakenMore(pool, block, failed, d, done, it);
    LoweredFor(pool, mod, it, d, done);
  }

  lemma NothingTaken(pool: Pool, block: set<Tx>, failed: set<Tx>, d: Tx)
    requires d in pool.ancestors && (d in failed || pool.Package(d) !! block)
    ensures TakenOff(pool, block, failed, d, {})
  {
  }

  lemma TakenMore(pool: Pool, block: set<Tx>, failed: set<Tx>, d: Tx, done: set<Tx>, it: Tx)
    requires d in pool.ancestors && TakenOff(pool, block, failed, d, done) && it in pool.Package(d) && it !in block
    ensures TakenOff(pool, block + {it}, failed, d, done + {it}) && it !in done && done <= pool.Package(d)
  {
  }

  lemma LoweredFor(pool: Pool, mod: ModMap, it: Tx, d: Tx, done: set<Tx>)
    requires pool.Valid() && it in pool.entries && d in pool.entries && it in pool.Package(d)
    requires it !in done && done <= pool.entries.Keys
    requires if d in mod then TotalsFor(pool, d, done, mod[d]) else done == {}
    ensures TotalsFor(pool, d, done + {it}, Lowered(pool, mod, it, d))
  {
    hide Pool.Valid, Pool.Size, Pool.SigOps, Pool.ModFees, Pool.Deltas;
    pool.Totals(d);
    NoDeltas(pool);
    assert pool.Package(d) - {} == pool.Package(d);
    RestNext(pool, pool.Package(d), done, it);
  }

  lemma NoDeltas(pool: Pool)
    ensures pool.Deltas({}) == 0
  {
  }

  lemma RestNext(pool: Pool, all: set<Tx>, done: set<Tx>, it: Tx)
    requires all <= pool.entries.Keys && done <= pool.entries.Keys && it in all && it !in done
    ensures pool.Size(all - (done + {it})) == pool.Size(all - done) - pool.entries[it].size
    ensures pool.SigOps(all - (done + {it})) == pool.SigOps(all - done) - pool.entries[it].sigOps
    ensures pool.ModFees(all - (done + {it})) == pool.ModFees(all - done) - pool.entries[it].modFee
    ensures pool.Deltas(done + {it}) == pool.Deltas(done) + pool.Delta(it)
  {
    pool.SumsRemove(all - done, it);
    pool.ModFeesRemove(all - done, it);
    pool.DeltasRemove(done + {it}, it);
    assert all - done - {it} == all - (done + {it});
    assert done + {it} - {it} == done;
  }

  lemma TotalsSame(pool: Pool, block: set<Tx>, failed: set<Tx>, it: Tx, t: Tx, e: Modified)
    requires pool.Valid() && t in pool.entries && TotalsOk(pool, block, failed, t, e) && it !in pool.Package(t)
    ensures TotalsOk(pool, block + {it}, failed, t, e)
  {
    var done :| done != {} && TakenOff(pool, block, failed, t, done) && TotalsFor(pool, t, done, e);
    assert pool.Package(t) * (block + {it}) == pool.Package(t) * block;
    assert TakenOff(pool, block + {it}, failed, t, done);
  }

  /** Lowering all descendants of one included transaction keeps every total right. */
  lemma UpdateKeeps(pool: Pool, before: set<Tx>, block: set<Tx>, adding: set<Tx>, failed: set<Tx>,
                    mod: ModMap, mod': ModMap, it: Tx)
    requires pool.Valid() && Closed(pool, before) && before <= block && block <= before + adding
    requires adding <= pool.entries.Keys && it in adding && it !in block
    requires Cached(pool, block, adding, failed, mod)
    requires IsUpdate(pool, mod, mod', pool.Descendants(it) - adding, it)
    ensures Cached(pool, block + {it}, adding, failed, mod')
  {
    hide Pool.Valid, TotalsOk;
    var targets := pool.Descendants(it) - adding;
    forall t | t in mod'
      ensures t in pool.ancestors && pool.Package(t) <= pool.entries.Keys
      ensures t in pool.entries && t !in block + {it} && t !in adding
      ensures TotalsOk(pool, block + {it}, failed, t, mod'[t])
    {
      KnownPackage(pool, t);
      if t in targets {
        TargetFits(pool, before, block, adding, failed, mod, it, t);
        TotalsNext(pool, block, failed, mod, it, t);
      } else {
        NoTarget(pool, it, t);
        TotalsSame(pool, block, failed, it, t, mod[t]);
      }
    }
    forall t | t in pool.entries && t !in mod' && t !in block + {it} && t !in adding && t !in failed
      ensures t in pool.ancestors && pool.ancestors[t] !! block + {it}
    {
      NoTarget(pool, it, t);
    }
  }

  lemma KnownPackage(pool: Pool, t: Tx)
    requires pool.Valid()
    ensures t in pool.entries || t in pool.ancestors ==>
              t in pool.entries && t in pool.ancestors && pool.Package(t) <= pool.entries.Keys
  {
  }

  lemma NoTarget(pool: Pool, it: Tx, t: Tx)
    requires pool.Valid() && t in pool.entries && t !in pool.Descendants(it)
    ensures t in pool.ancestors && it !in pool.Package(t)
  {
  }

  lemma TargetFits(pool: Pool, before: set<Tx>, block: set<Tx>, adding: set<Tx>, failed: set<Tx>, mod: ModMap, it: Tx,
                   d: Tx)
    requires pool.Valid() && Closed(pool, before) && block <= before + adding && it in adding && it !in block
    requires before <= block
    requires Cached(pool, block, adding, failed, mod) && d in pool.Descendants(it) && d !in adding
    ensures d in pool.entries && it in pool.ancestors[d] && d !in block
    ensures d in mod || d in failed || pool.Package(d) !! block
  {
    hide TotalsOk;
    assert d in before ==> it in before;
  }

  /** A candidate from the pool that was skipped over by nothing so far: the pool's totals are exact. */
  lemma PoolTotalsExact(pool: Pool, block: set<Tx>, failed: set<Tx>, mod: ModMap, t: Tx)
    requires pool.Valid() && Cached(pool, block, {}, failed, mod)
    requires t in pool.entries && t !in mod && t !in block && t !in failed
    ensures pool.Package(t) - block == pool.Package(t)
  {
  }
}
