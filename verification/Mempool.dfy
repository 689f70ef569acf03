/** The memory pool as the block assembler sees it: a finite acyclic graph of transactions with
    ancestor sets and the totals the pool caches for them (src/miner.cpp, src/miner.h). */
module Mempool {
  import opened Common

  type Tx = nat

  /** A transaction in the pool, with the totals over itself and its ancestors that the pool caches. */
  datatype Entry = Entry(
    size: nat,
    sigOps: nat,
    fee: int,
    modFee: int,
    parents: set<Tx>,
    countWithAncestors: nat,
    sizeWithAncestors: nat,
    sigOpsWithAncestors: nat,
    modFeesWithAncestors: int)

  /** `ancestors` are the proper in-pool ancestors of each transaction. */
  datatype Pool = Pool(entries: map<Tx, Entry>, ancestors: map<Tx, set<Tx>>) {

    /** The ancestor sets are the transitive closure of the parent sets, no transaction is its own ancestor, and
        none is empty. */
    ghost predicate Valid() {
      && ancestors.Keys == entries.Keys
      && (forall t :: t in entries ==>
            t !in ancestors[t] && ancestors[t] <= entries.Keys && entries[t].parents <= ancestors[t])
      && (forall t, p :: t in entries && p in entries[t].parents ==> p in entries && ancestors[p] <= ancestors[t])
      && (forall t, a :: t in entries && a in ancestors[t] ==>
            a in entries[t].parents || exists p :: p in entries[t].parents && p in entries && a in ancestors[p])
      && (forall t :: t in entries ==> entries[t].size > 0 && TotalsExact(t))
    }

    /** The pool's cached totals are right; how the pool keeps them so is not modelled. */
    ghost predicate TotalsExact(t: Tx)
      requires t in ancestors && t in entries
    {
      Package(t) <= entries.Keys ==>
        && entries[t].countWithAncestors == |ancestors[t]| + 1
        && entries[t].sizeWithAncestors == Size(Package(t))
        && entries[t].sigOpsWithAncestors == SigOps(Package(t))
        && entries[t].modFeesWithAncestors == ModFees(Package(t))
    }

    function Package(t: Tx): set<Tx>
      requires t in ancestors
    {
      ancestors[t] + {t}
    }

    function Descendants(t: Tx): set<Tx> {
      set d | d in ancestors && (d == t || t in ancestors[d])
    }

    function Children(t: Tx): set<Tx> {
      set c | c in entries && t in entries[c].parents
    }

    ghost function Size(s: set<Tx>): nat
      requires s <= entries.Keys
    {
      if s == {} then 0 else var t :| t in s; entries[t].size + Size(s - {t})
    }

    ghost function SigOps(s: set<Tx>): nat
      requires s <= entries.Keys
    {
      if s == {} then 0 else var t :| t in s; entries[t].sigOps + SigOps(s - {t})
    }

    ghost function ModFees(s: set<Tx>): int
      requires s <= entries.Keys
    {
      if s == {} then 0 else var t :| t in s; entries[t].modFee + ModFees(s - {t})
    }

    /** By how much the fees of one transaction differ before and after prioritisation. */
    function Delta(t: Tx): nat
      requires t in entries
    {
      if entries[t].fee <= entries[t].modFee then entries[t].modFee - entries[t].fee else entries[t].fee - entries[t].modFee
    }

    ghost function Deltas(s: set<Tx>): nat
      requires s <= entries.Keys
    {
      if s == {} then 0 else var t :| t in s; Delta(t) + Deltas(s - {t})
    }

    lemma {:induction false} ModFeesRemove(s: set<Tx>, t: Tx)
      requires s <= entries.Keys && t in s
      ensures ModFees(s) == entries[t].modFee + ModFees(s - {t})
      decreases |s|
    {
      var u :| u in s && ModFees(s) == entries[u].modFee + ModFees(s - {u});
      if u != t {
        ModFeesRemove(s - {u}, t);
        ModFeesRemove(s - {t}, u);
        assert s - {u} - {t} == s - {t} - {u};
      }
    }

    lemma {:induction false} DeltasRemove(s: set<Tx>, t: Tx)
      requires s <= entries.Keys && t in s
      ensures Deltas(s) == Delta(t) + Deltas(s - {t})
      decreases |s|
    {
      var u :| u in s && Deltas(s) == Delta(u) + Deltas(s - {u});
      if u != t {
        DeltasRemove(s - {u}, t);
        DeltasRemove(s - {t}, u);
        assert s - {u} - {t} == s - {t} - {u};
      }
    }

    lemma {:induction false} SizeRemove(s: set<Tx>, t: Tx)
      requires s <= entries.Keys && t in s
      ensures Size(s) == entries[t].size + Size(s - {t})
      decreases |s|
    {
      var u :| u in s && Size(s) == entries[u].size + Size(s - {u});
      if u != t {
        SizeRemove(s - {u}, t);
        SizeRemove(s - {t}, u);
        assert s - {u} - {t} == s - {t} - {u};
      }
    }

    lemma {:induction false} SigOpsRemove(s: set<Tx>, t: Tx)
      requires s <= entries.Keys && t in s
      ensures SigOps(s) == entries[t].sigOps + SigOps(s - {t})
      decreases |s|
    {
      var u :| u in s && SigOps(s) == entries[u].sigOps + SigOps(s - {u});
      if u != t {
        SigOpsRemove(s - {u}, t);
        SigOpsRemove(s - {t}, u);
        assert s - {u} - {t} == s - {t} - {u};
      }
    }

    lemma {:induction false} SumsRemove(s: set<Tx>, t: Tx)
      requires s <= entries.Keys && t in s
      ensures Size(s) == entries[t].size + Size(s - {t})
      ensures SigOps(s) == entries[t].sigOps + SigOps(s - {t})
    {
      SizeRemove(s, t);
      SigOpsRemove(s, t);
    }

    lemma {:induction false} SumsMonotone(a: set<Tx>, b: set<Tx>)
      requires a <= b && b <= entries.Keys
      ensures Size(a) <= Size(b) && SigOps(a) <= SigOps(b)
      decreases |b|
    {
      if t :| t in b && t !in a {
        SumsRemove(b, t);
        SumsMonotone(a, b - {t});
      } else {
        assert a == b;
      }
    }

    lemma Totals(t: Tx)
      requires Valid() && t in entries
      ensures t in ancestors && Package(t) <= entries.Keys && t !in ancestors[t]
      ensures entries[t].countWithAncestors == |ancestors[t]| + 1
      ensures entries[t].sizeWithAncestors == Size(Package(t))
      ensures entries[t].sigOpsWithAncestors == SigOps(Package(t))
      ensures entries[t].modFeesWithAncestors == ModFees(Package(t))
    {
      assert TotalsExact(t);
    }

    /** Ancestors of ancestors are ancestors. */
    lemma {:induction false} AncestorsTransitive(t: Tx, a: Tx)
      requires Valid() && t in entries && a in ancestors[t]
      ensures a in entries && ancestors[a] <= ancestors[t]
      decreases |ancestors[t]|
    {
      if a !in entries[t].parents {
        var p :| p in entries[t].parents && p in entries && a in ancestors[p];
        FewerAncestors(t, p);
        AncestorsTransitive(p, a);
      }
    }

    lemma FewerAncestors(t: Tx, p: Tx)
      requires Valid() && t in entries && p in entries[t].parents
      ensures p in entries && |ancestors[p]| < |ancestors[t]|
    {
      assert ancestors[p] <= ancestors[t] - {p};
      SubsetSize(ancestors[p], ancestors[t] - {p});
    }
  }
}
