/** The block assembler (src/miner.cpp): selection by priority and by package, with the block's
    running totals. */
module Miner {
  import opened Common
  import opened Mempool
  import opened Packages
  import opened FeeOrder

  /** What the assembler takes from the node's configuration, the chain and the pool: `priority` is that of a
      transaction at the block's height, and `byScore` is the pool in the order of its ancestor-score index. */
  datatype Config = Config(
    nMaxGeneratedBlockSize: nat,
    nBlockPriorityPercentage: nat,
    maxSigOps: int -> int,
    minFee: int -> int,
    isFinal: Tx -> bool,
    priority: Tx -> real,
    byScore: seq<Tx>)

  /** A transaction of so high a priority that it needs no fee. */
  predicate AllowFree(config: Config, t: Tx) {
    config.priority(t) > 57_600_000.0
  }

  /** The part of the block that is for priority transactions. */
  function PrioritySize(config: Config): int {
    config.nMaxGeneratedBlockSize * config.nBlockPriorityPercentage / 100
  }

  // ---------------------------------------------------------------- the block as a list

  function SeqSize(pool: Pool, s: seq<Tx>): nat
    requires forall t :: t in s ==> t in pool.entries
  {
    if s == [] then 0 else SeqSize(pool, s[..|s| - 1]) + pool.entries[s[|s| - 1]].size
  }

  function SeqSigOps(pool: Pool, s: seq<Tx>): nat
    requires forall t :: t in s ==> t in pool.entries
  {
    if s == [] then 0 else SeqSigOps(pool, s[..|s| - 1]) + pool.entries[s[|s| - 1]].sigOps
  }

  function SeqFees(pool: Pool, s: seq<Tx>): int
    requires forall t :: t in s ==> t in pool.entries
  {
    if s == [] then 0 else SeqFees(pool, s[..|s| - 1]) + pool.entries[s[|s| - 1]].fee
  }

  function Elems(s: seq<Tx>): set<Tx> {
    set t | t in s
  }

  lemma ElemsAppend(s: seq<Tx>, t: Tx)
    ensures Elems(s + [t]) == Elems(s) + {t}
  {
  }

  /** Every prefix of the list contains the parents of its members. */
  ghost predicate ParentsFirst(pool: Pool, s: seq<Tx>) {
    forall i :: 0 <= i < |s| ==>
      s[i] in pool.entries && forall p :: p in pool.entries[s[i]].parents ==> p in s[..i]
  }

  /** The running totals of a block template against its list of transactions. */
  datatype Template = Template(
    vtx: seq<Tx>,
    vTxFees: seq<int>,
    vTxSigOpsCount: seq<int>,
    nBlockSize: nat,
    nBlockTx: nat,
    nBlockSigOps: nat,
    nFees: int,
    inBlock: set<Tx>)

  ghost predicate TemplateOk(pool: Pool, b: Template) {
    && NoRepeats(b.vtx) && ParentsFirst(pool, b.vtx)
    && b.inBlock == Elems(b.vtx) && (forall t :: t in b.vtx ==> t in pool.entries)
    && b.nBlockTx == |b.vtx| && b.nFees == SeqFees(pool, b.vtx)
    && b.nBlockSize == 1000 + SeqSize(pool, b.vtx) && b.nBlockSigOps == 100 + SeqSigOps(pool, b.vtx)
    && |b.vTxFees| == |b.vTxSigOpsCount| == |b.vtx|
    && forall i :: 0 <= i < |b.vtx| ==>
         b.vTxFees[i] == pool.entries[b.vtx[i]].fee && b.vTxSigOpsCount[i] == pool.entries[b.vtx[i]].sigOps
  }

  function Extended(pool: Pool, b: Template, t: Tx): Template
    requires t in pool.entries
  {
    var e := pool.entries[t];
    Template(b.vtx + [t], b.vTxFees + [e.fee], b.vTxSigOpsCount + [e.sigOps], b.nBlockSize + e.size,
             b.nBlockTx + 1, b.nBlockSigOps + e.sigOps, b.nFees + e.fee, b.inBlock + {t})
  }

  lemma ExtendedOk(pool: Pool, b: Template, t: Tx)
    requires TemplateOk(pool, b) && t in pool.entries && t !in b.inBlock && pool.entries[t].parents <= b.inBlock
    ensures TemplateOk(pool, Extended(pool, b, t))
  {
    var c := Extended(pool, b, t);
    ElemsAppend(b.vtx, t);
    assert c.vtx[..|c.vtx| - 1] == b.vtx;
    AppendNew(b.vtx, t);
    ParentsStillFirst(pool, b.vtx, t);
    hide ParentsFirst, NoRepeats, Elems;
  }

  lemma AppendNew(s: seq<Tx>, t: Tx)
    requires NoRepeats(s) && t !in Elems(s)
    ensures NoRepeats(s + [t])
  {
  }

  lemma ParentsStillFirst(pool: Pool, s: seq<Tx>, t: Tx)
    requires ParentsFirst(pool, s) && t in pool.entries && pool.entries[t].parents <= Elems(s)
    ensures ParentsFirst(pool, s + [t])
  {
    var c := s + [t];
    forall i | 0 <= i < |c|
      ensures c[i] in pool.entries && forall p :: p in pool.entries[c[i]].parents ==> p in c[..i]
    {
      if i < |s| {
        assert c[..i] == s[..i];
      } else {
        assert c[..i] == s;
      }
    }
  }

  /** A block that contains the parents of its members contains their ancestors. */
  lemma ParentsFirstClosed(pool: Pool, b: Template)
    requires pool.Valid() && TemplateOk(pool, b)
    ensures Closed(pool, b.inBlock)
  {
    forall i | 0 <= i < |b.vtx|
      ensures pool.ancestors[b.vtx[i]] <= b.inBlock
    {
      AncestorsBefore(pool, b, i);
    }
  }

  lemma {:induction false} AncestorsBefore(pool: Pool, b: Template, i: int)
    requires pool.Valid() && TemplateOk(pool, b) && 0 <= i < |b.vtx|
    ensures b.vtx[i] in pool.ancestors && pool.ancestors[b.vtx[i]] <= b.inBlock
    decreases i
  {
    var t := b.vtx[i];
    forall a | a in pool.ancestors[t]
      ensures a in b.inBlock
    {
      if a in pool.entries[t].parents {
        assert a in b.vtx[..i];
      } else {
        var p :| p in pool.entries[t].parents && p in pool.entries && a in pool.ancestors[p];
        assert p in b.vtx[..i];
        var j :| 0 <= j < i && b.vtx[j] == p;
        AncestorsBefore(pool, b, j);
      }
    }
  }

  // ---------------------------------------------------------------- the order of a package

  ghost predicate SortedByCount(pool: Pool, s: seq<Tx>) {
    && (forall i :: 0 <= i < |s| ==> s[i] in pool.entries)
    && forall i, j :: 0 <= i < j < |s| ==>
         var ci, cj := pool.entries[s[i]].countWithAncestors, pool.entries[s[j]].countWithAncestors;
         ci < cj || (ci == cj && s[i] < s[j])
  }

  /** Sorting by ancestor count puts every ancestor before its descendants. */
  lemma SortedIsTopological(pool: Pool, s: seq<Tx>, i: int, p: Tx)
    requires pool.Valid() && SortedByCount(pool, s) && 0 <= i < |s| && p in s && p in pool.entries[s[i]].parents
    ensures p in s[..i]
  {
    var k :| 0 <= k < |s| && s[k] == p;
    pool.FewerAncestors(s[i], p);
    pool.Totals(s[i]);
    pool.Totals(p);
  }

  /** The package in an order valid for the block: by ancestor count, ties by hash. */
  method SortForBlock(pool: Pool, package: set<Tx>) returns (sortedEntries: seq<Tx>)
    requires package <= pool.entries.Keys
    ensures NoRepeats(sortedEntries) && Elems(sortedEntries) == package
    ensures SortedByCount(pool, sortedEntries)
  {
    sortedEntries := [];
    var todo := package;
    while todo != {}
      invariant todo <= package && NoRepeats(sortedEntries)
      invariant Elems(sortedEntries) == package - todo
      invariant SortedByCount(pool, sortedEntries)
      invariant forall t, u :: t in sortedEntries && u in todo ==> CountBefore(pool, t, u)
      decreases todo
    {
      var t := FirstByCount(pool, todo);
      assert forall k :: 0 <= k < |sortedEntries| ==> CountBefore(pool, sortedEntries[k], t);
      ElemsAppend(sortedEntries, t);
      sortedEntries := sortedEntries + [t];
      todo := todo - {t};
    }
  }

  /** The comparator of the sort. */
  predicate CountBefore(pool: Pool, a: Tx, b: Tx)
    requires a in pool.entries && b in pool.entries
  {
    var ca, cb := pool.entries[a].countWithAncestors, pool.entries[b].countWithAncestors;
    if ca != cb then ca < cb else a < b
  }

  method FirstByCount(pool: Pool, s: set<Tx>) returns (first: Tx)
    requires s != {} && s <= pool.entries.Keys
    ensures first in s && forall u :: u in s && u != first ==> CountBefore(pool, first, u)
  {
    first :| first in s;
    var todo := s - {first};
    while todo != {}
      invariant first in s && todo <= s
      invariant forall u :: u in s && u !in todo && u != first ==> CountBefore(pool, first, u)
      decreases todo
    {
      var u :| u in todo;
      if CountBefore(pool, u, first) {
        first := u;
      }
      todo := todo - {u};
    }
  }

  // ---------------------------------------------------------------- keeping the totals

  /** Lowers the totals of every descendant of `it` that is not itself being added. */
  method UpdateDescendants(pool: Pool, it: Tx, alreadyAdded: set<Tx>, modIn: ModMap) returns (mod: ModMap)
    requires pool.Valid() && it in pool.entries
    ensures IsUpdate(pool, modIn, mod, pool.Descendants(it) - alreadyAdded, it)
  {
    mod := modIn;
    var todo := pool.Descendants(it);
    ghost var targets := todo - alreadyAdded;
    hide Pool.Valid;
    while todo != {}
      invariant todo <= pool.Descendants(it)
      invariant mod.Keys == modIn.Keys + (targets - todo)
      invariant forall d :: d in targets && d !in todo ==> d in pool.entries && mod[d] == Lowered(pool, modIn, it, d)
      invariant forall d :: d in modIn && (d in todo || d !in targets) ==> mod[d] == modIn[d]
      decreases todo
    {
      var desc :| desc in todo;
      todo := todo - {desc};
      if desc !in alreadyAdded {
        DescendantKnown(pool, it, desc);
        mod := mod[desc := Lowered(pool, mod, it, desc)];
      }
    }
  }

  lemma DescendantKnown(pool: Pool, it: Tx, d: Tx)
    requires pool.Valid() && d in pool.Descendants(it)
    ensures d in pool.entries
  {
  }

  /** Every candidate stays one, and every descendant of an included transaction becomes one. */
  ghost predicate NoneForgotten(pool: Pool, added: set<Tx>, modIn: ModMap, mod: ModMap) {
    modIn.Keys <= mod.Keys && forall d, a :: a in added && d in pool.Descendants(a) - added ==> d in mod
  }

  /** Totals that were right before `added` was included are right afterwards. */
  method UpdatePackagesForAdded(pool: Pool, added: set<Tx>, modIn: ModMap, ghost before: set<Tx>, ghost failed: set<Tx>)
      returns (mod: ModMap)
    requires pool.Valid() && added <= pool.entries.Keys && added !! before && Closed(pool, before)
    requires Cached(pool, before, added, failed, modIn)
    ensures Cached(pool, before + added, {}, failed, mod)
    ensures NoneForgotten(pool, added, modIn, mod)
  {
    mod := modIn;
    var todo := added;
    ghost var block := before;
    hide Pool.Valid, Cached;
    while todo != {}
      invariant todo <= added && block == before + (added - todo)
      invariant Cached(pool, block, added, failed, mod)
      invariant modIn.Keys <= mod.Keys
      invariant forall d, a :: a in added - todo && d in pool.Descendants(a) - added ==> d in mod
      decreases todo
    {
      var it :| it in todo;
      ghost var was := mod;
      mod := UpdateDescendants(pool, it, added, mod);
      UpdateKeeps(pool, before, block, added, failed, was, mod, it);
      todo := todo - {it};
      assert block + {it} == before + (added - todo);
      block := block + {it};
    }
    assert block == before + added;
    AllIncluded(pool, block, added, failed, mod);
  }

  lemma AllIncluded(pool: Pool, block: set<Tx>, added: set<Tx>, failed: set<Tx>, mod: ModMap)
    requires pool.Valid() && added <= block && Cached(pool, block, added, failed, mod)
    ensures Cached(pool, block, {}, failed, mod)
  {
  }

  // ---------------------------------------------------------------- what is turned down

  ghost predicate Known(pool: Pool, s: seq<Tx>, t: Tx) {
    (forall u :: u in s ==> u in pool.entries) && t in pool.ancestors && pool.Package(t) <= pool.entries.Keys
  }

  /** What is left of a package besides the transactions of a list. */
  ghost function Left(pool: Pool, s: seq<Tx>, t: Tx): set<Tx>
    requires t in pool.ancestors
  {
    pool.Package(t) - Elems(s)
  }

  ghost predicate AllFinal(config: Config, s: seq<Tx>) {
    forall u :: u in s ==> config.isFinal(u)
  }

  /** So much more on top of a block with these transactions has too many signature operations for its size. */
  ghost predicate SigOpsOver(pool: Pool, config: Config, s: seq<Tx>, size: int, sigOps: int)
    requires forall u :: u in s ==> u in pool.entries
  {
    100 + SeqSigOps(pool, s) + sigOps >= config.maxSigOps(1000 + SeqSize(pool, s) + size)
  }

  /** What was left of the package when the block had its first `k` transactions had too many signature operations. */
  ghost predicate SigOpsOverAt(pool: Pool, config: Config, vtx: seq<Tx>, t: Tx, k: int)
    requires Known(pool, vtx, t)
  {
    0 <= k <= |vtx|
    && SigOpsOver(pool, config, vtx[..k], pool.Size(Left(pool, vtx[..k], t)), pool.SigOps(Left(pool, vtx[..k], t)))
  }

  /** A package that the block has no room for: what is left of it is too large, or holds a transaction that is
      not final, or what was left of it had too many signature operations for the block at some time. */
  ghost predicate TurnedDown(pool: Pool, config: Config, vtx: seq<Tx>, t: Tx)
    requires Known(pool, vtx, t)
  {
    || 1000 + SeqSize(pool, vtx) + pool.Size(Left(pool, vtx, t)) >= config.nMaxGeneratedBlockSize
    || (exists u :: u in Left(pool, vtx, t) && !config.isFinal(u))
    || (exists k :: SigOpsOverAt(pool, config, vtx, t, k))
  }

  lemma SizeSplit(pool: Pool, s: set<Tx>, u: Tx)
    requires s <= pool.entries.Keys && u in pool.entries
    ensures pool.Size(s) <= pool.Size(s - {u}) + pool.entries[u].size
  {
    if u in s {
      pool.SumsRemove(s, u);
    } else {
      assert s - {u} == s;
    }
  }

  /** Inclusion makes no room: the block and what is left of a package never become smaller together. */
  lemma {:induction false} NoRoomMade(pool: Pool, s: seq<Tx>, s': seq<Tx>, t: Tx)
    requires s <= s' && Known(pool, s', t)
    ensures SeqSize(pool, s) + pool.Size(Left(pool, s, t)) <= SeqSize(pool, s') + pool.Size(Left(pool, s', t))
    decreases |s'|
  {
    if |s| < |s'| {
      var n := |s'| - 1;
      NoRoomMade(pool, s, s'[..n], t);
      assert s' == s'[..n] + [s'[n]];
      ElemsAppend(s'[..n], s'[n]);
      assert Left(pool, s', t) == Left(pool, s'[..n], t) - {s'[n]};
      SizeSplit(pool, Left(pool, s'[..n], t), s'[n]);
    } else {
      assert s == s';
    }
  }

  lemma PrefixKnown(pool: Pool, config: Config, s: seq<Tx>, s': seq<Tx>, t: Tx)
    requires s <= s' && Known(pool, s', t)
    ensures Known(pool, s, t)
    ensures forall k :: 0 <= k <= |s| ==> s[..k] == s'[..k]
  {
    assert forall i :: 0 <= i < |s| ==> s[i] == s'[i];
  }

  /** What was turned down stays so, whatever else is included. */
  lemma TurnedDownStays(pool: Pool, config: Config, s: seq<Tx>, s': seq<Tx>, t: Tx)
    requires s <= s' && Known(pool, s', t) && AllFinal(config, s')
    requires Known(pool, s, t) && TurnedDown(pool, config, s, t)
    ensures TurnedDown(pool, config, s', t)
  {
    PrefixKnown(pool, config, s, s', t);
    if u :| u in Left(pool, s, t) && !config.isFinal(u) {
      InElems(s', u);
      assert u in Left(pool, s', t);
    } else if k :| SigOpsOverAt(pool, config, s, t, k) {
      assert SigOpsOverAt(pool, config, s', t, k);
    } else {
      NoRoomMade(pool, s, s', t);
    }
  }

  /** So much more fits on top of a block of the given size and signature operations. */
  predicate PackageFits(config: Config, blockSize: nat, blockSigOps: nat, size: int, sigOps: int) {
    blockSize + size < config.nMaxGeneratedBlockSize && blockSigOps + sigOps < config.maxSigOps(blockSize + size)
  }

  // ---------------------------------------------------------------- single transactions

  /** A transaction fits on top of a block of the given size and signature operations, and is final. */
  ghost predicate TxFits(pool: Pool, config: Config, blockSize: nat, blockSigOps: nat, it: Tx)
    requires it in pool.entries
  {
    var e := pool.entries[it];
    && blockSize + e.size < config.nMaxGeneratedBlockSize
    && blockSigOps + e.sigOps < config.maxSigOps(blockSize + e.size) && config.isFinal(it)
  }

  ghost predicate TxSigOpsOverAt(pool: Pool, config: Config, vtx: seq<Tx>, t: Tx, k: int)
    requires t in pool.entries && forall u :: u in vtx ==> u in pool.entries
  {
    0 <= k <= |vtx| && SigOpsOver(pool, config, vtx[..k], pool.entries[t].size, pool.entries[t].sigOps)
  }

  /** A transaction that the block has no room for, by itself. */
  ghost predicate TxTurnedDown(pool: Pool, config: Config, vtx: seq<Tx>, t: Tx)
    requires t in pool.entries && forall u :: u in vtx ==> u in pool.entries
  {
    || 1000 + SeqSize(pool, vtx) + pool.entries[t].size >= config.nMaxGeneratedBlockSize
    || !config.isFinal(t)
    || (exists k :: TxSigOpsOverAt(pool, config, vtx, t, k))
  }

  lemma TxUnfit(pool: Pool, config: Config, b: Template, t: Tx)
    requires TemplateOk(pool, b) && t in pool.entries && !TxFits(pool, config, b.nBlockSize, b.nBlockSigOps, t)
    ensures TxTurnedDown(pool, config, b.vtx, t)
  {
    assert b.vtx[..|b.vtx|] == b.vtx;
    if b.nBlockSigOps + pool.entries[t].sigOps >= config.maxSigOps(b.nBlockSize + pool.entries[t].size) {
      assert TxSigOpsOverAt(pool, config, b.vtx, t, |b.vtx|);
    }
  }

  lemma TxTurnedDownStays(pool: Pool, config: Config, s: seq<Tx>, u: Tx, t: Tx)
    requires t in pool.entries && u in pool.entries && (forall v :: v in s ==> v in pool.entries)
    requires TxTurnedDown(pool, config, s, t)
    ensures TxTurnedDown(pool, config, s + [u], t)
  {
    assert (s + [u])[..|s|] == s;
    if k :| TxSigOpsOverAt(pool, config, s, t, k) {
      assert (s + [u])[..k] == s[..k];
      assert TxSigOpsOverAt(pool, config, s + [u], t, k);
    }
  }

  /** Every transaction of the pool is queued, included, waiting for a parent, or turned down. */
  ghost predicate Accounted(pool: Pool, config: Config, b: Template, vec: set<Tx>, wait: set<Tx>, refused: set<Tx>) {
    && pool.entries.Keys <= vec + wait + b.inBlock + refused
    && (forall u :: u in b.vtx ==> u in pool.entries)
    && (forall t :: t in wait ==> t in pool.entries && !(pool.entries[t].parents <= b.inBlock))
    && (forall t :: t in refused ==> t in pool.entries && TxTurnedDown(pool, config, b.vtx, t))
  }

  lemma Room(pool: Pool, config: Config, blockSize: nat, blockSigOps: nat, it: Tx)
    requires it in pool.entries && TxFits(pool, config, blockSize, blockSigOps, it)
    ensures blockSize + pool.entries[it].size <= config.nMaxGeneratedBlockSize && config.isFinal(it)
  {
  }

  lemma AccountedStart(pool: Pool, config: Config, b: Template)
    requires TemplateOk(pool, b)
    ensures Accounted(pool, config, b, pool.entries.Keys, {}, {})
  {
  }

  lemma AccountedWaits(pool: Pool, config: Config, b: Template, vec: set<Tx>, wait: set<Tx>, refused: set<Tx>, t: Tx)
    requires Accounted(pool, config, b, vec, wait, refused)
    requires t in vec && t in pool.entries && !(pool.entries[t].parents <= b.inBlock)
    ensures Accounted(pool, config, b, vec - {t}, wait + {t}, refused)
  {
  }

  lemma AccountedRefused(pool: Pool, config: Config, b: Template, vec: set<Tx>, wait: set<Tx>, refused: set<Tx>, t: Tx)
    requires Accounted(pool, config, b, vec, wait, refused) && TemplateOk(pool, b)
    requires t in pool.entries && !TxFits(pool, config, b.nBlockSize, b.nBlockSigOps, t)
    ensures Accounted(pool, config, b, vec - {t}, wait, refused + {t})
  {
    TxUnfit(pool, config, b, t);
  }

  /** Including a transaction frees only its children. */
  lemma AccountedIncluded(pool: Pool, config: Config, b: Template, vec: set<Tx>, wait: set<Tx>, refused: set<Tx>, t: Tx)
    requires Accounted(pool, config, b, vec, wait, refused) && t in pool.entries
    ensures
      var ready := pool.Children(t) * wait;
      Accounted(pool, config, Extended(pool, b, t), vec - {t} + ready, wait - ready, refused)
  {
    forall u | u in refused
      ensures TxTurnedDown(pool, config, b.vtx + [t], u)
    {
      TxTurnedDownStays(pool, config, b.vtx, t, u);
    }
    hide TxTurnedDown;
  }

  /** No transaction of the pool could be taken by itself. */
  ghost predicate NoneLeft(pool: Pool, config: Config, b: Template) {
    && (forall u :: u in b.vtx ==> u in pool.entries)
    && forall t :: t in pool.entries ==>
         t in b.inBlock || !(pool.entries[t].parents <= b.inBlock) || TxTurnedDown(pool, config, b.vtx, t)
  }

  lemma AccountedEnd(pool: Pool, config: Config, b: Template, wait: set<Tx>, refused: set<Tx>)
    requires Accounted(pool, config, b, {}, wait, refused)
    ensures NoneLeft(pool, config, b)
  {
    hide TxTurnedDown;
  }

  /** When the block has a list of transactions, this one is next by priority: every other one is on the list, or
      waits for a parent, or has no room, or has no higher priority. */
  ghost predicate InTurn(pool: Pool, config: Config, s: seq<Tx>, t: Tx)
    requires forall u :: u in s ==> u in pool.entries
  {
    forall u :: u in pool.entries ==>
      || u in s || !(pool.entries[u].parents <= Elems(s)) || TxTurnedDown(pool, config, s, u)
      || config.priority(u) <= config.priority(t)
  }

  /** The priority part is not used up by the first `k` transactions of a list, and the last of them was free. */
  ghost predicate GoesOn(pool: Pool, config: Config, s: seq<Tx>, k: int)
    requires forall u :: u in s ==> u in pool.entries
  {
    && 1 <= k <= |s|
    && 1000 + SeqSize(pool, s[..k]) < config.nMaxGeneratedBlockSize * config.nBlockPriorityPercentage / 100
    && config.priority(s[k - 1]) > 57_600_000.0
  }

  /** A list of transactions taken by priority: each in its turn, and none after the part for them was used up. */
  ghost predicate ByPriority(pool: Pool, config: Config, s: seq<Tx>) {
    && (forall u :: u in s ==> u in pool.entries)
    && (forall k :: 0 <= k < |s| ==> InTurn(pool, config, s[..k], s[k]))
    && (forall k :: 1 <= k < |s| ==> GoesOn(pool, config, s, k))
  }

  /** Another one may follow. */
  ghost predicate Open(pool: Pool, config: Config, s: seq<Tx>) {
    ByPriority(pool, config, s) && (s != [] ==> GoesOn(pool, config, s, |s|))
  }

  lemma PriorityNext(pool: Pool, config: Config, s: seq<Tx>, t: Tx)
    requires Open(pool, config, s) && t in pool.entries && InTurn(pool, config, s, t)
    ensures ByPriority(pool, config, s + [t])
    ensures 1000 + SeqSize(pool, s + [t]) < PrioritySize(config) && AllowFree(config, t) ==> Open(pool, config, s + [t])
  {
    var s' := s + [t];
    hide InTurn;
    forall k | 0 <= k < |s'|
      ensures InTurn(pool, config, s'[..k], s'[k])
    {
      assert s'[..k] == s[..k];
      assert k == |s| ==> s[..k] == s;
    }
    forall k | 1 <= k < |s'|
      ensures GoesOn(pool, config, s', k)
    {
      assert GoesOn(pool, config, s, k) && s'[..k] == s[..k];
    }
    assert s'[..|s'|] == s';
  }

  lemma TurnIsNow(pool: Pool, config: Config, b: Template, vec: set<Tx>, wait: set<Tx>, refused: set<Tx>, t: Tx)
    requires TemplateOk(pool, b) && Accounted(pool, config, b, vec, wait, refused)
    requires forall u :: u in vec ==> config.priority(u) <= config.priority(t)
    ensures InTurn(pool, config, b.vtx, t)
  {
    hide TxTurnedDown, ParentsFirst;
    forall u | u in pool.entries && u !in b.vtx
      ensures u !in b.inBlock
    {
      InElems(b.vtx, u);
    }
  }

  // ---------------------------------------------------------------- signature operations

  ghost predicate Monotone(f: int -> int) {
    forall x, y :: x <= y ==> f(x) <= f(y)
  }

  ghost predicate SigOpsBelow(config: Config, b: Template) {
    b.nBlockSigOps < config.maxSigOps(b.nBlockSize)
  }

  /** A transaction of the block that had too many signature operations, with what was left of its package, when
      the block had its first `k` transactions and not yet this one. */
  ghost predicate RetriedAt(pool: Pool, config: Config, vtx: seq<Tx>, t: Tx, k: int) {
    t in vtx && Known(pool, vtx, t) && SigOpsOverAt(pool, config, vtx, t, k) && t !in vtx[..k]
  }

  /** The block is within the limit for its own size, unless it holds a transaction that was too much for it before,
      and with a monotone limit always within that for the largest size. */
  ghost predicate SigOpsWithin(pool: Pool, config: Config, b: Template) {
    && (SigOpsBelow(config, b) || exists t, k :: RetriedAt(pool, config, b.vtx, t, k))
    && (Monotone(config.maxSigOps) ==> b.nBlockSigOps < config.maxSigOps(config.nMaxGeneratedBlockSize))
  }

  lemma SigOpsTested(pool: Pool, config: Config, b: Template, size: int, sigOps: int)
    requires b.nBlockSigOps <= sigOps < config.maxSigOps(size)
    requires b.nBlockSize <= size <= config.nMaxGeneratedBlockSize
    requires size == b.nBlockSize || exists t, k :: RetriedAt(pool, config, b.vtx, t, k)
    ensures SigOpsWithin(pool, config, b)
  {
  }

  lemma SigOpsReserved(pool: Pool, config: Config, b: Template)
    requires TemplateOk(pool, b) && b.vtx == [] && b.nBlockSize <= config.nMaxGeneratedBlockSize
    requires config.maxSigOps(1000) > 100
    ensures SigOpsWithin(pool, config, b)
  {
  }

  lemma SigOpsFit(pool: Pool, config: Config, b: Template, it: Tx)
    requires it in pool.entries && TxFits(pool, config, b.nBlockSize, b.nBlockSigOps, it)
    ensures SigOpsWithin(pool, config, Extended(pool, b, it))
  {
  }

  /** A package that fits now although it was turned down before had too many signature operations then. */
  lemma RetriedFits(pool: Pool, config: Config, b: Template, c: Template, t: Tx)
    requires TemplateOk(pool, b) && b.vtx <= c.vtx && (forall u :: u in c.vtx ==> u in pool.entries)
    requires Known(pool, b.vtx, t) && TurnedDown(pool, config, b.vtx, t) && t !in b.inBlock && t in c.vtx
    requires b.nBlockSize + pool.Size(Left(pool, b.vtx, t)) < config.nMaxGeneratedBlockSize
    requires forall u :: u in Left(pool, b.vtx, t) ==> config.isFinal(u)
    ensures exists t, k :: RetriedAt(pool, config, c.vtx, t, k)
  {
    var k :| SigOpsOverAt(pool, config, b.vtx, t, k);
    PrefixKnown(pool, config, b.vtx, c.vtx, t);
    InElems(b.vtx, t);
    assert t !in b.vtx[..k];
    assert SigOpsOverAt(pool, config, c.vtx, t, k);
    assert RetriedAt(pool, config, c.vtx, t, k);
  }

  // ---------------------------------------------------------------- candidates

  /** Every entry seen is included, a candidate again, or turned down. */
  ghost predicate Settled(pool: Pool, config: Config, b: Template, seen: set<Tx>, mod: ModMap) {
    && seen <= pool.ancestors.Keys
    && forall t :: t in seen ==>
         t in b.inBlock || t in mod || (Known(pool, b.vtx, t) && TurnedDown(pool, config, b.vtx, t))
  }

  /** Everything that failed was turned down. */
  ghost predicate Failures(pool: Pool, config: Config, b: Template, failed: set<Tx>) {
    forall t :: t in failed ==> Known(pool, b.vtx, t) && TurnedDown(pool, config, b.vtx, t)
  }

  /** The entries that are dealt with when the first `mi` of the index have been looked at. */
  ghost function SeenTo(config: Config, mi: nat): set<Tx>
    requires mi <= |config.byScore|
  {
    Elems(config.byScore[..mi])
  }

  lemma SettledStart(pool: Pool, config: Config, b: Template, mod: ModMap)
    ensures Settled(pool, config, b, SeenTo(config, 0), mod)
    ensures Failures(pool, config, b, {})
  {
  }

  lemma SettledSkip(pool: Pool, config: Config, b: Template, mi: nat, mod: ModMap, failed: set<Tx>)
    requires mi < |config.byScore| && Settled(pool, config, b, SeenTo(config, mi), mod)
    requires Failures(pool, config, b, failed) && config.byScore[mi] in pool.ancestors
    requires var t := config.byScore[mi]; t in mod || t in b.inBlock || t in failed
    ensures Settled(pool, config, b, SeenTo(config, mi + 1), mod)
  {
    hide TurnedDown;
    assert config.byScore[..mi + 1] == config.byScore[..mi] + [config.byScore[mi]];
    ElemsAppend(config.byScore[..mi], config.byScore[mi]);
  }

  /** Every entry of the index is in the block or was turned down. */
  ghost predicate NoneForgottenOf(pool: Pool, config: Config, b: Template) {
    forall t :: t in config.byScore ==>
      t in b.inBlock || (Known(pool, b.vtx, t) && TurnedDown(pool, config, b.vtx, t))
  }

  lemma SettledEnd(pool: Pool, config: Config, b: Template)
    requires Settled(pool, config, b, SeenTo(config, |config.byScore|), map[])
    ensures Ended(pool, config, b)
  {
    hide TurnedDown;
    assert config.byScore[..|config.byScore|] == config.byScore;
    forall t | t in config.byScore
      ensures t in SeenTo(config, |config.byScore|)
    {
      InElems(config.byScore, t);
    }
  }

  /** Selection gave up: the block is nearly full, and more than a thousand transactions have no room in it. */
  ghost predicate GaveUp(pool: Pool, config: Config, b: Template) {
    && b.nBlockSize > config.nMaxGeneratedBlockSize - 1000
    && exists many: set<Tx> :: |many| > 1000 && AllTurnedDown(pool, config, b, many)
  }

  ghost predicate AllTurnedDown(pool: Pool, config: Config, b: Template, many: set<Tx>) {
    forall t :: t in many ==> t !in b.inBlock && Known(pool, b.vtx, t) && TurnedDown(pool, config, b.vtx, t)
  }

  /** How selection ends: with nothing forgotten, or giving up, or at a package that pays too little although it is
      the best of those left. */
  ghost predicate Ended(pool: Pool, config: Config, b: Template) {
    || NoneForgottenOf(pool, config, b)
    || GaveUp(pool, config, b)
    || exists t, e :: StoppedAt(pool, config, b, t, e)
  }

  lemma SettledIncluded(pool: Pool, config: Config, b: Template, c: Template, seen: set<Tx>, added: set<Tx>,
                        mod0: ModMap, mod: ModMap)
    requires Settled(pool, config, b, seen, mod0) && c.inBlock == b.inBlock + added && b.vtx <= c.vtx
    requires pool.Valid() && (forall u :: u in c.vtx ==> u in pool.entries) && AllFinal(config, c.vtx)
    requires mod0.Keys - added <= mod.Keys
    ensures Settled(pool, config, c, seen, mod)
  {
    forall t | t in seen && t !in c.inBlock && t !in mod
      ensures Known(pool, c.vtx, t) && TurnedDown(pool, config, c.vtx, t)
    {
      TurnedDownStays(pool, config, b.vtx, c.vtx, t);
    }
    hide TurnedDown;
  }

  lemma FailuresStay(pool: Pool, config: Config, b: Template, c: Template, failed: set<Tx>)
    requires Failures(pool, config, b, failed) && b.vtx <= c.vtx && AllFinal(config, c.vtx)
    requires forall u :: u in c.vtx ==> u in pool.entries
    ensures Failures(pool, config, c, failed)
  {
    forall t | t in failed
      ensures Known(pool, c.vtx, t) && TurnedDown(pool, config, c.vtx, t)
    {
      TurnedDownStays(pool, config, b.vtx, c.vtx, t);
    }
    hide TurnedDown;
  }

  /** The candidate just looked at is dealt with. */
  lemma SettledMore(pool: Pool, config: Config, b: Template, mi0: nat, mi: nat, mod0: ModMap, mod: ModMap, t: Tx)
    requires mi0 <= |config.byScore| && mi <= |config.byScore| && t in pool.ancestors
    requires mi == mi0 || (mi == mi0 + 1 && config.byScore[mi0] == t)
    requires Settled(pool, config, b, SeenTo(config, mi0), mod0) && mod0.Keys - {t} <= mod.Keys
    requires t in b.inBlock || (Known(pool, b.vtx, t) && TurnedDown(pool, config, b.vtx, t))
    ensures Settled(pool, config, b, SeenTo(config, mi), mod)
  {
    hide TurnedDown;
    if mi == mi0 + 1 {
      assert config.byScore[..mi] == config.byScore[..mi0] + [config.byScore[mi0]];
      ElemsAppend(config.byScore[..mi0], t);
    }
  }

  // ---------------------------------------------------------------- the order of packages

  /** Totals of a package without `done`, when the block has a list of transactions: those are its ancestors on the
      list, all of them unless it was turned down. */
  ghost predicate ReckonedWithout(pool: Pool, config: Config, s: seq<Tx>, t: Tx, e: Modified, done: set<Tx>)
    requires Known(pool, s, t)
  {
    && done <= pool.Package(t) * Elems(s) && TotalsFor(pool, t, done, e)
    && (done == pool.Package(t) * Elems(s) || TurnedDown(pool, config, s, t))
  }

  ghost predicate Reckoned(pool: Pool, config: Config, s: seq<Tx>, t: Tx, e: Modified)
    requires Known(pool, s, t)
  {
    exists done :: ReckonedWithout(pool, config, s, t, e, done)
  }

  /** A package that is not to be taken before another one: there is no room for it, or it is no better. */
  ghost predicate NotBefore(pool: Pool, config: Config, s: seq<Tx>, u: Tx, t: Tx, e: Modified) {
    && Known(pool, s, u)
    && (TurnedDown(pool, config, s, u) || exists f :: Reckoned(pool, config, s, u, f) && !Better(u, f, t, e))
  }

  /** When the block has a list of transactions, the package of this one is the best of those left. */
  ghost predicate NextInLine(pool: Pool, config: Config, s: seq<Tx>, t: Tx, e: Modified) {
    && Known(pool, s, t) && t !in s && Reckoned(pool, config, s, t, e)
    && forall u :: u in pool.entries ==> u in s || NotBefore(pool, config, s, u, t, e)
  }

  /** Selection stopped at the package next in line, which pays too little for its size. */
  ghost predicate StoppedAt(pool: Pool, config: Config, b: Template, t: Tx, e: Modified) {
    NextInLine(pool, config, b.vtx, t, e) && e.modFees < config.minFee(e.size)
  }

  /** A transaction of the block was taken with the package of `t`, when that was next in line and paid enough. */
  ghost predicate TakenWith(pool: Pool, config: Config, vtx: seq<Tx>, i: int, t: Tx, k: int, e: Modified) {
    && 0 <= k <= i < |vtx| && NextInLine(pool, config, vtx[..k], t, e) && e.modFees >= config.minFee(e.size)
    && vtx[i] in pool.Package(t)
  }

  /** Every transaction from `n` on was taken with a package. */
  ghost predicate ByPackage(pool: Pool, config: Config, vtx: seq<Tx>, n: int) {
    forall i :: n <= i < |vtx| ==> InPackage(pool, config, vtx, i)
  }

  ghost predicate InPackage(pool: Pool, config: Config, vtx: seq<Tx>, i: int) {
    exists t, k, e :: TakenWith(pool, config, vtx, i, t, k, e)
  }

  /** The first `n` transactions were taken by priority and the others with packages. */
  ghost predicate SelectedAt(pool: Pool, config: Config, vtx: seq<Tx>, n: int) {
    && 0 <= n <= |vtx| && ByPriority(pool, config, vtx[..n]) && ByPackage(pool, config, vtx, n)
    && (config.nBlockPriorityPercentage == 0 ==> n == 0)
  }

  /** What a package added stays accounted for, and so does what was added before. */
  lemma PackageTaken(pool: Pool, config: Config, b: Template, c: Template, n: int, t: Tx, e: Modified)
    requires TemplateOk(pool, c) && b.vtx <= c.vtx && b.inBlock == Elems(b.vtx) && 0 <= n <= |b.vtx|
    requires ByPackage(pool, config, b.vtx, n) && NextInLine(pool, config, b.vtx, t, e)
    requires e.modFees >= config.minFee(e.size) && c.inBlock == b.inBlock + (pool.Package(t) - b.inBlock)
    ensures ByPackage(pool, config, c.vtx, n)
  {
    hide NextInLine, ParentsFirst;
    forall i | n <= i < |c.vtx|
      ensures InPackage(pool, config, c.vtx, i)
    {
      if i < |b.vtx| {
        assert InPackage(pool, config, b.vtx, i);
        var u, k, f :| TakenWith(pool, config, b.vtx, i, u, k, f);
        assert b.vtx[..k] == c.vtx[..k];
        assert TakenWith(pool, config, c.vtx, i, u, k, f);
      } else {
        assert c.vtx[..|b.vtx|] == b.vtx;
        InElems(c.vtx, c.vtx[i]);
        InElems(b.vtx, c.vtx[i]);
        assert TakenWith(pool, config, c.vtx, i, t, |b.vtx|, e);
      }
    }
  }

  /** The totals used for a candidate: those in the map, or else those of the pool. */
  function Used(pool: Pool, mod: ModMap, t: Tx): Modified
    requires t in pool.entries
  {
    if t in mod then mod[t] else PoolTotals(pool, t)
  }

  lemma Position(s: seq<Tx>, t: Tx) returns (k: nat)
    requires t in s
    ensures k < |s| && s[k] == t
  {
    k :| k < |s| && s[k] == t;
  }

  lemma UsedReckoned(pool: Pool, config: Config, b: Template, failed: set<Tx>, mod: ModMap, t: Tx)
    requires pool.Valid() && TemplateOk(pool, b) && Cached(pool, b.inBlock, {}, failed, mod)
    requires Failures(pool, config, b, failed) && t in pool.entries && t !in b.inBlock && (t in mod || t !in failed)
    ensures Known(pool, b.vtx, t) && Reckoned(pool, config, b.vtx, t, Used(pool, mod, t))
  {
    hide Pool.Valid, TurnedDown, ParentsFirst, Cached, CandidateFor;
    CandidateTotals(pool, b, failed, mod, t, Used(pool, mod, t));
    UsedWithout(pool, config, b, failed, t, Used(pool, mod, t));
  }

  lemma UsedWithout(pool: Pool, config: Config, b: Template, failed: set<Tx>, t: Tx, e: Modified)
    requires TemplateOk(pool, b) && Failures(pool, config, b, failed)
    requires t in pool.ancestors && pool.Package(t) <= pool.entries.Keys && CandidateFor(pool, b.inBlock, failed, t, e)
    ensures Known(pool, b.vtx, t) && Reckoned(pool, config, b.vtx, t, e)
  {
    hide TurnedDown, ParentsFirst, TotalsFor;
    var done :| TakenOff(pool, b.inBlock, failed, t, done) && TotalsFor(pool, t, done, e);
    assert ReckonedWithout(pool, config, b.vtx, t, e, done);
  }

  /** The candidate that is best by the totals used is next in line. */
  lemma BestIsNext(pool: Pool, config: Config, b: Template, failed: set<Tx>, mod: ModMap, mi: nat, t: Tx)
    requires pool.Valid() && TemplateOk(pool, b) && Cached(pool, b.inBlock, {}, failed, mod)
    requires Failures(pool, config, b, failed) && IsIndex(pool, config.byScore)
    requires mi <= |config.byScore| && Settled(pool, config, b, SeenTo(config, mi), mod)
    requires t in pool.entries && t !in b.inBlock && (t in mod || t !in failed)
    requires IsBest(pool, config, mod, mi, t)
    ensures NextInLine(pool, config, b.vtx, t, Used(pool, mod, t))
  {
    hide Pool.Valid, TurnedDown, Cached, Better, Reckoned, Known, ParentsFirst, SeqSize, SeqSigOps, SeqFees;
    var e := Used(pool, mod, t);
    UsedReckoned(pool, config, b, failed, mod, t);
    InElems(b.vtx, t);
    forall u | u in pool.entries && u !in b.vtx
      ensures NotBefore(pool, config, b.vtx, u, t, e)
    {
      InElems(b.vtx, u);
      if !(u in failed && u !in mod) {
        UsedReckoned(pool, config, b, failed, mod, u);
      }
      if u !in mod {
        var k := Position(config.byScore, u);
        if k < mi {
          assert u in config.byScore[..mi];
          InElems(config.byScore[..mi], u);
        } else {
          assert !Better(u, PoolTotals(pool, u), t, e);
        }
      }
    }
  }

  /** No candidate is better, neither in the map nor from `mi` on in the index. */
  ghost predicate IsBest(pool: Pool, config: Config, mod: ModMap, mi: nat, t: Tx)
    requires t in pool.entries && mi <= |config.byScore| && forall u :: u in config.byScore ==> u in pool.entries
  {
    var e := Used(pool, mod, t);
    && (forall u :: u in mod ==> !Better(u, mod[u], t, e))
    && (forall k :: mi <= k < |config.byScore| ==>
          !Better(config.byScore[k], PoolTotals(pool, config.byScore[k]), t, e))
  }

  lemma PositiveTotals(pool: Pool, block: set<Tx>, failed: set<Tx>, mod: ModMap)
    requires pool.Valid() && Cached(pool, block, {}, failed, mod)
    ensures forall t :: t in mod ==> mod[t].size > 0
    ensures forall t :: t in pool.entries ==> PoolTotals(pool, t).size > 0
  {
    forall t | t in pool.entries
      ensures PoolTotals(pool, t).size > 0
      ensures t in mod ==> mod[t].size > 0
    {
      pool.Totals(t);
      pool.SumsRemove(pool.Package(t), t);
      if t in mod {
        var e := mod[t];
        var done :| done != {} && TakenOff(pool, block, failed, t, done) && TotalsFor(pool, t, done, e);
        pool.SumsRemove(pool.Package(t) - done, t);
      }
    }
  }

  // ---------------------------------------------------------------- the assembler

  class BlockAssembler {
    const pool: Pool
    const config: Config
    var vtx: seq<Tx>
    var vTxFees: seq<int>
    var vTxSigOpsCount: seq<int>
    var nBlockSize: nat
    var nBlockTx: nat
    var nBlockSigOps: nat
    var nFees: int
    var inBlock: set<Tx>
    var lastFewTxs: int
    var blockFinished: bool

    ghost function Block(): Template
      reads this
    {
      Template(vtx, vTxFees, vTxSigOpsCount, nBlockSize, nBlockTx, nBlockSigOps, nFees, inBlock)
    }

    /** The list is duplicate-free and has parents first, every total is exact, all transactions are final, and the
        block is not above the size limit. */
    ghost predicate Valid()
      reads this
    {
      && pool.Valid() && TemplateOk(pool, Block()) && nBlockSize <= config.nMaxGeneratedBlockSize
      && AllFinal(config, vtx) && (lastFewTxs > 0 ==> nBlockSize > config.nMaxGeneratedBlockSize - 1000)
      && IsIndex(pool, config.byScore)
    }

    lemma Parts()
      requires Valid()
      ensures pool.Valid() && TemplateOk(pool, Block()) && nBlockSize <= config.nMaxGeneratedBlockSize
      ensures AllFinal(config, vtx) && IsIndex(pool, config.byScore)
      ensures forall t :: t in config.byScore ==> t in pool.entries
    {
    }

    /** The coinbase is reserved 1000 bytes and 100 signature operations. */
    constructor (pool: Pool, config: Config)
      requires pool.Valid() && config.nMaxGeneratedBlockSize >= 1000
      requires IsIndex(pool, config.byScore)
      ensures Valid() && this.pool == pool && this.config == config
      ensures vtx == [] && lastFewTxs == 0 && !blockFinished
    {
      this.pool, this.config := pool, config;
      vtx, vTxFees, vTxSigOpsCount := [], [], [];
      nBlockSize, nBlockSigOps, nBlockTx, nFees, inBlock := 1000, 100, 0, 0, {};
      lastFewTxs, blockFinished := 0, false;
    }

    method AddToBlock(iter: Tx)
      requires Valid() && iter in pool.entries && iter !in inBlock && pool.entries[iter].parents <= inBlock
      requires nBlockSize + pool.entries[iter].size <= config.nMaxGeneratedBlockSize && config.isFinal(iter)
      modifies this
      ensures Valid() && Block() == Extended(pool, old(Block()), iter)
      ensures lastFewTxs == old(lastFewTxs) && blockFinished == old(blockFinished)
    {
      hide TemplateOk, Pool.Valid;
      ExtendedOk(pool, Block(), iter);
      var e := pool.entries[iter];
      vtx := vtx + [iter];
      vTxFees := vTxFees + [e.fee];
      vTxSigOpsCount := vTxSigOpsCount + [e.sigOps];
      nBlockSize := nBlockSize + e.size;
      nBlockTx := nBlockTx + 1;
      nBlockSigOps := nBlockSigOps + e.sigOps;
      nFees := nFees + e.fee;
      inBlock := inBlock + {iter};
    }

    predicate IsStillDependent(iter: Tx)
      requires iter in pool.entries
      reads this
    {
      !(pool.entries[iter].parents <= inBlock)
    }

    predicate TestPackage(packageSize: int, packageSigOps: int)
      reads this
    {
      PackageFits(config, nBlockSize, nBlockSigOps, packageSize, packageSigOps)
    }

    /** Checks finality and adds up the sizes of a package once more. */
    method TestPackageTransactions(package: set<Tx>) returns (ok: bool)
      requires package <= pool.entries.Keys && nBlockSize <= config.nMaxGeneratedBlockSize
      ensures ok ==> forall t :: t in package ==> config.isFinal(t)
      ensures ok ==> nBlockSize + pool.Size(package) <= config.nMaxGeneratedBlockSize
      ensures ((forall t :: t in package ==> config.isFinal(t))
               && nBlockSize + pool.Size(package) < config.nMaxGeneratedBlockSize) ==> ok
    {
      var nPotentialBlockSize := nBlockSize;
      var todo := package;
      while todo != {}
        invariant todo <= package && nPotentialBlockSize + pool.Size(todo) == nBlockSize + pool.Size(package)
        invariant forall t :: t in package && t !in todo ==> config.isFinal(t)
        invariant nPotentialBlockSize <= config.nMaxGeneratedBlockSize
        decreases todo
      {
        var it :| it in todo;
        pool.SumsRemove(todo, it);
        if !config.isFinal(it) {
          return false;
        }
        var nTxSize := pool.entries[it].size;
        if nPotentialBlockSize + nTxSize >= config.nMaxGeneratedBlockSize {
          return false;
        }
        nPotentialBlockSize := nPotentialBlockSize + nTxSize;
        todo := todo - {it};
      }
      return true;
    }

    method TestForBlock(it: Tx) returns (ok: bool)
      requires Valid() && it in pool.entries
      modifies this`lastFewTxs, this`blockFinished
      ensures ok <==> TxFits(pool, config, nBlockSize, nBlockSigOps, it)
      ensures Valid() && Block() == old(Block())
      ensures ok ==> lastFewTxs == old(lastFewTxs) && blockFinished == old(blockFinished)
      ensures
        var size, limit := nBlockSize + pool.entries[it].size, config.nMaxGeneratedBlockSize;
        var large, dense := size >= limit, nBlockSigOps + pool.entries[it].sigOps >= config.maxSigOps(size);
        var ends := large && (nBlockSize > limit - 100 || old(lastFewTxs) > 50);
        var noMore := !large && dense && nBlockSigOps > config.maxSigOps(size) - 2;
        && (blockFinished <==> old(blockFinished) || ends || noMore)
        && lastFewTxs == old(lastFewTxs) + if large && !ends && nBlockSize > limit - 1000 then 1 else 0
      ensures blockFinished && !old(blockFinished) ==> NearlyFull()
    {
      hide Pool.Valid, TemplateOk, AllFinal;
      var blockSizeWithTx := nBlockSize + pool.entries[it].size;
      if blockSizeWithTx >= config.nMaxGeneratedBlockSize {
        if nBlockSize > config.nMaxGeneratedBlockSize - 100 || lastFewTxs > 50 {
          blockFinished := true;
          return false;
        }
        if nBlockSize > config.nMaxGeneratedBlockSize - 1000 {
          lastFewTxs := lastFewTxs + 1;
        }
        return false;
      }
      var maxBlockSigOps := config.maxSigOps(blockSizeWithTx);
      if nBlockSigOps + pool.entries[it].sigOps >= maxBlockSigOps {
        if nBlockSigOps > maxBlockSigOps - 2 {
          blockFinished := true;
          return false;
        }
        return false;
      }
      return config.isFinal(it);
    }

    /** The block is close to its limits: by size, or for some transaction by signature operations. */
    ghost predicate NearlyFull()
      reads this
    {
      || nBlockSize > config.nMaxGeneratedBlockSize - 1000
      || exists t :: t in pool.entries && nBlockSigOps > config.maxSigOps(nBlockSize + pool.entries[t].size) - 2
    }

    /** The last transaction taken filled the priority part, or has too low a priority to be free. */
    ghost predicate PriorityDone()
      reads this
    {
      vtx != [] && (nBlockSize >= PrioritySize(config) || !AllowFree(config, vtx[|vtx| - 1]))
    }

    /** The queued transaction of the highest priority. */
    method TopPriority(vecPriority: set<Tx>) returns (top: Tx)
      requires vecPriority != {}
      ensures top in vecPriority && forall u :: u in vecPriority ==> config.priority(u) <= config.priority(top)
    {
      top :| top in vecPriority;
      var rest := vecPriority - {top};
      while rest != {}
        invariant top in vecPriority && rest <= vecPriority
        invariant forall u :: u in vecPriority && u !in rest ==> config.priority(u) <= config.priority(top)
        decreases rest
      {
        var t :| t in rest;
        if config.priority(t) > config.priority(top) {
          top := t;
        }
        rest := rest - {t};
      }
    }

    /** Fills the part of the block reserved for priority. The heap is a set whose top is one of the highest priority;
        no transaction is ever found in it that is already in the block. It ends with its part of the block filled, not
        later, or close to the limits of the block, or with every transaction not taken waiting for a parent or turned
        down. */
    method AddPriorityTxs()
      requires Valid() && inBlock == {} && !blockFinished
      modifies this
      ensures Valid() && old(vtx) <= vtx
      ensures config.nBlockPriorityPercentage == 0 ==> Block() == old(Block())
      ensures SigOpsWithin(pool, config, old(Block())) ==> SigOpsWithin(pool, config, Block())
      ensures config.nBlockPriorityPercentage == 0 || PriorityDone() || NearlyFull() || NoneLeft(pool, config, Block())
      ensures ByPriority(pool, config, vtx)
    {
      hide Valid, Queues, Accounted, SigOpsWithin, NoneLeft, NearlyFull, PrioritySize, ByPriority, PriorityDone, GoesOn,
        TemplateOk, Pool.Valid, AllFinal, IsIndex;
      Parts();
      ListIs(pool, Block());
      NothingTakenYet(pool, config, vtx, inBlock);
      if config.nBlockPriorityPercentage == 0 {
        return;
      }
      var nBlockPrioritySize := PrioritySize(config);
      var vecPriority, waitPriMap := pool.entries.Keys, {};
      ghost var refused: set<Tx> := {};
      QueuesStart(pool.entries.Keys);
      AccountedStart(pool, config, Block());
      while vecPriority != {} && !blockFinished
        invariant Valid() && Queues(pool.entries.Keys, vecPriority, waitPriMap, inBlock) && old(vtx) <= vtx
        invariant Accounted(pool, config, Block(), vecPriority, waitPriMap, refused)
        invariant SigOpsWithin(pool, config, old(Block())) ==> SigOpsWithin(pool, config, Block())
        invariant blockFinished ==> NearlyFull()
        invariant Open(pool, config, vtx)
        decreases |pool.entries.Keys - inBlock|, |vecPriority|
      {
        var iter := TopPriority(vecPriority);
        var full;
        full, vecPriority, waitPriMap, refused :=
          PriorityStep(iter, vecPriority, waitPriMap, nBlockPrioritySize, refused);
        if full {
          return;
        }
      }
      if !blockFinished {
        AccountedEnd(pool, config, Block(), waitPriMap, refused);
      }
    }

    method PriorityStep(iter: Tx, vecIn: set<Tx>, waitIn: set<Tx>, nBlockPrioritySize: int, ghost refusedIn: set<Tx>)
        returns (stop: bool, vecPriority: set<Tx>, waitPriMap: set<Tx>, ghost refused: set<Tx>)
      requires Valid() && Queues(pool.entries.Keys, vecIn, waitIn, inBlock) && iter in vecIn && !blockFinished
      requires Accounted(pool, config, Block(), vecIn, waitIn, refusedIn)
      requires nBlockPrioritySize == PrioritySize(config) && Open(pool, config, vtx)
      requires forall u :: u in vecIn ==> config.priority(u) <= config.priority(iter)
      modifies this
      ensures Valid() && Queues(pool.entries.Keys, vecPriority, waitPriMap, inBlock) && old(vtx) <= vtx
      ensures if stop then PriorityDone() else Accounted(pool, config, Block(), vecPriority, waitPriMap, refused)
      ensures if stop then ByPriority(pool, config, vtx) else Open(pool, config, vtx)
      ensures blockFinished ==> NearlyFull()
      ensures SigOpsWithin(pool, config, old(Block())) ==> SigOpsWithin(pool, config, Block())
      ensures |pool.entries.Keys - inBlock| < |pool.entries.Keys - old(inBlock)|
              || (inBlock == old(inBlock) && vecPriority == vecIn - {iter})
    {
      hide Pool.Valid, TemplateOk, Queues, Accounted, TxFits, SigOpsWithin, AllFinal, NearlyFull, PrioritySize,
        Valid, Open, ByPriority, AllowFree, InTurn, IsIndex;
      Parts();
      ghost var all := pool.entries.Keys;
      QueuesStep(all, vecIn, waitIn, inBlock, iter);
      stop, vecPriority, waitPriMap, refused := false, vecIn - {iter}, waitIn, refusedIn;
      assert iter !in inBlock;
      if IsStillDependent(iter) {
        AccountedWaits(pool, config, Block(), vecIn, waitIn, refusedIn, iter);
        waitPriMap := waitPriMap + {iter};
        return;
      }
      var fits := TestForBlock(iter);
      if !fits {
        AccountedRefused(pool, config, Block(), vecIn, waitIn, refusedIn, iter);
        refused := refused + {iter};
        return;
      }
      Room(pool, config, nBlockSize, nBlockSigOps, iter);
      SigOpsFit(pool, config, Block(), iter);
      AccountedIncluded(pool, config, Block(), vecIn, waitIn, refusedIn, iter);
      TurnIsNow(pool, config, Block(), vecIn, waitIn, refusedIn, iter);
      PriorityNext(pool, config, vtx, iter);
      AddToBlock(iter);
      Parts();
      SizeIs(pool, Block());
      if nBlockSize >= nBlockPrioritySize || !AllowFree(config, iter) {
        stop := true;
        return;
      }
      var ready := pool.Children(iter) * waitPriMap;
      QueuesReady(all, vecPriority, waitPriMap, inBlock, ready);
      vecPriority := vecPriority + ready;
      waitPriMap := waitPriMap - ready;
    }

    /** Adds the sorted package; every member's parents are in the block by then. */
    method AddPackage(sortedEntries: seq<Tx>, package: set<Tx>, modIn: ModMap) returns (mod: ModMap)
      requires Valid() && NoRepeats(sortedEntries) && Elems(sortedEntries) == package
      requires package <= pool.entries.Keys && package !! inBlock && SortedByCount(pool, sortedEntries)
      requires forall t :: t in package ==> pool.entries[t].parents <= inBlock + package
      requires nBlockSize + pool.Size(package) <= config.nMaxGeneratedBlockSize
      requires forall t :: t in package ==> config.isFinal(t)
      modifies this
      ensures Valid() && inBlock == old(inBlock) + package && vtx == old(vtx) + sortedEntries
      ensures nBlockSize == old(nBlockSize) + pool.Size(package)
      ensures nBlockSigOps == old(nBlockSigOps) + pool.SigOps(package)
      ensures mod == modIn - package
    {
      mod := modIn;
      ghost var done: set<Tx> := {};
      hide Pool.Valid, TemplateOk, Elems, SortedByCount, NoRepeats, AllFinal;
      ElemsEmpty(sortedEntries);
      assert package - done == package;
      for i := 0 to |sortedEntries|
        invariant Valid() && done == Elems(sortedEntries[..i]) && done <= package
        invariant inBlock == old(inBlock) + done && vtx == old(vtx) + sortedEntries[..i]
        invariant nBlockSize + pool.Size(package - done) == old(nBlockSize) + pool.Size(package)
        invariant nBlockSigOps + pool.SigOps(package - done) == old(nBlockSigOps) + pool.SigOps(package)
        invariant mod == modIn - done
      {
        var entry := sortedEntries[i];
        PackageMember(pool, sortedEntries, package, old(inBlock), i);
        PackageRest(pool, package, done, entry);
        AddToBlock(entry);
        mod := mod - {entry};
        done := done + {entry};
      }
      assert package - package == {};
    }

    /** One step of package selection. Every candidate has right totals, nothing in the block is a
        candidate, and the step either includes something or uses a candidate up. */
    method ConsiderPackage(iter: Tx, fUsingModified: bool, modIn: ModMap, failedIn: set<Tx>)
        returns (outcome: Outcome, mod: ModMap, failed: set<Tx>)
      requires Valid() && Cached(pool, inBlock, {}, failedIn, modIn) && Failures(pool, config, Block(), failedIn)
      requires iter in pool.entries && (fUsingModified <==> iter in modIn)
      requires iter !in inBlock && (!fUsingModified ==> iter !in failedIn)
      modifies this
      ensures Valid() && Cached(pool, inBlock, {}, failed, mod) && Failures(pool, config, Block(), failed)
      ensures old(vtx) <= vtx && iter in pool.ancestors
      ensures outcome.Included? ==>
                var left := pool.Package(iter) - old(inBlock);
                && inBlock == old(inBlock) + left && iter in inBlock && left <= pool.entries.Keys
                && nBlockSize == old(nBlockSize) + pool.Size(left) < config.nMaxGeneratedBlockSize
                && nBlockSigOps == old(nBlockSigOps) + pool.SigOps(left)
                && SigOpsWithin(pool, config, Block()) && failed == failedIn
                && (iter !in failedIn ==> SigOpsBelow(config, Block()))
                && NoneForgotten(pool, left, modIn - left, mod)
      ensures !outcome.Included? ==> Block() == old(Block())
      ensures outcome.LowFee? <==> Used(pool, modIn, iter).modFees < config.minFee(Used(pool, modIn, iter).size)
      ensures outcome.LowFee? ==> mod == modIn && failed == failedIn
      ensures outcome.Failed? || outcome.NotFinal? ==>
                && mod == (if fUsingModified then modIn - {iter} else modIn)
                && failed == (if fUsingModified then failedIn + {iter} else failedIn)
                && Known(pool, vtx, iter) && TurnedDown(pool, config, vtx, iter)
    {
      hide Pool.Valid, TemplateOk, Cached, NoneForgotten, TurnedDown, AllFinal, SigOpsWithin, Known, Failures,
        CandidateFor, Enough, Valid, Pool.Size, Pool.SigOps, PackageFits, SigOpsBelow, IsIndex;
      Parts();
      var e := pool.entries[iter];
      var packageSize, packageFees, packageSigOps := e.sizeWithAncestors, e.modFeesWithAncestors, e.sigOpsWithAncestors;
      if fUsingModified {
        packageSize, packageFees, packageSigOps := modIn[iter].size, modIn[iter].modFees, modIn[iter].sigOps;
      }
      mod, failed := modIn, failedIn;
      KnownAncestors(pool, iter);
      ghost var b, totals := Block(), Modified(packageSize, packageFees, packageSigOps);
      CandidateTotals(pool, b, failedIn, modIn, iter, totals);
      if fUsingModified {
        DropFailed(pool, inBlock, failedIn, modIn, iter);
      }
      if packageFees < config.minFee(packageSize) {
        return LowFee, mod, failed;
      }
      if !TestPackage(packageSize, packageSigOps) {
        TotalsUnfit(pool, config, b, failedIn, iter, totals);
        if fUsingModified {
          FailsNow(pool, config, b, failedIn, iter);
          mod, failed := mod - {iter}, failed + {iter};
        }
        return Failed, mod, failed;
      }
      var ancestors := pool.Package(iter) - inBlock;
      var ok := TestPackageTransactions(ancestors);
      if !ok {
        PackageUnfit(pool, config, b, iter);
        if fUsingModified {
          FailsNow(pool, config, b, failedIn, iter);
          mod, failed := mod - {iter}, failed + {iter};
        }
        return NotFinal, mod, failed;
      }
      mod := IncludePackage(iter, ancestors, mod, failed);
      Parts();
      Fitted(pool, config, b, Block(), failedIn, iter, totals);
      BlockKnown(pool, Block());
      FailuresStay(pool, config, b, Block(), failedIn);
      outcome := Included;
    }

    /** Includes what is left of a package and brings the totals of all its descendants up to date. */
    method IncludePackage(iter: Tx, ancestors: set<Tx>, modIn: ModMap, ghost failed: set<Tx>) returns (mod: ModMap)
      requires Valid() && Cached(pool, inBlock, {}, failed, modIn) && iter in pool.entries && iter in pool.ancestors
      requires ancestors == pool.Package(iter) - inBlock && ancestors <= pool.entries.Keys
      requires nBlockSize + pool.Size(ancestors) <= config.nMaxGeneratedBlockSize
      requires forall t :: t in ancestors ==> config.isFinal(t)
      modifies this
      ensures Valid() && Cached(pool, inBlock, {}, failed, mod) && old(vtx) <= vtx
      ensures inBlock == old(inBlock) + ancestors && nBlockSize == old(nBlockSize) + pool.Size(ancestors)
      ensures nBlockSigOps == old(nBlockSigOps) + pool.SigOps(ancestors)
      ensures NoneForgotten(pool, ancestors, modIn - ancestors, mod)
    {
      hide Pool.Valid, TemplateOk, Cached, NoneForgotten, Elems, SortedByCount, NoRepeats, AllFinal;
      var sortedEntries := SortForBlock(pool, ancestors);
      ghost var before := inBlock;
      PackageClosed(pool, Block(), iter);
      mod := AddPackage(sortedEntries, ancestors, modIn);
      AboutToInclude(pool, before, failed, modIn, ancestors);
      mod := UpdatePackagesForAdded(pool, ancestors, mod, before, failed);
    }

    /** The state of package selection: the candidates' totals are right, everything dealt with is in the block, a
        candidate or turned down, what was taken from `n` on was taken in line, and `many` failed in a row. */
    ghost predicate Selecting(mi: nat, mod: ModMap, failed: set<Tx>, n: nat, failures: nat, many: set<Tx>)
      reads this
    {
      && Valid() && mi <= |config.byScore|
      && Cached(pool, inBlock, {}, failed, mod) && Failures(pool, config, Block(), failed)
      && Settled(pool, config, Block(), SeenTo(config, mi), mod)
      && n <= |vtx| && ByPackage(pool, config, vtx, n)
      && |many| == failures && InARow(pool, config, Block(), mod, failed, mi, many)
    }

    /** Package selection: in every step the candidates' totals are right and none of them is in the
        block, and the loop ends. Packages are taken in line, and only such as pay enough. Every entry of the pool's
        index is then in the block or was turned down, unless selection gave up, or stopped at a package that pays too
        little. */
    method AddPackageTxs() returns (nPackagesSelected: nat)
      requires Valid()
      modifies this
      ensures Valid() && old(vtx) <= vtx
      ensures SigOpsWithin(pool, config, old(Block())) ==> SigOpsWithin(pool, config, Block())
      ensures ByPackage(pool, config, vtx, |old(vtx)|)
      ensures Ended(pool, config, Block())
    {
      hide Selecting, Valid, Cached, SigOpsWithin, Ended, ByPackage, Pool.Valid;
      nPackagesSelected := 0;
      var mod, failed, mi, nConsecutiveFailed := StartSelection();
      ghost var many: set<Tx> := {};
      while mi < |config.byScore| || mod != map[]
        invariant mi <= |config.byScore| && old(vtx) <= vtx
        invariant Selecting(mi, mod, failed, |old(vtx)|, nConsecutiveFailed, many)
        invariant SigOpsWithin(pool, config, old(Block())) ==> SigOpsWithin(pool, config, Block())
        decreases |pool.entries.Keys - inBlock|, |config.byScore| - mi + |mod|
      {
        if mi < |config.byScore| && SkipMapTxEntry(config.byScore[mi], mod, failed) {
          Skipped(mi, mod, failed, |old(vtx)|, nConsecutiveFailed, many);
          mi := mi + 1;
          continue;
        }
        var stop, included;
        stop, included, mi, mod, failed, nConsecutiveFailed, many :=
          SelectionStep(mi, mod, failed, nConsecutiveFailed, many, |old(vtx)|);
        if stop {
          return;
        }
        if included {
          nPackagesSelected := nPackagesSelected + 1;
        }
      }
      NothingLeft(mi, failed, |old(vtx)|, nConsecutiveFailed, many);
    }

    /** Starts with the descendants of what is in the block as candidates. */
    method StartSelection() returns (mod: ModMap, failed: set<Tx>, mi: nat, nConsecutiveFailed: nat)
      requires Valid()
      ensures mi == 0 && Selecting(mi, mod, failed, |vtx|, nConsecutiveFailed, {})
    {
      hide Pool.Valid, TemplateOk, Cached, NoneForgotten, Settled, Failures, SeenTo, Valid, Closed, IsIndex, ByPackage,
        InARow;
      Parts();
      ParentsFirstClosed(pool, Block());
      NothingCached(pool, inBlock);
      mod, failed, mi, nConsecutiveFailed := map[], {}, 0, 0;
      mod := UpdatePackagesForAdded(pool, inBlock, mod, {}, {});
      assert {} + inBlock == inBlock;
      SettledStart(pool, config, Block(), mod);
      NoneTaken(pool, config, vtx);
      NoneTurnedDown(pool, config, Block(), mod, failed, mi);
    }

    lemma Skipped(mi: nat, mod: ModMap, failed: set<Tx>, n: nat, failures: nat, many: set<Tx>)
      requires Selecting(mi, mod, failed, n, failures, many)
      requires mi < |config.byScore| && SkipMapTxEntry(config.byScore[mi], mod, failed)
      ensures Selecting(mi + 1, mod, failed, n, failures, many)
    {
      hide Pool.Valid, TemplateOk, Cached, Settled, Failures, SeenTo, AllFinal, Valid, IsIndex, ByPackage, InARow;
      Parts();
      KnownAncestors(pool, config.byScore[mi]);
      SettledSkip(pool, config, Block(), mi, mod, failed);
      StillInARow(pool, config, Block(), mod, failed, mi, many);
    }

    lemma NothingLeft(mi: nat, failed: set<Tx>, n: nat, failures: nat, many: set<Tx>)
      requires Selecting(mi, map[], failed, n, failures, many) && mi == |config.byScore|
      ensures Valid() && Ended(pool, config, Block()) && ByPackage(pool, config, vtx, n)
    {
      hide Cached, Settled, Failures, SeenTo, Valid, InARow, ByPackage, Ended;
      SettledEnd(pool, config, Block());
    }

    /** Considers a candidate, and counts how many have failed in a row. */
    method SelectionStep(miIn: nat, modIn: ModMap, failedIn: set<Tx>, failuresIn: nat, ghost manyIn: set<Tx>,
                         ghost n: nat)
        returns (stop: bool, included: bool, mi: nat, mod: ModMap, failed: set<Tx>, nConsecutiveFailed: nat,
                 ghost many: set<Tx>)
      requires Selecting(miIn, modIn, failedIn, n, failuresIn, manyIn) && miIn <= |config.byScore|
      requires miIn < |config.byScore| || modIn != map[]
      requires miIn < |config.byScore| ==> !SkipMapTxEntry(config.byScore[miIn], modIn, failedIn)
      modifies this
      ensures miIn <= mi <= |config.byScore| && old(vtx) <= vtx
      ensures SigOpsWithin(pool, config, old(Block())) ==> SigOpsWithin(pool, config, Block())
      ensures stop ==> Valid() && Ended(pool, config, Block()) && ByPackage(pool, config, vtx, n)
      ensures !stop ==> Selecting(mi, mod, failed, n, nConsecutiveFailed, many)
      ensures stop || |pool.entries.Keys - inBlock| < |pool.entries.Keys - old(inBlock)|
              || (inBlock == old(inBlock) && |mod| - mi < |modIn| - miIn)
    {
      hide Pool.Valid, TemplateOk, Cached, NoneForgotten, Settled, Failures, SeenTo, SigOpsWithin, AllFinal, Ended,
        Valid, Closed, IsIndex, ByPackage, InARow, UsedUp, Known, TurnedDown;
      var outcome;
      ghost var iter;
      stop, included, nConsecutiveFailed, many := false, false, failuresIn, manyIn;
      outcome, mi, mod, failed, iter := PackageStep(miIn, modIn, failedIn, n);
      if outcome.LowFee? {
        stop := true;
      } else if outcome.Included? {
        nConsecutiveFailed, many, included := 0, {}, true;
        NoneTurnedDown(pool, config, Block(), mod, failed, mi);
      } else {
        Parts();
        OneMoreInARow(pool, config, Block(), modIn, mod, failedIn, failed, miIn, mi, manyIn, iter);
        if outcome.Failed? {
          nConsecutiveFailed, many := nConsecutiveFailed + 1, many + {iter};
          if nConsecutiveFailed > 1000 && nBlockSize > config.nMaxGeneratedBlockSize - 1000 {
            GivesUp(pool, config, Block(), mod, failed, mi, many);
            stop := true;
          }
        }
      }
    }

    /** Considers the next candidate: something is included, or a candidate is used up, or selection stops. */
    method PackageStep(miIn: nat, modIn: ModMap, failedIn: set<Tx>, ghost n: nat)
        returns (outcome: Outcome, mi: nat, mod: ModMap, failed: set<Tx>, ghost iter: Tx)
      requires Valid() && miIn <= |config.byScore| && (miIn < |config.byScore| || modIn != map[])
      requires miIn < |config.byScore| ==> !SkipMapTxEntry(config.byScore[miIn], modIn, failedIn)
      requires Cached(pool, inBlock, {}, failedIn, modIn) && Failures(pool, config, Block(), failedIn)
      requires Settled(pool, config, Block(), SeenTo(config, miIn), modIn)
      requires n <= |vtx| && ByPackage(pool, config, vtx, n)
      modifies this
      ensures Valid() && miIn <= mi <= |config.byScore| && old(vtx) <= vtx
      ensures Cached(pool, inBlock, {}, failed, mod) && Failures(pool, config, Block(), failed)
      ensures SigOpsWithin(pool, config, old(Block())) ==> SigOpsWithin(pool, config, Block())
      ensures if outcome.LowFee? then Ended(pool, config, Block())
              else Settled(pool, config, Block(), SeenTo(config, mi), mod)
      ensures ByPackage(pool, config, vtx, n)
      ensures outcome.Included? ==> |pool.entries.Keys - inBlock| < |pool.entries.Keys - old(inBlock)|
      ensures outcome.Failed? || outcome.NotFinal? ==>
                && Block() == old(Block()) && |mod| - mi < |modIn| - miIn
                && UsedUp(config, modIn, mod, failedIn, failed, miIn, mi, iter)
                && iter !in inBlock && Known(pool, vtx, iter) && TurnedDown(pool, config, vtx, iter)
    {
      hide Pool.Valid, TemplateOk, Cached, NoneForgotten, Settled, SeenTo, SigOpsWithin, Failures, AllFinal, NextInLine,
        TurnedDown, Known, Valid, IsIndex, ByPackage, IsBest;
      Parts();
      PositiveTotals(pool, inBlock, failedIn, modIn);
      ModifiedKnown(pool, inBlock, failedIn, modIn);
      var next, fUsingModified;
      next, fUsingModified, mi := NextCandidate(miIn, modIn);
      iter := next;
      CandidateKnown(pool, inBlock, failedIn, modIn, iter);
      KnownAncestors(pool, iter);
      assert iter !in inBlock;
      ghost var b, e := Block(), Used(pool, modIn, iter);
      BestIsNext(pool, config, b, failedIn, modIn, miIn, iter);
      outcome, mod, failed := ConsiderPackage(next, fUsingModified, modIn, failedIn);
      if outcome.Included? {
        Parts();
        ghost var left := pool.Package(iter) - b.inBlock;
        MoreIncluded(pool, b.inBlock, iter);
        BlockKnown(pool, Block());
        KeptCandidates(pool, left, modIn, mod);
        SettledIncluded(pool, config, b, Block(), SeenTo(config, miIn), left, modIn, mod);
        SettledMore(pool, config, Block(), miIn, mi, mod, mod, iter);
        ListIs(pool, b);
        PackageTaken(pool, config, b, Block(), n, iter, e);
      } else if outcome.LowFee? {
        assert StoppedAt(pool, config, b, iter, e);
      } else {
        OneLess(modIn, iter);
        SettledMore(pool, config, b, miIn, mi, modIn, mod, iter);
      }
    }

    predicate SkipMapTxEntry(it: Tx, mod: ModMap, failed: set<Tx>)
      reads this
    {
      it in mod || it in inBlock || it in failed
    }

    /** The next entry of the pool's index, or the best of the modified entries if that is better. */
    method NextCandidate(miIn: nat, mod: ModMap) returns (iter: Tx, fUsingModified: bool, mi: nat)
      requires miIn <= |config.byScore| && (miIn < |config.byScore| || mod != map[]) && IsIndex(pool, config.byScore)
      requires miIn < |config.byScore| ==> config.byScore[miIn] !in mod
      requires forall t :: t in mod ==> t in pool.entries && mod[t].size > 0
      requires forall t :: t in pool.entries ==> PoolTotals(pool, t).size > 0
      ensures if fUsingModified then iter in mod && mi == miIn
              else miIn < |config.byScore| && iter == config.byScore[miIn] && mi == miIn + 1 && iter !in mod
      ensures iter in pool.entries && IsBest(pool, config, mod, miIn, iter)
    {
      hide Better;
      mi, fUsingModified := miIn, false;
      if mi == |config.byScore| {
        iter := BestModified(mod);
        fUsingModified := true;
      } else {
        iter := config.byScore[mi];
        ghost var first := iter;
        IndexTop(pool, config, miIn);
        if mod != map[] {
          var modit := BestModified(mod);
          if Better(modit, mod[modit], iter, PoolTotals(pool, iter)) {
            BetterOne(modit, mod[modit], iter, PoolTotals(pool, iter));
            iter, fUsingModified := modit, true;
            forall k | miIn <= k < |config.byScore|
              ensures !Better(config.byScore[k], PoolTotals(pool, config.byScore[k]), modit, mod[modit])
            {
              NoBetter(modit, mod[modit], first, PoolTotals(pool, first), config.byScore[k],
                       PoolTotals(pool, config.byScore[k]));
            }
          } else {
            forall u | u in mod
              ensures !Better(u, mod[u], iter, PoolTotals(pool, iter))
            {
              NoBetter(iter, PoolTotals(pool, iter), modit, mod[modit], u, mod[u]);
            }
          }
        }
        if !fUsingModified {
          mi := mi + 1;
        }
      }
    }

    /** Selects the transactions of a new block: priority transactions first, then packages. */
    method SelectTransactions() returns (nPackagesSelected: nat)
      requires Valid() && vtx == [] && !blockFinished
      modifies this
      ensures Valid()
      ensures config.maxSigOps(1000) > 100 ==> SigOpsWithin(pool, config, Block())
      ensures exists n :: SelectedAt(pool, config, vtx, n)
      ensures Ended(pool, config, Block())
    {
      assert Elems([]) == {};
      if config.maxSigOps(1000) > 100 {
        SigOpsReserved(pool, config, Block());
      }
      hide Pool.Valid, TemplateOk, SigOpsWithin, AllFinal, Ended, NoneLeft, ByPriority, ByPackage, IsIndex;
      AddPriorityTxs();
      ghost var n := |vtx|;
      ghost var first := vtx;
      nPackagesSelected := AddPackageTxs();
      assert vtx[..n] == first;
      assert SelectedAt(pool, config, vtx, n);
    }
  }

  datatype Outcome = Included | Failed | NotFinal | LowFee

  /** No transaction is twice among the queued, the waiting and the included ones. */
  ghost predicate Queues(all: set<Tx>, vec: set<Tx>, wait: set<Tx>, block: set<Tx>) {
    vec <= all && wait <= all && vec !! wait && vec !! block && wait !! block
  }

  lemma QueuesStart(all: set<Tx>)
    ensures Queues(all, all, {}, {})
  {
  }

  lemma QueuesStep(all: set<Tx>, vec: set<Tx>, wait: set<Tx>, block: set<Tx>, t: Tx)
    requires Queues(all, vec, wait, block) && t in vec
    ensures t in all && t !in block
    ensures Queues(all, vec - {t}, wait, block)
    ensures Queues(all, vec - {t}, wait + {t}, block)
    ensures Queues(all, vec - {t}, wait, block + {t})
    ensures |all - (block + {t})| < |all - block|
  {
    assert all - (block + {t}) == (all - block) - {t};
  }

  lemma QueuesReady(all: set<Tx>, vec: set<Tx>, wait: set<Tx>, block: set<Tx>, ready: set<Tx>)
    requires Queues(all, vec, wait, block) && ready <= wait
    ensures Queues(all, vec + ready, wait - ready, block)
  {
  }

  /** The parents of a member are in the block or earlier in the sorted package. */
  lemma PackageMember(pool: Pool, s: seq<Tx>, package: set<Tx>, before: set<Tx>, i: int)
    requires pool.Valid() && NoRepeats(s) && Elems(s) == package && SortedByCount(pool, s) && 0 <= i < |s|
    requires forall t :: t in package ==> t in pool.entries && pool.entries[t].parents <= before + package
    requires package !! before
    ensures s[i] in package && s[i] !in Elems(s[..i]) && s[i] !in before
    ensures Elems(s[..i + 1]) == Elems(s[..i]) + {s[i]} && s[..i + 1] == s[..i] + [s[i]]
    ensures pool.entries[s[i]].parents <= before + Elems(s[..i])
  {
    hide Elems, NoRepeats, SortedByCount, Pool.Valid;
    InElems(s, s[i]);
    PrefixNext(s, i);
    forall p | p in pool.entries[s[i]].parents && p !in before
      ensures p in Elems(s[..i])
    {
      InElems(s, p);
      SortedIsTopological(pool, s, i, p);
      InElems(s[..i], p);
    }
  }

  lemma InElems(s: seq<Tx>, t: Tx)
    ensures t in Elems(s) <==> t in s
  {
  }

  lemma PrefixNext(s: seq<Tx>, i: int)
    requires NoRepeats(s) && 0 <= i < |s|
    ensures s[i] !in Elems(s[..i]) && s[..i + 1] == s[..i] + [s[i]] && Elems(s[..i + 1]) == Elems(s[..i]) + {s[i]}
  {
  }

  lemma PackageRest(pool: Pool, package: set<Tx>, done: set<Tx>, t: Tx)
    requires package <= pool.entries.Keys && t in package && t !in done
    ensures pool.Size(package - done) == pool.entries[t].size + pool.Size(package - (done + {t}))
    ensures pool.SigOps(package - done) == pool.entries[t].sigOps + pool.SigOps(package - (done + {t}))
  {
    pool.SumsRemove(package - done, t);
    assert package - done - {t} == package - (done + {t});
  }

  lemma ElemsEmpty(s: seq<Tx>)
    ensures Elems(s[..0]) == {} && s[..|s|] == s
  {
  }

  /** The totals used for a candidate are those of its package without some ancestors that are in the block,
      and without all of them if it has not failed before. */
  ghost predicate CandidateFor(pool: Pool, block: set<Tx>, failed: set<Tx>, t: Tx, e: Modified)
    requires t in pool.ancestors && pool.Package(t) <= pool.entries.Keys
  {
    exists done :: TakenOff(pool, block, failed, t, done) && TotalsFor(pool, t, done, e)
  }

  /** The size and signature operations used for a candidate: never too low, and exact if it has not failed before. */
  ghost predicate Enough(pool: Pool, block: set<Tx>, failed: set<Tx>, t: Tx, e: Modified)
    requires t in pool.ancestors && pool.Package(t) <= pool.entries.Keys
  {
    var left := pool.Package(t) - block;
    && e.size >= pool.Size(left) && e.sigOps >= pool.SigOps(left)
    && (t !in failed ==> e.size == pool.Size(left) && e.sigOps == pool.SigOps(left))
  }

  lemma CandidateTotals(pool: Pool, b: Template, failed: set<Tx>, mod: ModMap, t: Tx, e: Modified)
    requires pool.Valid() && Cached(pool, b.inBlock, {}, failed, mod) && t in pool.entries && t !in b.inBlock
    requires t in mod || t !in failed
    requires e == if t in mod then mod[t]
                  else Modified(pool.entries[t].sizeWithAncestors, pool.entries[t].modFeesWithAncestors,
                                pool.entries[t].sigOpsWithAncestors)
    ensures t in pool.ancestors && pool.Package(t) <= pool.entries.Keys && CandidateFor(pool, b.inBlock, failed, t, e)
    ensures Enough(pool, b.inBlock, failed, t, e)
  {
    hide Pool.Valid, Cached, CandidateFor, TotalsOk;
    pool.Totals(t);
    if t in mod {
      ModifiedTotals(pool, b.inBlock, failed, mod, t);
    } else {
      PoolTotalsExact(pool, b.inBlock, failed, mod, t);
      UntouchedTotals(pool, b.inBlock, failed, t, e);
    }
    AtLeastLeft(pool, b.inBlock, failed, t, e);
  }

  lemma ModifiedTotals(pool: Pool, block: set<Tx>, failed: set<Tx>, mod: ModMap, t: Tx)
    requires pool.Valid() && Cached(pool, block, {}, failed, mod) && t in mod
    ensures t in pool.ancestors && pool.Package(t) <= pool.entries.Keys
    ensures TotalsOk(pool, block, failed, t, mod[t]) && CandidateFor(pool, block, failed, t, mod[t])
  {
    hide TotalsFor, TakenOff;
  }

  lemma UntouchedTotals(pool: Pool, block: set<Tx>, failed: set<Tx>, t: Tx, e: Modified)
    requires t in pool.ancestors && pool.Package(t) <= pool.entries.Keys && pool.Package(t) - block == pool.Package(t)
    requires e == Modified(pool.Size(pool.Package(t)), pool.ModFees(pool.Package(t)), pool.SigOps(pool.Package(t)))
    ensures CandidateFor(pool, block, failed, t, e)
  {
    hide Pool.Size, Pool.SigOps, Pool.ModFees, Pool.Deltas;
    NoDeltas(pool);
    NothingTaken(pool, block, failed, t);
    assert pool.Package(t) - {} == pool.Package(t);
    assert TotalsFor(pool, t, {}, e);
  }

  lemma AtLeastLeft(pool: Pool, block: set<Tx>, failed: set<Tx>, t: Tx, e: Modified)
    requires t in pool.ancestors && pool.Package(t) <= pool.entries.Keys && CandidateFor(pool, block, failed, t, e)
    ensures Enough(pool, block, failed, t, e)
  {
    hide Pool.Size, Pool.SigOps, Pool.ModFees, Pool.Deltas;
    var done :| TakenOff(pool, block, failed, t, done) && TotalsFor(pool, t, done, e);
    var rest, left := pool.Package(t) - done, pool.Package(t) - block;
    pool.SumsMonotone(left, rest);
    if t !in failed {
      assert rest == left;
    }
  }

  lemma BlockKnown(pool: Pool, b: Template)
    requires TemplateOk(pool, b)
    ensures forall u :: u in b.vtx ==> u in pool.entries
  {
  }

  lemma LeftIs(pool: Pool, b: Template, t: Tx)
    requires TemplateOk(pool, b) && t in pool.ancestors && pool.Package(t) <= pool.entries.Keys
    ensures Known(pool, b.vtx, t) && Left(pool, b.vtx, t) == pool.Package(t) - b.inBlock
    ensures b.nBlockSize == 1000 + SeqSize(pool, b.vtx) && b.nBlockSigOps == 100 + SeqSigOps(pool, b.vtx)
  {
  }

  /** A candidate whose totals do not fit is turned down, the first time by its exact totals. */
  lemma TotalsUnfit(pool: Pool, config: Config, b: Template, failed: set<Tx>, t: Tx, e: Modified)
    requires TemplateOk(pool, b) && Failures(pool, config, b, failed)
    requires t in pool.ancestors && pool.Package(t) <= pool.entries.Keys
    requires Enough(pool, b.inBlock, failed, t, e)
    requires !PackageFits(config, b.nBlockSize, b.nBlockSigOps, e.size, e.sigOps)
    ensures Known(pool, b.vtx, t) && TurnedDown(pool, config, b.vtx, t)
  {
    LeftIs(pool, b, t);
    assert b.vtx[..|b.vtx|] == b.vtx;
    hide TemplateOk;
    if t !in failed && b.nBlockSize + e.size < config.nMaxGeneratedBlockSize {
      assert SigOpsOverAt(pool, config, b.vtx, t, |b.vtx|);
    }
  }

  /** A package that is not final or too large is turned down. */
  lemma PackageUnfit(pool: Pool, config: Config, b: Template, t: Tx)
    requires TemplateOk(pool, b) && t in pool.ancestors && pool.Package(t) <= pool.entries.Keys
    requires
      var left := pool.Package(t) - b.inBlock;
      (exists u :: u in left && !config.isFinal(u)) || b.nBlockSize + pool.Size(left) >= config.nMaxGeneratedBlockSize
    ensures Known(pool, b.vtx, t) && TurnedDown(pool, config, b.vtx, t)
  {
    LeftIs(pool, b, t);
  }

  lemma FailsNow(pool: Pool, config: Config, b: Template, failed: set<Tx>, t: Tx)
    requires Failures(pool, config, b, failed) && Known(pool, b.vtx, t) && TurnedDown(pool, config, b.vtx, t)
    ensures Failures(pool, config, b, failed + {t})
  {
    hide TurnedDown;
  }

  /** A package that was included: the signature operations are within the limit that was tested. */
  lemma Fitted(pool: Pool, config: Config, b: Template, c: Template, failed: set<Tx>, t: Tx, e: Modified)
    requires TemplateOk(pool, b) && TemplateOk(pool, c) && b.vtx <= c.vtx && Failures(pool, config, b, failed)
    requires t in pool.ancestors && pool.Package(t) <= pool.entries.Keys && t !in b.inBlock && t in c.inBlock
    requires Enough(pool, b.inBlock, failed, t, e)
    requires
      var left := pool.Package(t) - b.inBlock;
      && c.nBlockSize == b.nBlockSize + pool.Size(left) && c.nBlockSigOps == b.nBlockSigOps + pool.SigOps(left)
      && forall u :: u in left ==> config.isFinal(u)
    requires PackageFits(config, b.nBlockSize, b.nBlockSigOps, e.size, e.sigOps)
    ensures SigOpsWithin(pool, config, c) && c.nBlockSize < config.nMaxGeneratedBlockSize
    ensures t !in failed ==> SigOpsBelow(config, c)
  {
    LeftIs(pool, b, t);
    BlockKnown(pool, c);
    assert t in c.vtx;
    if t in failed {
      RetriedFits(pool, config, b, c, t);
    }
    SigOpsTested(pool, config, c, b.nBlockSize + e.size, b.nBlockSigOps + e.sigOps);
  }

  lemma KeptCandidates(pool: Pool, added: set<Tx>, modIn: ModMap, mod: ModMap)
    requires NoneForgotten(pool, added, modIn - added, mod)
    ensures modIn.Keys - added <= mod.Keys
  {
  }

  /** Every candidate in the map has an ancestor in the block. */
  lemma ListIs(pool: Pool, b: Template)
    requires TemplateOk(pool, b)
    ensures b.inBlock == Elems(b.vtx)
  {
  }

  lemma SizeIs(pool: Pool, b: Template)
    requires TemplateOk(pool, b)
    ensures (forall u :: u in b.vtx ==> u in pool.entries) && b.nBlockSize == 1000 + SeqSize(pool, b.vtx)
  {
  }

  lemma NothingTakenYet(pool: Pool, config: Config, vtx: seq<Tx>, block: set<Tx>)
    requires block == {} && block == Elems(vtx)
    ensures vtx == [] && Open(pool, config, vtx) && ByPriority(pool, config, vtx)
  {
    if vtx != [] {
      InElems(vtx, vtx[0]);
    }
  }

  lemma NoneTaken(pool: Pool, config: Config, vtx: seq<Tx>)
    ensures ByPackage(pool, config, vtx, |vtx|)
  {
  }

  lemma ModifiedKnown(pool: Pool, block: set<Tx>, failed: set<Tx>, mod: ModMap)
    requires pool.Valid() && Cached(pool, block, {}, failed, mod)
    ensures forall t :: t in mod ==> t in pool.entries
  {
  }

  lemma IndexTop(pool: Pool, config: Config, mi: nat)
    requires IsIndex(pool, config.byScore) && mi < |config.byScore|
    ensures forall k :: mi <= k < |config.byScore| ==>
              !Better(config.byScore[k], PoolTotals(pool, config.byScore[k]), config.byScore[mi],
                      PoolTotals(pool, config.byScore[mi]))
  {
  }

  /** What one candidate that was not included leaves: it is used up. */
  ghost predicate UsedUp(config: Config, mod0: ModMap, mod: ModMap, failed0: set<Tx>, failed: set<Tx>, mi0: nat,
                         mi: nat,
                         t: Tx) {
    if t in mod0 then mod == mod0 - {t} && failed == failed0 + {t} && mi == mi0
    else
      && mod == mod0 && failed == failed0 && mi == mi0 + 1 && t !in failed0
      && mi0 < |config.byScore| && t == config.byScore[mi0]
  }

  /** Transactions that were turned down one after the other, and are no candidates any more. */
  ghost predicate InARow(pool: Pool, config: Config, b: Template, mod: ModMap, failed: set<Tx>, mi: nat,
                         many: set<Tx>) {
    && AllTurnedDown(pool, config, b, many) && mi <= |config.byScore|
    && forall t :: t in many ==> t !in mod && (t in failed || t in config.byScore[..mi])
  }

  lemma NoneTurnedDown(pool: Pool, config: Config, b: Template, mod: ModMap, failed: set<Tx>, mi: nat)
    requires mi <= |config.byScore|
    ensures InARow(pool, config, b, mod, failed, mi, {})
  {
  }

  lemma GivesUp(pool: Pool, config: Config, b: Template, mod: ModMap, failed: set<Tx>, mi: nat, many: set<Tx>)
    requires InARow(pool, config, b, mod, failed, mi, many) && |many| > 1000
    requires b.nBlockSize > config.nMaxGeneratedBlockSize - 1000
    ensures Ended(pool, config, b)
  {
  }

  lemma StillInARow(pool: Pool, config: Config, b: Template, mod: ModMap, failed: set<Tx>, mi: nat, many: set<Tx>)
    requires InARow(pool, config, b, mod, failed, mi, many) && mi < |config.byScore|
    ensures InARow(pool, config, b, mod, failed, mi + 1, many)
  {
    hide AllTurnedDown;
    assert config.byScore[..mi + 1] == config.byScore[..mi] + [config.byScore[mi]];
  }

  lemma OneMoreInARow(pool: Pool, config: Config, b: Template, mod0: ModMap, mod: ModMap, failed0: set<Tx>,
                      failed: set<Tx>, mi0: nat, mi: nat, many: set<Tx>, t: Tx)
    requires IsIndex(pool, config.byScore) && InARow(pool, config, b, mod0, failed0, mi0, many)
    requires UsedUp(config, mod0, mod, failed0, failed, mi0, mi, t) && mi <= |config.byScore|
    requires t !in b.inBlock && Known(pool, b.vtx, t) && TurnedDown(pool, config, b.vtx, t)
    ensures InARow(pool, config, b, mod, failed, mi, many)
    ensures InARow(pool, config, b, mod, failed, mi, many + {t}) && |many + {t}| == |many| + 1
  {
    hide TurnedDown, Known;
    assert mi > mi0 ==> config.byScore[..mi] == config.byScore[..mi0] + [config.byScore[mi0]];
  }

  lemma DropFailed(pool: Pool, block: set<Tx>, failed: set<Tx>, mod: ModMap, t: Tx)
    requires pool.Valid() && Cached(pool, block, {}, failed, mod)
    ensures Cached(pool, block, {}, failed + {t}, mod - {t})
  {
  }

  lemma AboutToInclude(pool: Pool, block: set<Tx>, failed: set<Tx>, mod: ModMap, package: set<Tx>)
    requires pool.Valid() && Cached(pool, block, {}, failed, mod) && package !! block
    ensures Cached(pool, block, package, failed, mod - package)
  {
  }

  /** What is left of a package has its parents in the block or in itself. */
  lemma PackageClosed(pool: Pool, b: Template, t: Tx)
    requires pool.Valid() && TemplateOk(pool, b) && t in pool.entries
    ensures Closed(pool, b.inBlock)
    ensures
      var package := pool.Package(t) - b.inBlock;
      && package <= pool.entries.Keys
      && forall u :: u in package ==> u in pool.entries && pool.entries[u].parents <= b.inBlock + package
  {
    ParentsFirstClosed(pool, b);
    hide TemplateOk;
    forall u | u in pool.Package(t)
      ensures u in pool.entries && pool.entries[u].parents <= pool.Package(t)
    {
      if u != t {
        pool.AncestorsTransitive(t, u);
      }
    }
  }

  lemma NothingCached(pool: Pool, block: set<Tx>)
    requires pool.Valid() && Closed(pool, block)
    ensures block <= pool.entries.Keys && Closed(pool, {})
    ensures Cached(pool, {}, block, {}, map[])
  {
  }

  lemma KnownAncestors(pool: Pool, t: Tx)
    requires pool.Valid() && t in pool.entries
    ensures t in pool.ancestors && pool.Package(t) <= pool.entries.Keys
  {
  }

  lemma CandidateKnown(pool: Pool, block: set<Tx>, failed: set<Tx>, mod: ModMap, t: Tx)
    requires pool.Valid() && Cached(pool, block, {}, failed, mod)
    ensures t in mod ==> t in pool.entries && t !in block
  {
  }

  lemma MoreIncluded(pool: Pool, block: set<Tx>, t: Tx)
    requires t in pool.entries && t in pool.ancestors && t !in block
    ensures |pool.entries.Keys - (block + (pool.Package(t) - block))| < |pool.entries.Keys - block|
  {
    var all := pool.entries.Keys;
    SubsetSize(all - (block + (pool.Package(t) - block)), (all - block) - {t});
  }

  lemma OneLess(mod: ModMap, t: Tx)
    ensures t in mod ==> |mod - {t}| == |mod| - 1
  {
  }
}
