/** The write-back cache of unspent coins (src/coins.h, src/coins.cpp).

    A view is either the coin database at the bottom or a cache stacked on another view.
    The specification of a whole stack is one finite map from outpoints to unspent coins. */
module Coins {
  import opened Common

  /** A script together with the heap memory that holds it. */
  datatype Script = Script(bytes: seq<bv8>, heap: nat) {
    predicate IsUnspendable() {
      (|bytes| > 0 && bytes[0] == 0x6a) || |bytes| > 10000
    }
  }

  datatype TxOut = TxOut(nValue: int, scriptPubKey: Script)

  datatype Coin = Coin(out: TxOut, height: nat, coinbase: bool) {
    predicate IsSpent() { out.nValue == -1 }

    function DynamicMemoryUsage(): nat { out.scriptPubKey.heap }
  }

  const EMPTY_COIN: Coin := Coin(TxOut(-1, Script([], 0)), 0, false)

  datatype OutPoint = OutPoint(txid: nat, n: nat)

  datatype CacheEntry = CacheEntry(coin: Coin, isDirty: bool, isFresh: bool)

  type CoinsMap = map<OutPoint, CacheEntry>

  type Utxo = map<OutPoint, Coin>

  function Get<T>(m: map<OutPoint, T>, o: OutPoint): Option<T> {
    if o in m then Some(m[o]) else None
  }

  // ---------------------------------------------------------------- specification

  /** What a cache shows: its own entries, and the base where it has none. */
  ghost function Overlay(cache: CoinsMap, base: Utxo): Utxo {
    map o | o in cache.Keys + base.Keys && (o in cache ==> !cache[o].coin.IsSpent())
      :: if o in cache then cache[o].coin else base[o]
  }

  /** The meaning of the two flags. */
  ghost predicate EntryOk(e: CacheEntry, o: OutPoint, base: Utxo) {
    && (e.isFresh ==> o !in base)
    && (!e.isDirty ==> if e.coin.IsSpent() then o !in base else o in base && base[o] == e.coin)
  }

  ghost predicate Coherent(cache: CoinsMap, base: Utxo) {
    forall o :: o in cache ==> EntryOk(cache[o], o, base)
  }

  ghost predicate AllUnspent(m: Utxo) {
    forall o :: o in m ==> !m[o].IsSpent()
  }

  ghost function TotalUsage(cache: CoinsMap): nat {
    if cache == map[] then 0 else
      var o :| o in cache;
      cache[o].coin.DynamicMemoryUsage() + TotalUsage(cache - {o})
  }

  lemma {:induction false} TotalUsageRemove(cache: CoinsMap, o: OutPoint)
    requires o in cache
    ensures TotalUsage(cache) == cache[o].coin.DynamicMemoryUsage() + TotalUsage(cache - {o})
    decreases |cache|
  {
    var p :| p in cache && TotalUsage(cache) == cache[p].coin.DynamicMemoryUsage() + TotalUsage(cache - {p});
    if p != o {
      TotalUsageRemove(cache - {p}, o);
      assert o in cache - {p} && p in cache - {o};
      TotalUsageRemove(cache - {o}, p);
      assert cache - {p} - {o} == cache - {o} - {p};
    }
  }

  lemma TotalUsageInsert(cache: CoinsMap, o: OutPoint, e: CacheEntry)
    ensures TotalUsage(cache[o := e]) == e.coin.DynamicMemoryUsage() + TotalUsage(cache - {o})
    ensures o !in cache ==> cache - {o} == cache
    ensures o in cache ==> TotalUsage(cache) == cache[o].coin.DynamicMemoryUsage() + TotalUsage(cache - {o})
  {
    TotalUsageRemove(cache[o := e], o);
    assert cache[o := e] - {o} == cache - {o};
    if o in cache {
      TotalUsageRemove(cache, o);
    } else {
      assert cache - {o} == cache;
    }
  }

  /** Loading an entry from the base changes neither the view nor the meaning of the flags. */
  lemma FetchExact(cache: CoinsMap, base: Utxo, o: OutPoint, coin: Coin)
    requires Coherent(cache, base) && o !in cache
    requires if coin.IsSpent() then o !in base else o in base && base[o] == coin
    ensures
      var e := CacheEntry(coin, false, coin.IsSpent());
      var cache' := cache[o := e];
      && Coherent(cache', base) && Overlay(cache', base) == Overlay(cache, base)
      && TotalUsage(cache') == TotalUsage(cache) + coin.DynamicMemoryUsage()
  {
    var e := CacheEntry(coin, false, coin.IsSpent());
    TotalUsageInsert(cache, o, e);
    assert cache - {o} == cache;
    assert Overlay(cache[o := e], base) == Overlay(cache, base);
  }

  /** The entry AddCoin writes. */
  function AddedEntry(prior: Option<CacheEntry>, coin: Coin, possibleOverwrite: bool): CacheEntry {
    var wasDirty := prior.Some? && prior.value.isDirty;
    var wasFresh := prior.Some? && prior.value.isFresh;
    CacheEntry(coin, true, wasFresh || (!possibleOverwrite && !wasDirty))
  }

  predicate AddThrows(cache: CoinsMap, o: OutPoint, possibleOverwrite: bool) {
    !possibleOverwrite && o in cache && !cache[o].coin.IsSpent()
  }

  lemma OverlayMiss(cache: CoinsMap, base: Utxo, o: OutPoint)
    requires o !in cache
    ensures o in Overlay(cache, base) <==> o in base
  {
  }

  lemma OverlayHit(cache: CoinsMap, base: Utxo, o: OutPoint)
    requires o in cache
    ensures Get(Overlay(cache, base), o) == if cache[o].coin.IsSpent() then None else Some(cache[o].coin)
  {
  }

  lemma SetTwice(cache: CoinsMap, o: OutPoint, a: CacheEntry, b: CacheEntry)
    ensures cache[o := a][o := b] == cache[o := b]
  {
  }

  /** AddCoin neither throws nor breaks the flags exactly when overwriting was announced or the
      view shows no coin at the outpoint; the new coin is then what the view shows. */
  lemma AddCoinExact(cache: CoinsMap, base: Utxo, o: OutPoint, coin: Coin, possibleOverwrite: bool)
    requires Coherent(cache, base) && !coin.IsSpent()
    ensures
      var cache' := cache[o := AddedEntry(Get(cache, o), coin, possibleOverwrite)];
      && ((!AddThrows(cache, o, possibleOverwrite) && Coherent(cache', base))
          <==> (possibleOverwrite || o !in Overlay(cache, base)))
      && Overlay(cache', base) == Overlay(cache, base)[o := coin]
  {
    var e := AddedEntry(Get(cache, o), coin, possibleOverwrite);
    var cache' := cache[o := e];
    assert Overlay(cache', base) == Overlay(cache, base)[o := coin];
    if possibleOverwrite || o !in Overlay(cache, base) {
      assert EntryOk(e, o, base);
    }
    if !possibleOverwrite && o in Overlay(cache, base) && !AddThrows(cache, o, possibleOverwrite) {
      assert o !in cache && o in base;
      assert o in cache' && !EntryOk(cache'[o], o, base);
    }
  }

  /** The entry SpendCoin leaves. */
  function SpentEntry(e: CacheEntry): Option<CacheEntry> {
    if e.isFresh then None else Some(CacheEntry(EMPTY_COIN, true, false))
  }

  function Store(cache: CoinsMap, o: OutPoint, e: Option<CacheEntry>): CoinsMap {
    if e.Some? then cache[o := e.value] else cache - {o}
  }

  lemma SpendCoinExact(cache: CoinsMap, base: Utxo, o: OutPoint)
    requires Coherent(cache, base) && o in cache
    ensures
      var cache' := Store(cache, o, SpentEntry(cache[o]));
      Coherent(cache', base) && Overlay(cache', base) == Overlay(cache, base) - {o}
  {
    var cache' := Store(cache, o, SpentEntry(cache[o]));
    assert EntryOk(cache[o], o, base);
    assert Overlay(cache', base) == Overlay(cache, base) - {o};
  }

  /** A coin that is added where the view shows none, and spent again before a flush, leaves nothing to be written. */
  lemma AddedAndSpent(cache: CoinsMap, base: Utxo, o: OutPoint, coin: Coin)
    requires Coherent(cache, base) && !coin.IsSpent() && o !in cache && o !in base
    ensures
      var added := cache[o := AddedEntry(Get(cache, o), coin, false)];
      Store(added, o, SpentEntry(added[o])) == cache
  {
  }

  /** Misusing AddCoin: with a coin in the base and no entry in the cache, adding without announcing
      the overwrite and then spending shows the base's coin again. */
  lemma MisusedAddResurrects(base: Utxo, o: OutPoint, coin: Coin)
    requires o in base && !coin.IsSpent()
    ensures
      var added: CoinsMap := map[o := AddedEntry(None, coin, false)];
      var spent := Store(added, o, SpentEntry(added[o]));
      Coherent(map[], base) && o in Overlay(spent, base)
  {
    var added: CoinsMap := map[o := AddedEntry(None, coin, false)];
    assert Store(added, o, SpentEntry(added[o])) == map[];
  }

  datatype Merge = Misapplied | Merged(entry: Option<CacheEntry>)

  /** How BatchWrite combines a child's entry with the parent's. */
  function MergeEntry(parent: Option<CacheEntry>, child: CacheEntry): Merge {
    if !child.isDirty then Merged(parent)
    else match parent
      case None =>
        if child.isFresh && child.coin.IsSpent() then Merged(None)
        else Merged(Some(CacheEntry(child.coin, true, child.isFresh)))
      case Some(us) =>
        if child.isFresh && !us.coin.IsSpent() then Misapplied
        else if us.isFresh && child.coin.IsSpent() then Merged(None)
        else Merged(Some(CacheEntry(child.coin, true, us.isFresh)))
  }

  /** What is left of a child's changed entry: it is new to the grandparent if the parent's entry was, or, without one,
      if it was new to the parent; and a spent coin that is new is forgotten. */
  lemma MergeFlags(parent: Option<CacheEntry>, child: CacheEntry)
    requires child.isDirty && !(child.isFresh && parent.Some? && !parent.value.coin.IsSpent())
    ensures
      var isNew := if parent.Some? then parent.value.isFresh else child.isFresh;
      MergeEntry(parent, child) ==
      Merged(if isNew && child.coin.IsSpent() then None else Some(CacheEntry(child.coin, true, isNew)))
  {
  }

  /** Whether the coins of the child's dirty entries replace those of the parent's view. */
  ghost function Written(child: CoinsMap, view: Utxo): Utxo {
    map o | o in child.Keys + view.Keys && (o in child && child[o].isDirty ==> !child[o].coin.IsSpent())
            && (o in view || child[o].isDirty)
      :: if o in child && child[o].isDirty then child[o].coin else view[o]
  }

  /** The only fact about a child that its parent relies on when it is flushed. */
  ghost predicate FreshUnseen(child: CoinsMap, view: Utxo) {
    forall o :: o in child && child[o].isFresh ==> o !in view
  }

  /** `merged` is `parent` with every entry of `child` merged in. */
  ghost predicate IsMerge(parent: CoinsMap, child: CoinsMap, merged: CoinsMap) {
    && (forall o {:trigger o in child} :: o in child ==>
          MergeEntry(Get(parent, o), child[o]).Merged?
          && Get(merged, o) == MergeEntry(Get(parent, o), child[o]).entry)
    && (forall o {:trigger o in merged} {:trigger o in parent} :: o !in child ==> Get(merged, o) == Get(parent, o))
  }

  /** Merging a child whose FRESH flags are right never trips the "misapplied" check, keeps the
      parent's flags right, and makes the parent show exactly the child's view of it. */
  lemma MergeExact(grand: Utxo, parent: CoinsMap, child: CoinsMap, o: OutPoint)
    requires Coherent(parent, grand) && FreshUnseen(child, Overlay(parent, grand))
    requires o in child
    ensures
      var m := MergeEntry(Get(parent, o), child[o]);
      && m.Merged?
      && (m.entry.Some? ==> EntryOk(m.entry.value, o, grand))
      && Get(Overlay(Store(parent, o, m.entry), grand), o) == Get(Written(child, Overlay(parent, grand)), o)
  {
    if o in parent {
      assert EntryOk(parent[o], o, grand);
    }
  }

  lemma MergeAllExact(grand: Utxo, parent: CoinsMap, child: CoinsMap, merged: CoinsMap)
    requires Coherent(parent, grand) && FreshUnseen(child, Overlay(parent, grand))
    requires IsMerge(parent, child, merged)
    ensures Coherent(merged, grand)
    ensures Overlay(merged, grand) == Written(child, Overlay(parent, grand))
  {
    var view := Overlay(parent, grand);
    forall o | o in merged
      ensures EntryOk(merged[o], o, grand)
    {
      assert Get(merged, o) == Some(merged[o]);
      if o in child { MergeExact(grand, parent, child, o); } else { assert Get(merged, o) == Get(parent, o); }
    }
    forall o
      ensures Get(Overlay(merged, grand), o) == Get(Written(child, view), o)
    {
      if o in child {
        MergeExact(grand, parent, child, o);
        assert Get(Store(parent, o, MergeEntry(Get(parent, o), child[o]).entry), o) == Get(merged, o);
      } else {
        assert Get(merged, o) == Get(parent, o);
      }
    }
    SameMap(Overlay(merged, grand), Written(child, view));
  }

  lemma EraseOne(m: CoinsMap, todo: set<OutPoint>, o: OutPoint)
    requires o in todo && todo <= m.Keys
    ensures (m - todo)[o := m[o]] == m - (todo - {o})
  {
  }

  lemma MergeKeeps(parent: CoinsMap, done: CoinsMap, merged: CoinsMap, o: OutPoint)
    requires IsMerge(parent, done, merged) && o !in done
    ensures Get(merged, o) == Get(parent, o)
  {
    assert o in parent || o in merged || Get(merged, o) == Get(parent, o);
  }

  lemma MergeStep(parent: CoinsMap, done: CoinsMap, merged: CoinsMap, o: OutPoint, child: CacheEntry)
    requires IsMerge(parent, done, merged) && o !in done
    requires MergeEntry(Get(parent, o), child).Merged?
    ensures IsMerge(parent, done[o := child], Store(merged, o, MergeEntry(Get(parent, o), child).entry))
  {
    var done', merged' := done[o := child], Store(merged, o, MergeEntry(Get(parent, o), child).entry);
    forall p | p !in done'
      ensures Get(merged', p) == Get(parent, p)
    {
      MergeKeeps(parent, done, merged, p);
    }
  }

  lemma WriteStep(view: Utxo, done: CoinsMap, o: OutPoint, child: CacheEntry)
    requires o !in done
    ensures Written(done[o := child], view) ==
            if !child.isDirty then Written(done, view)
            else if child.coin.IsSpent() then Written(done, view) - {o}
            else Written(done, view)[o := child.coin]
  {
  }

  lemma SameMap(a: Utxo, b: Utxo)
    requires forall o :: Get(a, o) == Get(b, o)
    ensures a == b
  {
    forall o
      ensures o in a <==> o in b
      ensures o in a ==> a[o] == b[o]
    {
      assert Get(a, o) == Get(b, o);
    }
    assert a.Keys == b.Keys;
  }

  /** A coherent cache written to its base gives the base the view the cache had. */
  lemma FlushKeepsView(cache: CoinsMap, base: Utxo)
    requires Coherent(cache, base)
    ensures FreshUnseen(cache, base)
    ensures Written(cache, base) == Overlay(cache, base)
    ensures Overlay(map[], Overlay(cache, base)) == Overlay(cache, base)
  {
    forall o
      ensures Get(Written(cache, base), o) == Get(Overlay(cache, base), o)
    {
      assert o in cache ==> EntryOk(cache[o], o, base);
    }
    SameMap(Written(cache, base), Overlay(cache, base));
  }
}
