/** The stack of coin views as objects, and the theorem that every run on a stack is a run on
    one plain map (src/coins.cpp, src/txdb.cpp). */
module CoinsViews {
  import opened Common
  import opened Coins

  /** The loop of BatchWrite in a cache, on the cache's map and its usage counter. */
  method MergeInto(cacheIn: CoinsMap, usageIn: nat, mapCoins: CoinsMap)
      returns (cacheCoins: CoinsMap, cachedCoinsUsage: nat, thrown: bool)
    requires usageIn == TotalUsage(cacheIn)
    ensures thrown <==> exists o :: o in mapCoins && MergeEntry(Get(cacheIn, o), mapCoins[o]).Misapplied?
    ensures !thrown ==> IsMerge(cacheIn, mapCoins, cacheCoins)
    ensures cachedCoinsUsage == TotalUsage(cacheCoins)
  {
    cacheCoins, cachedCoinsUsage := cacheIn, usageIn;
    ghost var done: CoinsMap := map[];
    var todo := mapCoins.Keys;
    while todo != {}
      invariant todo <= mapCoins.Keys && done == mapCoins - todo
      invariant IsMerge(cacheIn, done, cacheCoins)
      invariant cachedCoinsUsage == TotalUsage(cacheCoins)
      decreases todo
    {
      var o :| o in todo;
      var child := mapCoins[o];
      ghost var was, m := cacheCoins, MergeEntry(Get(cacheIn, o), child);
      MergeKeeps(cacheIn, done, cacheCoins, o);
      if child.isDirty {
        if o !in cacheCoins {
          if !(child.isFresh && child.coin.IsSpent()) {
            TotalUsageInsert(cacheCoins, o, CacheEntry(child.coin, true, child.isFresh));
            cacheCoins := cacheCoins[o := CacheEntry(child.coin, true, child.isFresh)];
            cachedCoinsUsage := cachedCoinsUsage + child.coin.DynamicMemoryUsage();
          }
        } else {
          var us := cacheCoins[o];
          if child.isFresh && !us.coin.IsSpent() {
            return cacheCoins, cachedCoinsUsage, true;
          }
          TotalUsageInsert(cacheCoins, o, CacheEntry(child.coin, true, us.isFresh));
          cachedCoinsUsage := cachedCoinsUsage - us.coin.DynamicMemoryUsage();
          if us.isFresh && child.coin.IsSpent() {
            cacheCoins := cacheCoins - {o};
          } else {
            cacheCoins := cacheCoins[o := CacheEntry(child.coin, true, us.isFresh)];
            cachedCoinsUsage := cachedCoinsUsage + child.coin.DynamicMemoryUsage();
          }
        }
      }
      assert cacheCoins == Store(was, o, m.entry);
      MergeStep(cacheIn, done, was, o, child);
      EraseOne(mapCoins, todo, o);
      done, todo := done[o := child], todo - {o};
    }
    assert done == mapCoins;
    return cacheCoins, cachedCoinsUsage, false;
  }

  /** The loop of the database: dirty unspent coins are written, dirty spent ones erased. */
  method WriteRecords(records: Utxo, mapCoins: CoinsMap) returns (coins: Utxo)
    requires AllUnspent(records)
    ensures coins == Written(mapCoins, records) && AllUnspent(coins)
  {
    coins := records;
    ghost var done: CoinsMap := map[];
    var todo := mapCoins.Keys;
    while todo != {}
      invariant todo <= mapCoins.Keys && done == mapCoins - todo
      invariant coins == Written(done, records) && AllUnspent(coins)
      decreases todo
    {
      var o :| o in todo;
      WriteStep(records, done, o, mapCoins[o]);
      if mapCoins[o].isDirty {
        if mapCoins[o].coin.IsSpent() {
          coins := coins - {o};
        } else {
          coins := coins[o := mapCoins[o].coin];
        }
      }
      EraseOne(mapCoins, todo, o);
      done, todo := done[o := mapCoins[o]], todo - {o};
    }
    assert done == mapCoins;
  }

  /** A view without a base is the database; any other view is a cache on its base. */
  class CoinsView {
    const base: CoinsView?
    var coins: Utxo              // the records of the database
    var cacheCoins: CoinsMap     // the entries of a cache
    var cachedCoinsUsage: nat
    ghost const Repr: set<object>
    ghost const height: nat      // number of caches down to the database

    ghost var View: Utxo         // the unspent coins this view shows

    ghost predicate Valid()
      reads this, Repr
      decreases Repr
    {
      && this in Repr
      && (base == null ==> height == 0 && View == coins && AllUnspent(coins))
      && (base != null ==>
            && base in Repr && base.Repr <= Repr && this !in base.Repr
            && base.Valid() && height == base.height + 1
            && CacheOk(base.View))
    }

    ghost predicate CacheOk(below: Utxo)
      reads this
    {
      && Coherent(cacheCoins, below)
      && View == Overlay(cacheCoins, below)
      && cachedCoinsUsage == TotalUsage(cacheCoins)
    }

    constructor Database()
      ensures Valid() && fresh(Repr)
      ensures height == 0 && View == map[]
    {
      base, coins, cacheCoins, cachedCoinsUsage := null, map[], map[], 0;
      Repr, height, View := {this}, 0, map[];
    }

    constructor Cache(baseIn: CoinsView)
      requires baseIn.Valid()
      ensures Valid() && base == baseIn && Repr == {this} + baseIn.Repr && fresh(this)
      ensures height == baseIn.height + 1 && View == baseIn.View
    {
      base, coins, cacheCoins, cachedCoinsUsage := baseIn, map[], map[], 0;
      Repr, height, View := {this} + baseIn.Repr, baseIn.height + 1, baseIn.View;
      new;
      assert Overlay(map[], baseIn.View) == baseIn.View;
    }

    method FetchCoin(o: OutPoint) returns (found: bool)
      requires Valid() && base != null
      modifies Repr
      ensures Valid() && View == old(View)
      ensures found <==> o in cacheCoins
      ensures !found ==> o !in View
      ensures cacheCoins - {o} == old(cacheCoins) - {o}
      ensures o in old(cacheCoins) || !found ==> cacheCoins == old(cacheCoins)
      ensures found && o !in old(cacheCoins) ==> !cacheCoins[o].isDirty && (cacheCoins[o].isFresh <==> o !in View)
      decreases Repr, 0
    {
      hide Coherent, Overlay, TotalUsage;
      if o in cacheCoins {
        return true;
      }
      var tmp := base.GetCoin(o);
      OverlayMiss(cacheCoins, base.View, o);
      if tmp.None? {
        return false;
      }
      var e := CacheEntry(tmp.value, false, tmp.value.IsSpent());
      FetchExact(cacheCoins, base.View, o, tmp.value);
      cacheCoins := cacheCoins[o := e];
      cachedCoinsUsage := cachedCoinsUsage + e.coin.DynamicMemoryUsage();
      return true;
    }

    method GetCoin(o: OutPoint) returns (coin: Option<Coin>)
      requires Valid()
      modifies Repr
      ensures Valid() && View == old(View)
      ensures coin.Some? && !coin.value.IsSpent() <==> o in View
      ensures o in View ==> coin == Some(View[o])
      decreases Repr, 1
    {
      if base == null {
        return Get(coins, o);
      }
      var found := FetchCoin(o);
      coin := if found then Some(cacheCoins[o].coin) else None;
    }

    method AccessCoin(o: OutPoint) returns (coin: Coin)
      requires Valid() && base != null
      modifies Repr
      ensures Valid() && View == old(View)
      ensures !coin.IsSpent() <==> o in View
      ensures o in View ==> coin == View[o]
    {
      var found := FetchCoin(o);
      coin := if found then cacheCoins[o].coin else EMPTY_COIN;
    }

    method HaveCoin(o: OutPoint) returns (have: bool)
      requires Valid() && base != null
      modifies Repr
      ensures Valid() && View == old(View)
      ensures have <==> o in View
    {
      var found := FetchCoin(o);
      have := found && !cacheCoins[o].coin.IsSpent();
    }

    /** When the source throws, the entry is untouched but the usage has already been lowered. */
    method AddCoin(o: OutPoint, coin: Coin, possibleOverwrite: bool) returns (thrown: bool)
      requires Valid() && base != null && !coin.IsSpent()
      modifies this
      ensures thrown <==> !coin.out.scriptPubKey.IsUnspendable() && AddThrows(old(cacheCoins), o, possibleOverwrite)
      ensures thrown ==> cacheCoins == old(cacheCoins)
                         && cachedCoinsUsage == TotalUsage(cacheCoins) - cacheCoins[o].coin.DynamicMemoryUsage()
      ensures coin.out.scriptPubKey.IsUnspendable() ==> Valid() && View == old(View)
      ensures possibleOverwrite || o !in old(View) ==> !thrown && Valid()
      ensures !coin.out.scriptPubKey.IsUnspendable() && (possibleOverwrite || o !in old(View)) ==>
                View == old(View)[o := coin]
      ensures !thrown && !coin.out.scriptPubKey.IsUnspendable() ==>
                var wasFresh := o in old(cacheCoins) && old(cacheCoins)[o].isFresh;
                var wasDirty := o in old(cacheCoins) && old(cacheCoins)[o].isDirty;
                cacheCoins == old(cacheCoins)[o := CacheEntry(coin, true, wasFresh || (!possibleOverwrite && !wasDirty))]
      ensures coin.out.scriptPubKey.IsUnspendable() ==> cacheCoins == old(cacheCoins)
    {
      if coin.out.scriptPubKey.IsUnspendable() {
        return false;
      }
      hide Coherent, Overlay, TotalUsage;
      ghost var cache0, e := cacheCoins, AddedEntry(Get(cacheCoins, o), coin, possibleOverwrite);
      AddCoinExact(cache0, base.View, o, coin, possibleOverwrite);
      TotalUsageInsert(cache0, o, e);
      var it, inserted := CacheEntry(EMPTY_COIN, false, false), o !in cacheCoins;
      if inserted {
        cacheCoins := cacheCoins[o := it];
      } else {
        it := cacheCoins[o];
        cachedCoinsUsage := cachedCoinsUsage - it.coin.DynamicMemoryUsage();
      }
      var isFresh := false;
      if !possibleOverwrite {
        if !it.coin.IsSpent() {
          return true;
        }
        isFresh := !it.isDirty;
      }
      SetTwice(cache0, o, it, e);
      cacheCoins := cacheCoins[o := CacheEntry(coin, true, it.isFresh || isFresh)];
      cachedCoinsUsage := cachedCoinsUsage + coin.DynamicMemoryUsage();
      View := View[o := coin];
      return false;
    }

    method SpendCoin(o: OutPoint) returns (moved: Option<Coin>)
      requires Valid() && base != null
      modifies Repr
      ensures Valid() && View == old(View) - {o}
      ensures o in old(View) ==> moved == Some(old(View)[o])
      ensures moved.Some? && !moved.value.IsSpent() <==> o in old(View)
      ensures cacheCoins - {o} == old(cacheCoins) - {o}
      ensures
        var isNew := if o in old(cacheCoins) then old(cacheCoins)[o].isFresh else o !in old(View);
        Get(cacheCoins, o) == if isNew then None else Some(CacheEntry(EMPTY_COIN, true, false))
    {
      hide Coherent, Overlay, TotalUsage;
      var found := FetchCoin(o);
      if !found {
        assert View - {o} == View;
        return None;
      }
      var it := cacheCoins[o];
      OverlayHit(cacheCoins, base.View, o);
      SpendCoinExact(cacheCoins, base.View, o);
      TotalUsageRemove(cacheCoins, o);
      cachedCoinsUsage := cachedCoinsUsage - it.coin.DynamicMemoryUsage();
      if it.isFresh {
        cacheCoins := cacheCoins - {o};
      } else {
        TotalUsageInsert(cacheCoins, o, CacheEntry(EMPTY_COIN, true, false));
        cacheCoins := cacheCoins[o := CacheEntry(EMPTY_COIN, true, false)];
      }
      View := View - {o};
      return Some(it.coin);
    }

    method Uncache(o: OutPoint)
      requires Valid() && base != null
      modifies this
      ensures Valid() && View == old(View)
      ensures
        var clean := o in old(cacheCoins) && !old(cacheCoins)[o].isDirty && !old(cacheCoins)[o].isFresh;
        cacheCoins == if clean then old(cacheCoins) - {o} else old(cacheCoins)
    {
      if o in cacheCoins && !cacheCoins[o].isDirty && !cacheCoins[o].isFresh {
        TotalUsageRemove(cacheCoins, o);
        cachedCoinsUsage := cachedCoinsUsage - cacheCoins[o].coin.DynamicMemoryUsage();
        assert EntryOk(cacheCoins[o], o, base.View);
        assert Overlay(cacheCoins - {o}, base.View) == View;
        cacheCoins := cacheCoins - {o};
      }
    }

    /** Merges a child's entries into this view. The "FRESH flag misapplied" exception is raised
        exactly when some child entry is FRESH over an unspent entry here. */
    method BatchWrite(mapCoins: CoinsMap) returns (thrown: bool)
      requires Valid()
      modifies this
      ensures thrown <==>
                base != null && exists o :: o in mapCoins && MergeEntry(Get(old(cacheCoins), o), mapCoins[o]).Misapplied?
      ensures FreshUnseen(mapCoins, old(View)) ==> !thrown && Valid() && View == Written(mapCoins, old(View))
    {
      if base == null {
        coins := WriteRecords(coins, mapCoins);
        View := coins;
        return false;
      }
      ghost var cache0 := cacheCoins;
      cacheCoins, cachedCoinsUsage, thrown := MergeInto(cacheCoins, cachedCoinsUsage, mapCoins);
      View := Overlay(cacheCoins, base.View);
      if FreshUnseen(mapCoins, old(View)) {
        forall o | o in mapCoins
          ensures MergeEntry(Get(cache0, o), mapCoins[o]).Merged?
        {
          MergeExact(base.View, cache0, mapCoins, o);
        }
        MergeAllExact(base.View, cache0, mapCoins, cacheCoins);
      }
    }

    /** Pushes the modifications to the base; no lookup changes and the base cannot object. */
    method Flush() returns (thrown: bool)
      requires Valid() && base != null
      modifies this, base
      ensures Valid() && View == old(View) && !thrown
      ensures cacheCoins == map[] && base.View == View
    {
      FlushKeepsView(cacheCoins, base.View);
      thrown := base.BatchWrite(cacheCoins);
      cacheCoins, cachedCoinsUsage := map[], 0;
    }

    // A cache below the top may be read, uncached or flushed at any time.

    method FetchAt(depth: nat, o: OutPoint)
      requires Valid() && depth < height
      modifies Repr
      ensures Valid() && View == old(View)
      decreases depth
    {
      if depth == 0 {
        var _ := FetchCoin(o);
      } else {
        base.FetchAt(depth - 1, o);
      }
    }

    method UncacheAt(depth: nat, o: OutPoint)
      requires Valid() && depth < height
      modifies Repr
      ensures Valid() && View == old(View)
      decreases depth
    {
      if depth == 0 {
        Uncache(o);
      } else {
        base.UncacheAt(depth - 1, o);
      }
    }

    method FlushAt(depth: nat) returns (thrown: bool)
      requires Valid() && depth < height
      modifies Repr
      ensures Valid() && View == old(View) && !thrown
      decreases depth
    {
      if depth == 0 {
        thrown := Flush();
      } else {
        thrown := base.FlushAt(depth - 1);
      }
    }
  }

  // ---------------------------------------------------------------- whole runs

  /** What can be done to a stack; a depth counts caches from the top. */
  datatype Op =
    | Access(o: OutPoint)
    | Add(o: OutPoint, coin: Coin, possibleOverwrite: bool)
    | Spend(o: OutPoint)
    | Fetch(depth: nat, o: OutPoint)
    | Uncache(depth: nat, o: OutPoint)
    | Flush(depth: nat)
    | Push
    | Pop

  /** A script that starts with OP_RETURN or is longer than ten thousand bytes. */
  predicate NeverSpendable(script: seq<bv8>) {
    (|script| > 0 && script[0] == 0x6a) || |script| > 10_000
  }

  /** The same operations on one plain map. */
  function Apply(m: Utxo, op: Op): Utxo {
    match op
    case Add(o, coin, _) => if NeverSpendable(coin.out.scriptPubKey.bytes) then m else m[o := coin]
    case Spend(o) => m - {o}
    case _ => m
  }

  function Observe(m: Utxo, op: Op): Option<Coin> {
    match op
    case Access(o) => Get(m, o)
    case Spend(o) => Get(m, o)
    case _ => None
  }

  function Replay(m: Utxo, ops: seq<Op>): Utxo
    decreases |ops|
  {
    if ops == [] then m else Replay(Apply(m, ops[0]), ops[1..])
  }

  function Observations(m: Utxo, ops: seq<Op>): seq<Option<Coin>>
    decreases |ops|
  {
    if ops == [] then [] else [Observe(m, ops[0])] + Observations(Apply(m, ops[0]), ops[1..])
  }

  /** What a caller has to respect: a cache at the depth named, unspent coins, and overwrites announced. */
  ghost predicate Legal(m: Utxo, height: nat, ops: seq<Op>)
    decreases |ops|
  {
    ops == [] ||
    (&& match ops[0] {
          case Access(_) => height > 0
          case Add(o, coin, po) => height > 0 && !coin.IsSpent() && (po || o !in m)
          case Spend(_) => height > 0
          case Fetch(d, _) => d < height
          case Uncache(d, _) => d < height
          case Flush(d) => d < height
          case Push => true
          case Pop => height > 0
        }
     && Legal(Apply(m, ops[0]),
              if ops[0].Push? then height + 1 else if ops[0].Pop? && height > 0 then height - 1 else height,
              ops[1..]))
  }

  function Unspent(c: Option<Coin>): Option<Coin> {
    if c.Some? && c.value.IsSpent() then None else c
  }

  /** Every legal run on a stack of caches is a run on one plain map: the same coins are shown at
      the end, every lookup on the way gave the same answer, and nothing was thrown. */
  method Run(start: CoinsView, ops: seq<Op>) returns (top: CoinsView, seen: seq<Option<Coin>>)
    requires start.Valid() && Legal(start.View, start.height, ops)
    modifies start.Repr
    ensures top.Valid() && top.View == Replay(old(start.View), ops)
    ensures seen == Observations(old(start.View), ops)
  {
    top, seen := start, [];
    ghost var m0 := start.View;
    for i := 0 to |ops|
      invariant top.Valid() && fresh(top.Repr - start.Repr)
      invariant Legal(top.View, top.height, ops[i..])
      invariant Replay(top.View, ops[i..]) == Replay(m0, ops)
      invariant seen + Observations(top.View, ops[i..]) == Observations(m0, ops)
    {
      assert ops[i..][0] == ops[i] && ops[i..][1..] == ops[i + 1..];
      ghost var m := top.View;
      var t, result := Perform(top, ops[i]);
      assert seen + Observations(m, ops[i..]) == (seen + [result]) + Observations(t.View, ops[i + 1..]);
      top, seen := t, seen + [result];
    }
  }

  method Perform(top: CoinsView, op: Op) returns (t: CoinsView, result: Option<Coin>)
    requires top.Valid() && Legal(top.View, top.height, [op])
    modifies top.Repr
    ensures t.Valid() && fresh(t.Repr - top.Repr)
    ensures t.View == Apply(old(top.View), op) && result == Observe(old(top.View), op)
    ensures t.height == if op.Push? then top.height + 1 else if op.Pop? then top.height - 1 else top.height
  {
    t, result := top, None;
    if op.Push? {
      t := new CoinsView.Cache(top);
      return;
    }
    match op {
      case Access(o) =>
        var c := top.AccessCoin(o);
        result := Unspent(Some(c));
      case Add(o, coin, po) =>
        var thrown := top.AddCoin(o, coin, po);
        assert !thrown;
      case Spend(o) =>
        var c := top.SpendCoin(o);
        result := Unspent(c);
      case Fetch(d, o) =>
        top.FetchAt(d, o);
      case Uncache(d, o) =>
        top.UncacheAt(d, o);
      case Flush(d) =>
        var thrown := top.FlushAt(d);
        assert !thrown;
      case Pop =>
        var thrown := top.Flush();
        assert !thrown;
        t := top.base;
    }
  }
}
