/** Compact blocks (src/blockencodings.h, src/blockencodings.cpp): a block announced by short ids is put
    together from prefilled transactions, the mempool, extra transactions and what is still missing. */
module BlockEncodings {
  import opened Common
  import Size = CompactSize

  const MAX32: nat := 0xFFFF_FFFF

  type Word = x: nat | x <= MAX32

  datatype Tx = Tx(hash: nat, isNull: bool)

  datatype Prefilled = Prefilled(index: Word, tx: Tx)

  /** A compact block message; `shortId` is keyed by its header and nonce. */
  datatype Message = Message(headerIsNull: bool, shortTxIds: seq<nat>, prefilled: seq<Prefilled>, shortId: nat -> nat) {
    function BlockTxCount(): nat {
      |shortTxIds| + |prefilled|
    }
  }

  /** The source's statuses, and one for a run that follows a null transaction and so has none. */
  datatype ReadStatus = OK | Invalid | Failed | CheckBlockFailed | NullFollowed

  type Slots = seq<Option<Tx>>

  // ---------------------------------------------------------------- counting slots

  ghost function Empties(s: Slots): nat {
    if s == [] then 0 else Empties(s[..|s| - 1]) + if s[|s| - 1].None? then 1 else 0
  }

  /** The number of empty slots before a position. */
  ghost function Rank(s: Slots, p: nat): nat
    requires p <= |s|
  {
    Empties(s[..p])
  }

  lemma RankNext(s: Slots, p: nat)
    requires p < |s|
    ensures Rank(s, p + 1) == Rank(s, p) + if s[p].None? then 1 else 0
  {
    assert s[..p + 1][..p] == s[..p];
  }

  lemma RankAll(s: Slots)
    ensures Rank(s, 0) == 0 && Rank(s, |s|) == Empties(s)
  {
    assert s[..|s|] == s;
  }

  lemma {:induction false} RankMonotone(s: Slots, p: nat, q: nat)
    requires p <= q <= |s|
    ensures Rank(s, p) <= Rank(s, q) <= Rank(s, p) + q - p
    ensures forall r :: p <= r < q && s[r].None? ==> Rank(s, p) < Rank(s, q)
    decreases q
  {
    hide Rank;
    if p < q {
      RankMonotone(s, p, q - 1);
      RankNext(s, q - 1);
    }
  }

  lemma {:induction false} RankSame(s: Slots, t: Slots, p: nat)
    requires p <= |s| == |t| && forall j :: 0 <= j < p ==> s[j].None? == t[j].None?
    ensures Rank(s, p) == Rank(t, p)
  {
    if p > 0 {
      RankSame(s, t, p - 1);
      RankNext(s, p - 1);
      RankNext(t, p - 1);
    }
  }

  /** Replacing a slot changes the number of empty slots accordingly. */
  lemma {:induction false} RankUpdate(s: Slots, p: nat, x: Option<Tx>, q: nat)
    requires p < q <= |s|
    ensures Rank(s[p := x], q) == Rank(s, q) + (if x.None? then 1 else 0) - (if s[p].None? then 1 else 0)
    decreases q
  {
    var t := s[p := x];
    RankNext(s, q - 1);
    RankNext(t, q - 1);
    if p == q - 1 {
      RankSame(s, t, p);
    } else {
      RankUpdate(s, p, x, q - 1);
    }
  }

  lemma EmptiesUpdate(s: Slots, p: nat, x: Option<Tx>)
    requires p < |s|
    ensures Empties(s[p := x]) == Empties(s) + (if x.None? then 1 else 0) - (if s[p].None? then 1 else 0)
  {
    RankUpdate(s, p, x, |s|);
    RankAll(s);
    RankAll(s[p := x]);
  }

  lemma {:induction false} EmptiesFresh(s: Slots)
    requires forall j :: 0 <= j < |s| ==> s[j].None?
    ensures Empties(s) == |s|
  {
    if s != [] {
      EmptiesFresh(s[..|s| - 1]);
    }
  }

  // ---------------------------------------------------------------- prefilled transactions

  /** How far an index moves on from the position before: one more, in 32 bits, so that the largest index
      stays where it is. */
  function Stride(index: Word): nat {
    if index == MAX32 then 0 else index + 1
  }

  /** The position of the `i`-th prefilled transaction. */
  ghost function Position(pre: seq<Prefilled>, i: nat): int
    requires i < |pre|
    ensures Position(pre, i) >= -1
  {
    (if i == 0 then -1 else Position(pre, i - 1)) + Stride(pre[i].index)
  }

  /** The conversion to 32 bits, for the values that can occur. */
  function AsWord(x: int): int {
    if x < 0 then x + MAX32 + 1 else x
  }

  /** A position that fits: below 2^32, and not past the short ids and the prefilled ones before it. */
  ghost predicate Fits(pre: seq<Prefilled>, i: nat, shortCount: nat)
    requires i < |pre|
  {
    !pre[i].tx.isNull && Position(pre, i) <= MAX32 && AsWord(Position(pre, i)) <= shortCount + i
  }

  /** The next prefilled transaction goes to another position. */
  ghost predicate LastThere(pre: seq<Prefilled>, n: nat, i: nat)
    requires i < n <= |pre|
  {
    i + 1 == n || Position(pre, i) < Position(pre, i + 1)
  }

  /** The last transaction put at a position stays there. */
  ghost predicate Kept(s: Slots, pre: seq<Prefilled>, n: nat)
    requires n <= |pre|
  {
    forall i {:trigger LastThere(pre, n, i)} :: 0 <= i < n && LastThere(pre, n, i) ==>
      0 <= Position(pre, i) < |s| && s[Position(pre, i)] == Some(pre[i].tx)
  }

  /** A filled slot is the position of some prefilled transaction. */
  ghost predicate OnlyPlaced(s: Slots, pre: seq<Prefilled>, n: nat)
    requires n <= |pre|
  {
    forall p :: 0 <= p < |s| && s[p].Some? ==> exists i :: 0 <= i < n && Position(pre, i) == p
  }

  /** What the slots hold after the first `n` prefilled transactions. */
  ghost predicate Placed(s: Slots, pre: seq<Prefilled>, n: nat)
    requires n <= |pre|
  {
    Kept(s, pre, n) && OnlyPlaced(s, pre, n)
  }

  lemma {:induction false} PositionsIncrease(pre: seq<Prefilled>, i: nat, j: nat)
    requires i < j < |pre|
    ensures Position(pre, i) <= Position(pre, j)
    ensures Position(pre, i) == Position(pre, j) <==> forall k :: i < k <= j ==> pre[k].index == MAX32
    decreases j
  {
    if i < j - 1 {
      PositionsIncrease(pre, i, j - 1);
    }
  }

  /** The indices a message can have when it was received: they are read as compact sizes. */
  ghost predicate Receivable(pre: seq<Prefilled>) {
    forall i :: 0 <= i < |pre| ==> pre[i].index <= Size.MAX_SIZE
  }

  /** In a received message the 32-bit addition never wraps, and positions strictly increase. */
  lemma ReceivedIncrease(pre: seq<Prefilled>, i: nat, j: nat)
    requires Receivable(pre) && i < j < |pre|
    ensures 0 <= Position(pre, i) < Position(pre, j)
  {
    PositionsIncrease(pre, i, j);
    assert pre[j].index != MAX32;
    FirstReceived(pre, i);
  }

  lemma {:induction false} FirstReceived(pre: seq<Prefilled>, i: nat)
    requires Receivable(pre) && i < |pre|
    ensures Position(pre, i) >= i
  {
    assert pre[i].index != MAX32;
    if i > 0 {
      FirstReceived(pre, i - 1);
    }
  }

  /** Every transaction of a received message is in its place: none was replaced. */
  lemma ReceivedPlaced(s: Slots, pre: seq<Prefilled>)
    requires Receivable(pre) && Placed(s, pre, |pre|)
    ensures forall i :: 0 <= i < |pre| ==> 0 <= Position(pre, i) < |s| && s[Position(pre, i)] == Some(pre[i].tx)
  {
    hide Position;
    forall i | 0 <= i < |pre|
      ensures 0 <= Position(pre, i) < |s| && s[Position(pre, i)] == Some(pre[i].tx)
    {
      if i + 1 < |pre| {
        ReceivedIncrease(pre, i, i + 1);
      }
      assert LastThere(pre, |pre|, i);
    }
  }

  /** What the addition alone does with the largest index, which no reader accepts: it stays at the position
      of the transaction before. */
  lemma WrapRepeats(a: Tx, b: Tx)
    requires !a.isNull && !b.isNull
    ensures
      var pre := [Prefilled(0, a), Prefilled(MAX32, b)];
      Fits(pre, 0, 0) && Fits(pre, 1, 0) && Position(pre, 0) == Position(pre, 1) == 0
  {
    var pre := [Prefilled(0, a), Prefilled(MAX32, b)];
    assert Position(pre, 1) == Position(pre, 0) + Stride(pre[1].index);
  }

  lemma EarlierStays(pre: seq<Prefilled>, n: nat, i: nat)
    requires i < n < |pre|
    ensures Position(pre, i) <= Position(pre, n) && (pre[n].index != MAX32 ==> Position(pre, i) < Position(pre, n))
    ensures LastThere(pre, n + 1, i) ==> LastThere(pre, n, i) && Position(pre, i) != Position(pre, n)
  {
    hide Position;
    PositionsIncrease(pre, i, n);
    if i + 1 < n {
      PositionsIncrease(pre, i + 1, n);
    }
  }

  lemma KeptStep(s: Slots, pre: seq<Prefilled>, n: nat)
    requires n < |pre| && Kept(s, pre, n) && 0 <= Position(pre, n) < |s|
    ensures Kept(s[Position(pre, n) := Some(pre[n].tx)], pre, n + 1)
    ensures pre[n].index == MAX32 ==> s[Position(pre, n)].Some?
  {
    PositionStep(pre, n);
    assert n > 0 ==> LastThere(pre, n, n - 1);
    hide Position, LastThere;
    forall i | 0 <= i < n && LastThere(pre, n + 1, i)
      ensures LastThere(pre, n, i) && Position(pre, i) != Position(pre, n)
    {
      EarlierStays(pre, n, i);
    }
  }

  lemma OnlyPlacedStep(s: Slots, pre: seq<Prefilled>, n: nat)
    requires n < |pre| && OnlyPlaced(s, pre, n) && 0 <= Position(pre, n) < |s|
    ensures OnlyPlaced(s[Position(pre, n) := Some(pre[n].tx)], pre, n + 1)
    ensures pre[n].index != MAX32 ==> s[Position(pre, n)].None?
  {
    hide Position, LastThere;
    if pre[n].index != MAX32 && s[Position(pre, n)].Some? {
      var i :| 0 <= i < n && Position(pre, i) == Position(pre, n);
      EarlierStays(pre, n, i);
      assert false;
    }
  }

  lemma PlaceStep(s: Slots, pre: seq<Prefilled>, n: nat)
    requires n < |pre| && Placed(s, pre, n) && 0 <= Position(pre, n) < |s|
    ensures Placed(s[Position(pre, n) := Some(pre[n].tx)], pre, n + 1)
    ensures pre[n].index != MAX32 <==> s[Position(pre, n)].None?
  {
    hide Position, Kept, OnlyPlaced;
    KeptStep(s, pre, n);
    OnlyPlacedStep(s, pre, n);
  }

  /** Puts the prefilled transactions in place, always in bounds. */
  method PlacePrefilled(pre: seq<Prefilled>, shortCount: nat) returns (ok: bool, s: Slots)
    requires shortCount + |pre| <= MAX32
    ensures ok <==> forall i :: 0 <= i < |pre| ==> Fits(pre, i, shortCount)
    ensures ok ==> |s| == shortCount + |pre| && Placed(s, pre, |pre|) && Empties(s) >= shortCount
    ensures ok ==> (Empties(s) == shortCount <==> forall i :: 0 <= i < |pre| ==> pre[i].index != MAX32)
    ensures ok && Receivable(pre) ==>
              && Empties(s) == shortCount
              && forall i :: 0 <= i < |pre| ==> 0 <= Position(pre, i) < |s| && s[Position(pre, i)] == Some(pre[i].tx)
  {
    hide Empties, Position, Placed;
    s := seq(shortCount + |pre|, _ => None);
    EmptiesFresh(s);
    NothingPlaced(s, pre);
    var last: int := -1;
    for i := 0 to |pre|
      invariant |s| == shortCount + |pre| && Placed(s, pre, i) && Empties(s) >= |s| - i
      invariant Empties(s) == |s| - i <==> forall k :: 0 <= k < i ==> pre[k].index != MAX32
      invariant last == if i == 0 then -1 else Position(pre, i - 1)
      invariant forall k :: 0 <= k < i ==> Fits(pre, k, shortCount)
    {
      PositionStep(pre, i);
      assert !Fits(pre, i, shortCount) <==>
          pre[i].tx.isNull || Position(pre, i) > MAX32 || AsWord(Position(pre, i)) > shortCount + i;
      if pre[i].tx.isNull {
        return false, s;
      }
      last := last + Stride(pre[i].index);
      if last > MAX32 {
        return false, s;
      }
      if AsWord(last) > shortCount + i {
        return false, s;
      }
      PlaceStep(s, pre, i);
      EmptiesUpdate(s, last, Some(pre[i].tx));
      s := s[last := Some(pre[i].tx)];
    }
    if Receivable(pre) {
      ReceivedPlaced(s, pre);
    }
    return true, s;
  }

  lemma NothingPlaced(s: Slots, pre: seq<Prefilled>)
    requires forall j :: 0 <= j < |s| ==> s[j].None?
    ensures Placed(s, pre, 0)
  {
  }

  lemma PositionStep(pre: seq<Prefilled>, i: nat)
    requires i < |pre|
    ensures Position(pre, i) == (if i == 0 then -1 else Position(pre, i - 1)) + Stride(pre[i].index)
  {
  }

  // ---------------------------------------------------------------- short ids

  /** Position `p` is the `i`-th empty slot. */
  ghost predicate IsNth(s: Slots, i: nat, p: nat) {
    p < |s| && s[p].None? && Rank(s, p) == i
  }

  ghost predicate DistinctTo(ids: seq<nat>, n: nat)
    requires n <= |ids|
  {
    forall i, j :: 0 <= i < j < n ==> ids[i] != ids[j]
  }

  ghost predicate Seen(ids: seq<nat>, n: nat, k: nat)
    requires n <= |ids|
  {
    exists i :: 0 <= i < n && ids[i] == k
  }

  /** Every short id is mapped to its empty slot, the first to the first and so on. */
  ghost predicate Indexed(s: Slots, ids: seq<nat>, m: map<nat, nat>, n: nat)
    requires n <= |ids|
  {
    forall i :: 0 <= i < n ==> ids[i] in m && IsNth(s, i, m[ids[i]])
  }

  /** The map after `n` short ids: it is as large as their number exactly if they are all different. */
  ghost predicate MappedSoFar(s: Slots, ids: seq<nat>, m: map<nat, nat>, n: nat)
    requires n <= |ids|
  {
    && |m| <= n
    && (|m| == n <==> DistinctTo(ids, n))
    && (|m| == n ==> Indexed(s, ids, m, n))
    && forall k :: k in m <==> Seen(ids, n, k)
  }

  /** Maps the short ids to the empty slots. `crowded` tells whether a bucket of the hash table has
      grown too large after a step. */
  method MapShortIds(s: Slots, ids: seq<nat>, crowded: nat -> bool) returns (status: ReadStatus, m: map<nat, nat>)
    requires Empties(s) >= |ids|
    ensures status.OK? <==> DistinctTo(ids, |ids|) && forall i :: 0 <= i < |ids| ==> !crowded(i)
    ensures !status.OK? ==> status.Failed?
    ensures status.OK? ==> MappedSoFar(s, ids, m, |ids|) && |m| == |ids|
  {
    hide Rank, IsNth, Empties, MappedSoFar, DistinctTo;
    m := map[];
    var offset := 0;
    RankAll(s);
    MapStart(s, ids);
    for i := 0 to |ids|
      invariant i + offset <= |s| && Rank(s, i + offset) == i
      invariant MappedSoFar(s, ids, m, i)
      invariant forall j :: 0 <= j < i ==> !crowded(j)
    {
      while s[i + offset].Some?
        invariant i + offset < |s| && Rank(s, i + offset) == i
        decreases |s| - offset
      {
        RankNext(s, i + offset);
        offset := offset + 1;
      }
      RankNext(s, i + offset);
      NthIs(s, i, i + offset);
      MapStep(s, ids, m, i, i + offset);
      m := m[ids[i] := i + offset];
      if crowded(i) {
        return Failed, m;
      }
    }
    MapEnd(s, ids, m);
    if |m| != |ids| {
      return Failed, m;
    }
    return OK, m;
  }

  lemma NthIs(s: Slots, i: nat, p: nat)
    requires p < |s| && s[p].None? && Rank(s, p) == i
    ensures IsNth(s, i, p)
  {
  }

  lemma MapStart(s: Slots, ids: seq<nat>)
    ensures MappedSoFar(s, ids, map[], 0)
  {
  }

  lemma MapEnd(s: Slots, ids: seq<nat>, m: map<nat, nat>)
    requires MappedSoFar(s, ids, m, |ids|)
    ensures |m| == |ids| <==> DistinctTo(ids, |ids|)
  {
  }

  lemma MapStep(s: Slots, ids: seq<nat>, m: map<nat, nat>, i: nat, p: nat)
    requires i < |ids| && IsNth(s, i, p) && MappedSoFar(s, ids, m, i)
    ensures MappedSoFar(s, ids, m[ids[i] := p], i + 1)
  {
    hide IsNth;
    var n := m[ids[i] := p];
    forall k
      ensures k in n <==> Seen(ids, i + 1, k)
    {
      SeenNext(ids, i, k);
    }
    hide Seen;
    DistinctNext(ids, i);
    if ids[i] in m {
      MapAgain(m, ids[i], p);
    } else {
      MapNew(m, ids[i], p);
      if |m| == i {
        IndexNext(s, ids, m, i, p);
      }
    }
  }

  lemma SeenNext(ids: seq<nat>, i: nat, k: nat)
    requires i < |ids|
    ensures Seen(ids, i + 1, k) <==> Seen(ids, i, k) || ids[i] == k
  {
  }

  lemma DistinctNext(ids: seq<nat>, i: nat)
    requires i < |ids|
    ensures DistinctTo(ids, i + 1) <==> DistinctTo(ids, i) && !Seen(ids, i, ids[i])
  {
  }

  lemma MapAgain(m: map<nat, nat>, k: nat, p: nat)
    requires k in m
    ensures |m[k := p]| == |m|
  {
    assert m[k := p].Keys == m.Keys;
  }

  lemma MapNew(m: map<nat, nat>, k: nat, p: nat)
    requires k !in m
    ensures |m[k := p]| == |m| + 1
  {
    assert m[k := p].Keys == m.Keys + {k};
  }

  lemma IndexNext(s: Slots, ids: seq<nat>, m: map<nat, nat>, i: nat, p: nat)
    requires i < |ids| && IsNth(s, i, p) && Indexed(s, ids, m, i) && ids[i] !in m
    ensures Indexed(s, ids, m[ids[i] := p], i + 1)
  {
    hide IsNth;
  }

  // ---------------------------------------------------------------- matching transactions

  /** The slot that a transaction's short id stands for. */
  ghost predicate Target(base: Slots, ids: seq<nat>, shortId: nat -> nat, p: nat, tx: Tx) {
    p < |base| && base[p].None? && Rank(base, p) < |ids| && ids[Rank(base, p)] == shortId(tx.hash)
  }

  /** The slots while transactions are matched: prefilled ones stay, every other filled slot holds a
      candidate with the slot's short id, and `count` of them are filled. */
  ghost predicate Filling(base: Slots, ids: seq<nat>, shortId: nat -> nat, candidates: set<Tx>, s: Slots,
                          have: seq<bool>, count: int) {
    && |s| == |have| == |base|
    && (forall p :: 0 <= p < |base| && base[p].Some? ==> s[p] == base[p])
    && (forall p :: 0 <= p < |base| && base[p].None? && s[p].Some? ==>
          have[p] && s[p].value in candidates && Target(base, ids, shortId, p, s[p].value))
    && Empties(s) + count == Empties(base)
  }

  lemma FillStart(base: Slots, ids: seq<nat>, shortId: nat -> nat, candidates: set<Tx>, have: seq<bool>)
    requires |have| == |base|
    ensures Filling(base, ids, shortId, candidates, base, have, 0)
  {
  }

  lemma FillOne(base: Slots, ids: seq<nat>, shortId: nat -> nat, candidates: set<Tx>, s: Slots, have: seq<bool>,
                count: int, p: nat, tx: Tx)
    requires Filling(base, ids, shortId, candidates, s, have, count)
    requires Target(base, ids, shortId, p, tx) && !have[p] && tx in candidates
    ensures Filling(base, ids, shortId, candidates, s[p := Some(tx)], have[p := true], count + 1)
  {
    hide Empties, Rank;
    EmptiesUpdate(s, p, Some(tx));
  }

  lemma ResetOne(base: Slots, ids: seq<nat>, shortId: nat -> nat, candidates: set<Tx>, s: Slots, have: seq<bool>,
                 count: int, p: nat)
    requires Filling(base, ids, shortId, candidates, s, have, count)
    requires p < |base| && base[p].None? && s[p].Some?
    ensures count > 0 && Filling(base, ids, shortId, candidates, s[p := None], have, count - 1)
  {
    hide Empties, Target;
    EmptiesUpdate(s, p, None);
    FewerEmpties(s[p := None], base);
  }

  lemma {:induction false} FewerEmpties(s: Slots, t: Slots)
    requires |s| == |t| && forall p :: 0 <= p < |t| && t[p].Some? ==> s[p].Some?
    ensures Empties(s) <= Empties(t)
  {
    if s != [] {
      FewerEmpties(s[..|s| - 1], t[..|t| - 1]);
    }
  }

  lemma Lookup(base: Slots, ids: seq<nat>, shortId: nat -> nat, m: map<nat, nat>, tx: Tx)
    requires MappedSoFar(base, ids, m, |ids|) && |m| == |ids| && shortId(tx.hash) in m
    ensures Target(base, ids, shortId, m[shortId(tx.hash)], tx)
  {
    hide Rank;
    assert Seen(ids, |ids|, shortId(tx.hash));
    var i :| 0 <= i < |ids| && ids[i] == shortId(tx.hash);
    assert IsNth(base, i, m[ids[i]]);
  }

  lemma TargetOk(base: Slots, ids: seq<nat>, shortId: nat -> nat, candidates: set<Tx>, s: Slots, have: seq<bool>,
                 count: int, p: nat, tx: Tx)
    requires Filling(base, ids, shortId, candidates, s, have, count) && Target(base, ids, shortId, p, tx)
    ensures p < |s| == |have| == |base| && base[p].None?
  {
  }

  /** Different short ids stand for different slots. */
  ghost predicate OneToOne(m: map<nat, nat>, size: nat) {
    && (forall k :: k in m ==> m[k] < size)
    && (forall j, k :: j in m && k in m && j != k ==> m[j] != m[k])
  }

  lemma MapOneToOne(base: Slots, ids: seq<nat>, m: map<nat, nat>)
    requires MappedSoFar(base, ids, m, |ids|) && |m| == |ids|
    ensures OneToOne(m, |base|)
  {
    hide Rank;
    forall k | k in m
      ensures Seen(ids, |ids|, k)
    {
    }
  }

  /** How many of the first `n` transactions have a short id. */
  ghost function Hits(pool: seq<Tx>, shortId: nat -> nat, n: nat, k: nat): nat
    requires n <= |pool|
  {
    if n == 0 then 0 else Hits(pool, shortId, n - 1, k) + if shortId(pool[n - 1].hash) == k then 1 else 0
  }

  /** A slot is filled exactly if one of the transactions looked at has its short id, and no second one. */
  ghost predicate PoolExact(m: map<nat, nat>, pool: seq<Tx>, shortId: nat -> nat, n: nat, s: Slots, have: seq<bool>)
    requires n <= |pool| && |s| == |have| && OneToOne(m, |s|)
  {
    forall k :: k in m ==>
                  && have[m[k]] == (Hits(pool, shortId, n, k) >= 1)
                  && s[m[k]].Some? == (Hits(pool, shortId, n, k) == 1)
  }

  lemma HitsNext(pool: seq<Tx>, shortId: nat -> nat, n: nat, k: nat)
    requires n < |pool|
    ensures Hits(pool, shortId, n + 1, k) == Hits(pool, shortId, n, k) + if shortId(pool[n].hash) == k then 1 else 0
  {
  }

  /** The slots after one more transaction of the mempool. */
  ghost predicate PoolNext(m: map<nat, nat>, id: nat, tx: Tx, s: Slots, have: seq<bool>, s': Slots, have': seq<bool>) {
    && |s'| == |s| && |have'| == |have|
    && if id !in m || m[id] >= |s| || m[id] >= |have| then s' == s && have' == have
       else if !have[m[id]] then s' == s[m[id] := Some(tx)] && have' == have[m[id] := true]
       else s' == s[m[id] := None] && have' == have
  }

  lemma PoolStep(m: map<nat, nat>, pool: seq<Tx>, shortId: nat -> nat, n: nat, s: Slots, have: seq<bool>, s': Slots,
                 have': seq<bool>)
    requires n < |pool| && |s| == |have| && OneToOne(m, |s|) && PoolExact(m, pool, shortId, n, s, have)
    requires PoolNext(m, shortId(pool[n].hash), pool[n], s, have, s', have')
    ensures |s'| == |have'| == |s| && PoolExact(m, pool, shortId, n + 1, s', have')
  {
    hide Hits;
    forall k | k in m
      ensures have'[m[k]] == (Hits(pool, shortId, n + 1, k) >= 1)
      ensures s'[m[k]].Some? == (Hits(pool, shortId, n + 1, k) == 1)
    {
      HitsNext(pool, shortId, n, k);
    }
  }

  /** Looks at one transaction of the mempool. */
  method PoolOne(tx: Tx, shortId: nat -> nat, m: map<nat, nat>, s0: Slots, have0: seq<bool>, count0: nat,
                 ghost base: Slots, ghost ids: seq<nat>, ghost candidates: set<Tx>, ghost start: nat)
    returns (s: Slots, have: seq<bool>, count: nat)
    requires MappedSoFar(base, ids, m, |ids|) && |m| == |ids| && tx in candidates
    requires |s0| == |have0| == |base| && Filling(base, ids, shortId, candidates, s0, have0, count0 - start)
    ensures Filling(base, ids, shortId, candidates, s, have, count - start)
    ensures PoolNext(m, shortId(tx.hash), tx, s0, have0, s, have)
  {
    hide MappedSoFar, Filling, Target;
    s, have, count := s0, have0, count0;
    var shortid := shortId(tx.hash);
    if shortid in m {
      Lookup(base, ids, shortId, m, tx);
      var p := m[shortid];
      TargetOk(base, ids, shortId, candidates, s, have, count - start, p, tx);
      if !have[p] {
        FillOne(base, ids, shortId, candidates, s, have, count - start, p, tx);
        s, have, count := s[p := Some(tx)], have[p := true], count + 1;
      } else if s[p].Some? {
        ResetOne(base, ids, shortId, candidates, s, have, count - start, p);
        s, count := s[p := None], count - 1;
      }
    }
  }

  /** Looks for matches in the mempool. A second match empties the slot again. It stops early when as
      many transactions are there as short ids. */
  method MatchPool(pool: seq<Tx>, shortId: nat -> nat, m: map<nat, nat>, s0: Slots, have0: seq<bool>, count0: nat,
                   ghost base: Slots, ghost ids: seq<nat>, ghost candidates: set<Tx>, ghost start: nat)
    returns (s: Slots, have: seq<bool>, count: nat, ghost n: nat)
    requires MappedSoFar(base, ids, m, |ids|) && |m| == |ids| && (forall i :: 0 <= i < |pool| ==> pool[i] in candidates)
    requires Filling(base, ids, shortId, candidates, s0, have0, count0 - start)
    requires OneToOne(m, |s0|) && PoolExact(m, pool, shortId, 0, s0, have0)
    ensures Filling(base, ids, shortId, candidates, s, have, count - start) && |s| == |have| == |s0|
    ensures n <= |pool| && (n == |pool| || count == |m|) && PoolExact(m, pool, shortId, n, s, have)
  {
    hide MappedSoFar, Filling, PoolExact, OneToOne, PoolNext;
    SameSize(base, ids, shortId, candidates, s0, have0, count0 - start);
    s, have, count, n := s0, have0, count0, 0;
    for i := 0 to |pool|
      invariant |s| == |have| == |s0| == |base| && Filling(base, ids, shortId, candidates, s, have, count - start)
      invariant n == i && PoolExact(m, pool, shortId, i, s, have)
    {
      ghost var before, had := s, have;
      s, have, count := PoolOne(pool[i], shortId, m, s, have, count, base, ids, candidates, start);
      SameSize(base, ids, shortId, candidates, s, have, count - start);
      PoolStep(m, pool, shortId, i, before, had, s, have);
      n := i + 1;
      if count == |m| {
        break;
      }
    }
  }

  lemma SameSize(base: Slots, ids: seq<nat>, shortId: nat -> nat, candidates: set<Tx>, s: Slots, have: seq<bool>,
                 count: int)
    requires Filling(base, ids, shortId, candidates, s, have, count)
    ensures |s| == |have| == |base|
  {
  }

  // ---------------------------------------------------------------- extra transactions

  /** A place of the extra list: a transaction with its hash, or none with the hash zero. */
  type Entry = (nat, Option<Tx>)

  function HashOf(tx: Option<Tx>): Option<nat> {
    if tx.Some? then Some(tx.value.hash) else None
  }

  ghost predicate Entries(extra: seq<Entry>) {
    forall i :: 0 <= i < |extra| ==> extra[i].0 == if extra[i].1.Some? then extra[i].1.value.hash else 0
  }

  ghost predicate NoNulls(extra: seq<Entry>) {
    forall i :: 0 <= i < |extra| ==> extra[i].1.Some?
  }

  /** What the first of `n` entries with a short id holds, by its hash. */
  ghost function FirstHit(extra: seq<Entry>, shortId: nat -> nat, n: nat, k: nat): Option<Option<nat>>
    requires n <= |extra|
  {
    if n == 0 then None
    else
      var r := FirstHit(extra, shortId, n - 1, k);
      if r.None? && shortId(extra[n - 1].0) == k then Some(HashOf(extra[n - 1].1)) else r
  }

  /** All of the first `n` entries with a short id hold a transaction with this hash. */
  ghost predicate Agree(extra: seq<Entry>, shortId: nat -> nat, n: nat, k: nat, hash: nat)
    requires n <= |extra|
  {
    forall j :: 0 <= j < n && shortId(extra[j].0) == k ==> HashOf(extra[j].1) == Some(hash)
  }

  /** The hash that all matches for a slot have to have: that of what the mempool put there, or of the first extra
      match. */
  ghost function Wanted(had: bool, prior: Option<Tx>, first: Option<Option<nat>>): Option<nat> {
    if had then HashOf(prior) else if first.Some? then first.value else None
  }

  /** Whether a slot is filled after `n` entries: there is a wanted hash, and all matches have it. */
  ghost predicate FilledAfter(extra: seq<Entry>, shortId: nat -> nat, n: nat, k: nat, had: bool, prior: Option<Tx>)
    requires n <= |extra|
  {
    var wanted := Wanted(had, prior, FirstHit(extra, shortId, n, k));
    wanted.Some? && Agree(extra, shortId, n, k, wanted.value)
  }

  ghost predicate ExtraExact(m: map<nat, nat>, extra: seq<Entry>, shortId: nat -> nat, n: nat,
                             s0: Slots, have0: seq<bool>, s: Slots, have: seq<bool>)
    requires n <= |extra| && |s| == |have| == |s0| == |have0| && OneToOne(m, |s|)
  {
    forall k :: k in m ==> SlotExact(extra, shortId, n, k, have0[m[k]], s0[m[k]], have[m[k]], s[m[k]])
  }

  /** One slot after `n` entries, none of which was a null that was followed. */
  ghost predicate SlotExact(extra: seq<Entry>, shortId: nat -> nat, n: nat, k: nat,
                            had: bool, prior: Option<Tx>, has: bool, now: Option<Tx>)
    requires n <= |extra|
  {
    var first := FirstHit(extra, shortId, n, k);
    && has == (had || first.Some?)
    && now.Some? == FilledAfter(extra, shortId, n, k, had, prior)
    && (now.Some? ==> HashOf(now) == Wanted(had, prior, first))
  }

  lemma SlotNext(extra: seq<Entry>, shortId: nat -> nat, n: nat, k: nat, had: bool, prior: Option<Tx>,
                 has: bool, now: Option<Tx>, has': bool, now': Option<Tx>)
    requires n < |extra| && SlotExact(extra, shortId, n, k, had, prior, has, now)
    requires
      if shortId(extra[n].0) != k then has' == has && now' == now
      else if !has then has' && now' == extra[n].1
      else has' && (now.Some? ==> extra[n].1.Some?) && now' == if HashOf(now) != HashOf(extra[n].1) then None else now
    ensures SlotExact(extra, shortId, n + 1, k, had, prior, has', now')
  {
    FirstFound(extra, shortId, n, k);
  }

  lemma {:induction false} FirstFound(extra: seq<Entry>, shortId: nat -> nat, n: nat, k: nat)
    requires n <= |extra|
    ensures FirstHit(extra, shortId, n, k).None? <==> forall j :: 0 <= j < n ==> shortId(extra[j].0) != k
    ensures
      var r := FirstHit(extra, shortId, n, k);
      r.Some? ==> exists j :: 0 <= j < n && shortId(extra[j].0) == k && HashOf(extra[j].1) == r.value
  {
    if n > 0 {
      FirstFound(extra, shortId, n - 1, k);
    }
  }

  /** A null whose short id's slot is filled when it is looked at: it is followed for its hash. */
  ghost predicate NullHere(m: map<nat, nat>, id: nat, tx: Option<Tx>, s: Slots, have: seq<bool>) {
    tx.None? && id in m && m[id] < |s| && m[id] < |have| && have[m[id]] && s[m[id]].Some?
  }

  /** A null that is the first match for a slot: it is counted although the slot stays empty. */
  ghost predicate CountedHere(m: map<nat, nat>, id: nat, tx: Option<Tx>, have: seq<bool>) {
    tx.None? && id in m && m[id] < |have| && !have[m[id]]
  }

  /** The `j`-th entry is a null that is followed, told from what was there before any entry. */
  ghost predicate FollowsNull(m: map<nat, nat>, extra: seq<Entry>, shortId: nat -> nat, j: nat, s0: Slots,
                              have0: seq<bool>)
    requires j < |extra| && |s0| == |have0| && OneToOne(m, |s0|)
  {
    var k := shortId(extra[j].0);
    extra[j].1.None? && k in m && FilledAfter(extra, shortId, j, k, have0[m[k]], s0[m[k]])
  }

  ghost predicate NoneFollowed(m: map<nat, nat>, extra: seq<Entry>, shortId: nat -> nat, n: nat, s0: Slots,
                               have0: seq<bool>)
    requires n <= |extra| && |s0| == |have0| && OneToOne(m, |s0|)
  {
    forall j :: 0 <= j < n ==> !FollowsNull(m, extra, shortId, j, s0, have0)
  }

  /** The slot of the nulls' short id had no match in the mempool, and a null as its first extra match. */
  ghost predicate NullFirst(m: map<nat, nat>, extra: seq<Entry>, shortId: nat -> nat, n: nat, have0: seq<bool>)
    requires n <= |extra| && OneToOne(m, |have0|)
  {
    shortId(0) in m && !have0[m[shortId(0)]] && FirstHit(extra, shortId, n, shortId(0)) == Some(None)
  }

  /** By how much the count is too high. */
  ghost function Excess(m: map<nat, nat>, extra: seq<Entry>, shortId: nat -> nat, n: nat, have0: seq<bool>): nat
    requires n <= |extra| && OneToOne(m, |have0|)
  {
    if NullFirst(m, extra, shortId, n, have0) then 1 else 0
  }

  /** Without nulls, or when no short id is that of the hash zero, no null is followed and none is counted. */
  lemma NullsHarmless(m: map<nat, nat>, extra: seq<Entry>, shortId: nat -> nat, n: nat, s0: Slots, have0: seq<bool>)
    requires n <= |extra| && Entries(extra) && |s0| == |have0| && OneToOne(m, |s0|)
    requires NoNulls(extra) || shortId(0) !in m
    ensures Excess(m, extra, shortId, n, have0) == 0
    ensures forall j :: 0 <= j < |extra| ==> !FollowsNull(m, extra, shortId, j, s0, have0)
  {
    FirstFound(extra, shortId, n, shortId(0));
  }

  /** A null can be counted: the only short id is that of the hash zero, and nothing else matches it. */
  lemma NullIsCounted(shortId: nat -> nat)
    ensures
      var m, extra := map[shortId(0) := 0], [(0, None)];
      && Excess(m, extra, shortId, 1, [false]) == 1
      && SlotExact(extra, shortId, 1, shortId(0), false, None, true, None)
  {
    var extra: seq<Entry> := [(0, None)];
    assert FirstHit(extra, shortId, 1, shortId(0)) == Some(None);
  }

  /** A null can be followed: the mempool filled the slot of the hash zero's short id. */
  lemma NullIsFollowed(shortId: nat -> nat, tx: Tx)
    requires shortId(tx.hash) == shortId(0)
    ensures FollowsNull(map[shortId(tx.hash) := 0], [(0, None)], shortId, 0, [Some(tx)], [true])
  {
  }

  /** The slots after one more entry that is no null followed. */
  ghost predicate ExtraNext(m: map<nat, nat>, id: nat, tx: Option<Tx>, s: Slots, have: seq<bool>, s': Slots,
                            have': seq<bool>) {
    && |s'| == |s| && |have'| == |have|
    && if id !in m || m[id] >= |s| || m[id] >= |have| then s' == s && have' == have
       else
         var p := m[id];
         if !have[p] then s' == s[p := tx] && have' == have[p := true]
         else have' == have && s' == s[p := if HashOf(s[p]) != HashOf(tx) then None else s[p]]
  }

  lemma ExtraStep(m: map<nat, nat>, extra: seq<Entry>, shortId: nat -> nat, n: nat, s0: Slots, have0: seq<bool>,
                  s: Slots, have: seq<bool>, s': Slots, have': seq<bool>)
    requires n < |extra| && |s| == |have| == |s0| == |have0| && OneToOne(m, |s|)
    requires ExtraExact(m, extra, shortId, n, s0, have0, s, have) && NoneFollowed(m, extra, shortId, n, s0, have0)
    requires !NullHere(m, shortId(extra[n].0), extra[n].1, s, have)
    requires ExtraNext(m, shortId(extra[n].0), extra[n].1, s, have, s', have')
    ensures |s'| == |have'| == |s| && ExtraExact(m, extra, shortId, n + 1, s0, have0, s', have')
    ensures NoneFollowed(m, extra, shortId, n + 1, s0, have0)
  {
    FollowedHere(m, extra, shortId, n, s0, have0, s, have);
    hide FollowsNull;
    forall k | k in m
      ensures SlotExact(extra, shortId, n + 1, k, have0[m[k]], s0[m[k]], have'[m[k]], s'[m[k]])
    {
      SomeHas(m, extra, shortId, n, s0, have0, s, have, k);
      hide SlotExact;
      SlotNext(extra, shortId, n, k, have0[m[k]], s0[m[k]], have[m[k]], s[m[k]], have'[m[k]], s'[m[k]]);
    }
  }

  lemma SomeHas(m: map<nat, nat>, extra: seq<Entry>, shortId: nat -> nat, n: nat, s0: Slots, have0: seq<bool>,
                s: Slots, have: seq<bool>, k: nat)
    requires n <= |extra| && |s| == |have| == |s0| == |have0| && OneToOne(m, |s|) && k in m
    requires ExtraExact(m, extra, shortId, n, s0, have0, s, have)
    ensures s[m[k]].Some? ==> have[m[k]]
  {
  }

  lemma FollowedHere(m: map<nat, nat>, extra: seq<Entry>, shortId: nat -> nat, n: nat, s0: Slots, have0: seq<bool>,
                     s: Slots, have: seq<bool>)
    requires n < |extra| && |s| == |have| == |s0| == |have0| && OneToOne(m, |s|)
    requires ExtraExact(m, extra, shortId, n, s0, have0, s, have)
    ensures NullHere(m, shortId(extra[n].0), extra[n].1, s, have) <==> FollowsNull(m, extra, shortId, n, s0, have0)
  {
  }

  lemma ExcessNext(m: map<nat, nat>, extra: seq<Entry>, shortId: nat -> nat, n: nat, s0: Slots, have0: seq<bool>,
                   s: Slots, have: seq<bool>)
    requires n < |extra| && Entries(extra) && |s| == |have| == |s0| == |have0| && OneToOne(m, |s|)
    requires ExtraExact(m, extra, shortId, n, s0, have0, s, have)
    ensures Excess(m, extra, shortId, n + 1, have0) ==
            Excess(m, extra, shortId, n, have0) + if CountedHere(m, shortId(extra[n].0), extra[n].1, have) then 1 else 0
  {
  }

  lemma CountNull(base: Slots, ids: seq<nat>, shortId: nat -> nat, candidates: set<Tx>, s: Slots, have: seq<bool>,
                  count: int, p: nat)
    requires Filling(base, ids, shortId, candidates, s, have, count) && p < |base| && base[p].None? && !have[p]
    ensures s[p := None] == s && Filling(base, ids, shortId, candidates, s, have[p := true], count)
  {
    hide Target, Empties;
  }

  /** Looks at one entry, unless it is a null that would be followed. */
  method ExtraOne(hash: nat, tx: Option<Tx>, shortId: nat -> nat, m: map<nat, nat>, s0: Slots, have0: seq<bool>,
                  count0: nat,
                  ghost base: Slots, ghost ids: seq<nat>, ghost candidates: set<Tx>, ghost start: nat)
    returns (followed: bool, s: Slots, have: seq<bool>, count: nat)
    requires MappedSoFar(base, ids, m, |ids|) && |m| == |ids|
    requires tx.Some? ==> hash == tx.value.hash && tx.value in candidates
    requires |s0| == |have0| == |base| && Filling(base, ids, shortId, candidates, s0, have0, count0 - start)
    ensures followed <==> NullHere(m, shortId(hash), tx, s0, have0)
    ensures followed ==> s == s0 && have == have0 && count == count0
    ensures !followed ==> ExtraNext(m, shortId(hash), tx, s0, have0, s, have)
    ensures !followed ==>
              var counted := if CountedHere(m, shortId(hash), tx, have0) then 1 else 0;
              Filling(base, ids, shortId, candidates, s, have, count - start - counted)
  {
    hide MappedSoFar, Filling, Target;
    followed, s, have, count := false, s0, have0, count0;
    var shortid := shortId(hash);
    if shortid in m {
      ghost var like := if tx.Some? then tx.value else Tx(hash, false);
      Lookup(base, ids, shortId, m, like);
      var p := m[shortid];
      TargetOk(base, ids, shortId, candidates, s, have, count - start, p, like);
      if !have[p] {
        if tx.Some? {
          FillOne(base, ids, shortId, candidates, s, have, count - start, p, like);
        } else {
          CountNull(base, ids, shortId, candidates, s, have, count - start, p);
        }
        s, have, count := s[p := tx], have[p := true], count + 1;
      } else if s[p].Some? {
        if tx.None? {
          return true, s, have, count;
        }
        if s[p].value.hash != tx.value.hash {
          ResetOne(base, ids, shortId, candidates, s, have, count - start, p);
          s, count := s[p := None], count - 1;
        }
      }
    }
  }

  lemma ExtraStart(m: map<nat, nat>, extra: seq<Entry>, shortId: nat -> nat, s0: Slots, have0: seq<bool>)
    requires |s0| == |have0| && OneToOne(m, |s0|) && forall k :: k in m && s0[m[k]].Some? ==> have0[m[k]]
    ensures ExtraExact(m, extra, shortId, 0, s0, have0, s0, have0) && Excess(m, extra, shortId, 0, have0) == 0
  {
  }

  /** Looks for matches among the extra transactions, up to a null that is followed, if any. The same
      transaction again is no second match. */
  method MatchExtra(extra: seq<Entry>, shortId: nat -> nat, m: map<nat, nat>, s0: Slots, have0: seq<bool>, count0: nat,
                    ghost base: Slots, ghost ids: seq<nat>, ghost candidates: set<Tx>, ghost start: nat)
    returns (followed: bool, s: Slots, have: seq<bool>, count: nat, ghost n: nat)
    requires MappedSoFar(base, ids, m, |ids|) && |m| == |ids| && Entries(extra)
    requires forall i :: 0 <= i < |extra| && extra[i].1.Some? ==> extra[i].1.value in candidates
    requires Filling(base, ids, shortId, candidates, s0, have0, count0 - start)
    requires |s0| == |have0| && OneToOne(m, |s0|) && forall k :: k in m && s0[m[k]].Some? ==> have0[m[k]]
    ensures n <= |extra| && |s| == |have| == |s0| && ExtraExact(m, extra, shortId, n, s0, have0, s, have)
    ensures Filling(base, ids, shortId, candidates, s, have, count - start - Excess(m, extra, shortId, n, have0))
    ensures NoneFollowed(m, extra, shortId, n, s0, have0)
    ensures followed ==> n < |extra| && FollowsNull(m, extra, shortId, n, s0, have0)
    ensures !followed ==> n == |extra| || count == |m|
  {
    hide MappedSoFar, Filling, ExtraExact, OneToOne, ExtraNext, NullHere, CountedHere, Excess, NoneFollowed;
    hide FollowsNull;
    SameSize(base, ids, shortId, candidates, s0, have0, count0 - start);
    ExtraStart(m, extra, shortId, s0, have0);
    followed, s, have, count, n := false, s0, have0, count0, 0;
    assert NoneFollowed(m, extra, shortId, 0, s0, have0) by {
      NoneYet(m, extra, shortId, s0, have0);
    }
    for i := 0 to |extra|
      invariant |s| == |have| == |s0| == |base| && n == i && !followed
      invariant Filling(base, ids, shortId, candidates, s, have, count - start - Excess(m, extra, shortId, i, have0))
      invariant ExtraExact(m, extra, shortId, i, s0, have0, s, have) && NoneFollowed(m, extra, shortId, i, s0, have0)
    {
      ghost var before, had := s, have;
      FollowedHere(m, extra, shortId, i, s0, have0, s, have);
      ExcessNext(m, extra, shortId, i, s0, have0, s, have);
      followed, s, have, count := ExtraOne(extra[i].0, extra[i].1, shortId, m, s, have, count, base, ids, candidates,
                                           start + Excess(m, extra, shortId, i, have0));
      if followed {
        return;
      }
      SameSize(base, ids, shortId, candidates, s, have, count - start - Excess(m, extra, shortId, i + 1, have0));
      ExtraStep(m, extra, shortId, i, s0, have0, before, had, s, have);
      n := i + 1;
      if count == |m| {
        break;
      }
    }
  }

  lemma NoneYet(m: map<nat, nat>, extra: seq<Entry>, shortId: nat -> nat, s0: Slots, have0: seq<bool>)
    requires |s0| == |have0| && OneToOne(m, |s0|)
    ensures NoneFollowed(m, extra, shortId, 0, s0, have0)
  {
  }
}
