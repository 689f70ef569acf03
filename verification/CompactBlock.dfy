/** A compact block from announcement to reconstruction (src/blockencodings.h, src/blockencodings.cpp). */
module CompactBlocks {
  import opened Common
  import opened BlockEncodings
  import Coding = IndexCoding
  import Size = CompactSize

  datatype CheckResult = Passed | Corrupt | Bad

  // ---------------------------------------------------------------- announcing

  /** The message for a block: the first transaction in full, the others by short id. */
  method Announce(vtx: seq<Tx>, shortId: nat -> nat) returns (msg: Message)
    requires |vtx| > 0
    ensures !msg.headerIsNull && msg.shortId == shortId && msg.prefilled == [Prefilled(0, vtx[0])]
    ensures |msg.shortTxIds| == |vtx| - 1
    ensures forall i :: 1 <= i < |vtx| ==> msg.shortTxIds[i - 1] == shortId(vtx[i].hash)
  {
    var ids := [];
    for i := 1 to |vtx|
      invariant |ids| == i - 1 && forall j :: 1 <= j < i ==> ids[j - 1] == shortId(vtx[j].hash)
    {
      ids := ids + [shortId(vtx[i].hash)];
    }
    msg := Message(false, ids, [Prefilled(0, vtx[0])], shortId);
  }

  /** A message stands for a block: its prefilled transactions are the block's, and its short ids are
      those of the others, in order. */
  ghost predicate Encodes(base: Slots, msg: Message, vtx: seq<Tx>) {
    && |vtx| == |base|
    && (forall p :: 0 <= p < |base| && base[p].Some? ==> base[p].value == vtx[p])
    && (forall p :: 0 <= p < |base| && base[p].None? ==>
          Rank(base, p) < |msg.shortTxIds| && msg.shortTxIds[Rank(base, p)] == msg.shortId(vtx[p].hash))
  }

  lemma {:induction false} RankAfterFirst(base: Slots, p: nat)
    requires 1 <= p <= |base| && base[0].Some? && forall j :: 1 <= j < |base| ==> base[j].None?
    ensures Rank(base, p) == p - 1
  {
    RankNext(base, p - 1);
    if p == 1 {
      RankAll(base);
    } else {
      RankAfterFirst(base, p - 1);
    }
  }

  lemma AnnouncedEncodes(base: Slots, msg: Message, vtx: seq<Tx>)
    requires |vtx| > 0 && |base| == |vtx| && msg.prefilled == [Prefilled(0, vtx[0])] && Placed(base, msg.prefilled, 1)
    requires |msg.shortTxIds| == |vtx| - 1
    requires forall i :: 1 <= i < |vtx| ==> msg.shortTxIds[i - 1] == msg.shortId(vtx[i].hash)
    ensures Encodes(base, msg, vtx)
  {
    assert Position(msg.prefilled, 0) == 0 && LastThere(msg.prefilled, 1, 0);
    forall p | 1 <= p < |base|
      ensures base[p].None?
    {
    }
    hide Rank;
    forall p | 1 <= p < |base|
      ensures Rank(base, p) == p - 1
    {
      RankAfterFirst(base, p);
    }
  }

  /** No candidate has the short id of a different transaction of the block. */
  ghost predicate Collides(shortId: nat -> nat, vtx: seq<Tx>, candidates: set<Tx>) {
    exists a, b :: a in vtx && b in candidates && shortId(a.hash) == shortId(b.hash) && a != b
  }

  ghost predicate Agrees(s: Slots, vtx: seq<Tx>) {
    |s| == |vtx| && forall p :: 0 <= p < |s| && s[p].Some? ==> s[p].value == vtx[p]
  }

  /** Without collisions every filled slot holds the block's own transaction. */
  lemma FilledAgrees(base: Slots, msg: Message, vtx: seq<Tx>, candidates: set<Tx>, s: Slots, have: seq<bool>,
                     count: int)
    requires Encodes(base, msg, vtx) && !Collides(msg.shortId, vtx, candidates)
    requires Filling(base, msg.shortTxIds, msg.shortId, candidates, s, have, count)
    ensures Agrees(s, vtx)
  {
  }

  // ---------------------------------------------------------------- the partial block

  /** Whether a message is well formed: every other one is refused as invalid. */
  ghost predicate WellFormed(msg: Message, maxTxs: nat) {
    && !msg.headerIsNull && msg.BlockTxCount() > 0 && msg.BlockTxCount() <= maxTxs
    && forall i :: 0 <= i < |msg.prefilled| ==> Fits(msg.prefilled, i, |msg.shortTxIds|)
  }

  ghost function Candidates(pool: seq<Tx>, extra: seq<Entry>): set<Tx> {
    (set tx | tx in pool) + set e | e in extra && e.1.Some? :: e.1.value
  }

  /** How a message was taken in: the slots with the prefilled transactions, the slot of each short id, the
      slots after `n1` transactions of the mempool, and the marks after `n2` extra entries. */
  datatype Stages = Stages(base: Slots, index: map<nat, nat>, n1: nat, mid: Slots, had: seq<bool>, n2: nat,
                           have: seq<bool>)

  ghost predicate IsPlaced(msg: Message, t: Stages) {
    && Placed(t.base, msg.prefilled, |msg.prefilled|)
    && |t.base| == msg.BlockTxCount() && Empties(t.base) >= |msg.shortTxIds|
    && MappedSoFar(t.base, msg.shortTxIds, t.index, |msg.shortTxIds|) && |t.index| == |msg.shortTxIds|
  }

  ghost predicate IsMatched(msg: Message, pool: seq<Tx>, extra: seq<Entry>, t: Stages, s: Slots) {
    && |s| == |t.have| == |t.mid| == |t.had| && OneToOne(t.index, |s|)
    && t.n1 <= |pool| && PoolExact(t.index, pool, msg.shortId, t.n1, t.mid, t.had)
    && t.n2 <= |extra| && ExtraExact(t.index, extra, msg.shortId, t.n2, t.mid, t.had, s, t.have)
    && NoneFollowed(t.index, extra, msg.shortId, t.n2, t.mid, t.had)
  }

  /** What is known after a message was taken in; `count` transactions were counted. */
  ghost predicate Initialized(msg: Message, pool: seq<Tx>, extra: seq<Entry>, t: Stages, s: Slots, count: int) {
    && IsPlaced(msg, t) && IsMatched(msg, pool, extra, t, s)
    && Filling(t.base, msg.shortTxIds, msg.shortId, Candidates(pool, extra), s, t.have,
               count - Excess(t.index, extra, msg.shortId, t.n2, t.had))
    && Filling(t.base, msg.shortTxIds, msg.shortId, Candidates(pool, extra), t.mid, t.had,
               Empties(t.base) - Empties(t.mid))
  }

  /** Either list was looked at to its end, or there was nothing left to find: every slot is filled, but
      for one that a null stands for. */
  ghost predicate Finished(msg: Message, pool: seq<Tx>, extra: seq<Entry>, t: Stages, s: Slots) {
    (t.n1 == |pool| || Full(t.mid, t.index)) && (t.n2 == |extra| || FullButNull(msg, extra, t, s))
  }

  ghost predicate FullButNull(msg: Message, extra: seq<Entry>, t: Stages, s: Slots) {
    forall k :: k in t.index ==> t.index[k] < |s| && (s[t.index[k]].Some? || IsNullSlot(msg, extra, t, k))
  }

  ghost predicate IsNullSlot(msg: Message, extra: seq<Entry>, t: Stages, k: nat) {
    && k == msg.shortId(0) && t.n2 <= |extra| && OneToOne(t.index, |t.had|)
    && NullFirst(t.index, extra, msg.shortId, t.n2, t.had)
  }

  /** No short id of the message is that of the nulls in the extra list. */
  ghost predicate NullFree(msg: Message, extra: seq<Entry>) {
    NoNulls(extra) || msg.shortId(0) !in msg.shortTxIds
  }

  /** The empty positions, in order. */
  ghost predicate IsRequest(s: Slots, indices: seq<nat>) {
    && |indices| == Empties(s)
    && (forall k :: 0 <= k < |indices| ==> IsNth(s, k, indices[k]))
    && (forall j, k :: 0 <= j < k < |indices| ==> indices[j] < indices[k])
  }

  /** The slots with the gaps closed by a list of transactions. */
  ghost predicate IsFilled(s: Slots, missing: seq<Tx>, vtx: seq<Tx>) {
    && |vtx| == |s|
    && forall p :: 0 <= p < |s| ==>
                     && (s[p].None? ==> Rank(s, p) < |missing|)
                     && vtx[p] == if s[p].Some? then s[p].value else missing[Rank(s, p)]
  }

  class PartiallyDownloadedBlock {
    var headerIsNull: bool
    var txnsAvailable: Slots
    var prefilledCount: nat
    var mempoolCount: nat

    constructor ()
      ensures headerIsNull && txnsAvailable == [] && prefilledCount == 0 && mempoolCount == 0
    {
      headerIsNull, txnsAvailable, prefilledCount, mempoolCount := true, [], 0, 0;
    }

    /** Starts a reconstruction from a message. A null in the extra list can be counted, or followed; neither
        happens when no short id is that of the nulls. */
    method InitData(msg: Message, maxTxs: nat, pool: seq<Tx>, extra: seq<Entry>, crowded: nat -> bool)
      returns (status: ReadStatus, ghost t: Stages)
      requires headerIsNull && txnsAvailable == [] && maxTxs <= MAX32 && Entries(extra)
      modifies this
      ensures status.Invalid? <==> !WellFormed(msg, maxTxs)
      ensures status.Failed? <==> WellFormed(msg, maxTxs) && !Indexable(msg, crowded)
      ensures !status.CheckBlockFailed?
      ensures status.OK? || status.NullFollowed? ==>
                && !headerIsNull && prefilledCount == |msg.prefilled|
                && Initialized(msg, pool, extra, t, txnsAvailable, mempoolCount - old(mempoolCount))
                && (Receivable(msg.prefilled) ==> Empties(t.base) == |msg.shortTxIds|)
      ensures status.NullFollowed? ==> t.n2 < |extra| && FollowsNull(t.index, extra, msg.shortId, t.n2, t.mid, t.had)
      ensures status.OK? && old(mempoolCount) == 0 ==> Finished(msg, pool, extra, t, txnsAvailable)
      ensures NullFree(msg, extra) ==> !status.NullFollowed?
      ensures NullFree(msg, extra) && status.OK? ==>
                mempoolCount == old(mempoolCount) + Empties(t.base) - Empties(txnsAvailable)
    {
      hide Initialized, IsPlaced, Finished, Empties, Fits, Indexable, Placed, MappedSoFar, FollowsNull, NullFree;
      t := Stages([], map[], 0, [], [], 0, []);
      if msg.headerIsNull || (|msg.shortTxIds| == 0 && |msg.prefilled| == 0) {
        return Invalid, t;
      }
      if |msg.shortTxIds| + |msg.prefilled| > maxTxs {
        return Invalid, t;
      }
      headerIsNull := false;
      var index;
      status, txnsAvailable, index := PlaceAndIndex(msg, crowded);
      if status.Invalid? {
        return;
      }
      prefilledCount := |msg.prefilled|;
      if status.Failed? {
        return;
      }
      ghost var base := txnsAvailable;
      var followed;
      followed, txnsAvailable, mempoolCount, t := MatchAll(msg, pool, extra, index, txnsAvailable, mempoolCount);
      if NullFree(msg, extra) {
        CountExact(msg, pool, extra, t, txnsAvailable, mempoolCount - old(mempoolCount));
      }
      if followed {
        status := NullFollowed;
      }
    }

    predicate IsTxAvailable(index: nat)
      requires index < |txnsAvailable|
      reads this
    {
      txnsAvailable[index].Some?
    }

    /** The positions to ask for. */
    method RequestMissing() returns (indices: seq<nat>)
      requires !headerIsNull
      ensures IsRequest(txnsAvailable, indices)
    {
      hide Rank;
      indices := [];
      RankAll(txnsAvailable);
      for i := 0 to |txnsAvailable|
        invariant |indices| == Rank(txnsAvailable, i)
        invariant forall k :: 0 <= k < |indices| ==> indices[k] < i && IsNth(txnsAvailable, k, indices[k])
        invariant forall j, k :: 0 <= j < k < |indices| ==> indices[j] < indices[k]
      {
        RankNext(txnsAvailable, i);
        if !IsTxAvailable(i) {
          NthIs(txnsAvailable, |indices|, i);
          indices := indices + [i];
        }
      }
    }

    /** Completes the block. With too few transactions the partial block keeps its header; else it is
        used up, and one with too many is refused. */
    method FillBlock(missing: seq<Tx>, checkBlock: seq<Tx> -> CheckResult) returns (status: ReadStatus, vtx: seq<Tx>)
      requires !headerIsNull
      modifies this
      ensures |missing| < old(Empties(txnsAvailable)) ==> status.Invalid? && !headerIsNull
      ensures |missing| >= old(Empties(txnsAvailable)) ==> headerIsNull && txnsAvailable == []
      ensures |missing| > old(Empties(txnsAvailable)) ==> status.Invalid?
      ensures |missing| == old(Empties(txnsAvailable)) ==>
                && IsFilled(old(txnsAvailable), missing, vtx)
                && status == match checkBlock(vtx) {
                     case Passed => OK
                     case Corrupt => Failed
                     case Bad => CheckBlockFailed
                   }
    {
      hide Rank, Empties;
      ghost var s := txnsAvailable;
      vtx := [];
      var offset := 0;
      RankAll(s);
      for i := 0 to |txnsAvailable|
        invariant |txnsAvailable| == |s| && !headerIsNull && forall p :: i <= p < |s| ==> txnsAvailable[p] == s[p]
        invariant offset == Rank(s, i) <= |missing| && |vtx| == i
        invariant forall p :: 0 <= p < i && s[p].None? ==> Rank(s, p) < |missing|
        invariant forall p :: 0 <= p < i ==> vtx[p] == if s[p].Some? then s[p].value else missing[Rank(s, p)]
      {
        RankNext(s, i);
        RankMonotone(s, i + 1, |s|);
        if txnsAvailable[i].None? {
          if |missing| <= offset {
            return Invalid, vtx;
          }
          vtx := vtx + [missing[offset]];
          offset := offset + 1;
        } else {
          vtx := vtx + [txnsAvailable[i].value];
          txnsAvailable := txnsAvailable[i := None];
        }
      }
      headerIsNull, txnsAvailable := true, [];
      if |missing| != offset {
        return Invalid, vtx;
      }
      var r := checkBlock(vtx);
      if r.Corrupt? {
        return Failed, vtx;
      }
      return if r.Bad? then CheckBlockFailed else OK, vtx;
    }
  }

  /** The short ids are all different, and no bucket of their table grows too large. */
  ghost predicate Indexable(msg: Message, crowded: nat -> bool) {
    DistinctTo(msg.shortTxIds, |msg.shortTxIds|) && forall i :: 0 <= i < |msg.shortTxIds| ==> !crowded(i)
  }

  /** Puts the prefilled transactions in place and maps the short ids to the slots left over. */
  method PlaceAndIndex(msg: Message, crowded: nat -> bool) returns (status: ReadStatus, s: Slots, m: map<nat, nat>)
    requires msg.BlockTxCount() <= MAX32
    ensures status.Invalid? <==> !forall i :: 0 <= i < |msg.prefilled| ==> Fits(msg.prefilled, i, |msg.shortTxIds|)
    ensures status.Failed? <==> !status.Invalid? && !Indexable(msg, crowded)
    ensures !status.CheckBlockFailed? && !status.NullFollowed?
    ensures !status.Invalid? ==>
              Placed(s, msg.prefilled, |msg.prefilled|) && |s| == msg.BlockTxCount() && Empties(s) >= |msg.shortTxIds|
    ensures !status.Invalid? && Receivable(msg.prefilled) ==> Empties(s) == |msg.shortTxIds|
    ensures status.OK? ==> MappedSoFar(s, msg.shortTxIds, m, |msg.shortTxIds|) && |m| == |msg.shortTxIds|
  {
    hide Placed, MappedSoFar, Empties, Fits, DistinctTo;
    var ok;
    ok, s := PlacePrefilled(msg.prefilled, |msg.shortTxIds|);
    if !ok {
      return Invalid, s, map[];
    }
    status, m := MapShortIds(s, msg.shortTxIds, crowded);
  }

  /** Matches the mempool and then the extra transactions. */
  method MatchAll(msg: Message, pool: seq<Tx>, extra: seq<Entry>, m: map<nat, nat>, base: Slots, start: nat)
    returns (followed: bool, s: Slots, count: nat, ghost t: Stages)
    requires Placed(base, msg.prefilled, |msg.prefilled|) && |base| == msg.BlockTxCount()
    requires Empties(base) >= |msg.shortTxIds|
    requires MappedSoFar(base, msg.shortTxIds, m, |msg.shortTxIds|) && |m| == |msg.shortTxIds| && Entries(extra)
    ensures t.base == base && t.index == m && Initialized(msg, pool, extra, t, s, count - start)
    ensures followed ==> t.n2 < |extra| && FollowsNull(t.index, extra, msg.shortId, t.n2, t.mid, t.had)
    ensures !followed && start == 0 ==> Finished(msg, pool, extra, t, s)
  {
    hide Placed, MappedSoFar, Filling, PoolExact, ExtraExact, OneToOne, Empties, Candidates, Full, FullButNull;
    hide NoneFollowed, FollowsNull, Excess;
    ghost var candidates := Candidates(pool, extra);
    CandidatesOk(pool, extra);
    var haveTxn := seq(|base|, _ => false);
    MapOneToOne(base, msg.shortTxIds, m);
    NothingYet(base, msg.shortTxIds, m, pool, msg.shortId, haveTxn);
    FillStart(base, msg.shortTxIds, msg.shortId, candidates, haveTxn);
    ghost var n1, n2;
    s, haveTxn, count, n1 := MatchPool(pool, msg.shortId, m, base, haveTxn, start, base, msg.shortTxIds, candidates,
                                       start);
    ghost var mid, had := s, haveTxn;
    CountIs(msg, base, candidates, s, haveTxn, count - start);
    if count - start == |m| {
      AllFull(msg, base, m, candidates, s, haveTxn, count - start);
    }
    HadAll(m, pool, msg.shortId, n1, s, haveTxn);
    followed, s, haveTxn, count, n2 := MatchExtra(extra, msg.shortId, m, s, haveTxn, count, base, msg.shortTxIds,
                                                  candidates, start);
    t := Stages(base, m, n1, mid, had, n2, haveTxn);
    if count - start == |m| {
      AllFullButNull(msg, pool, extra, t, s, count - start);
    }
  }

  lemma CountIs(msg: Message, base: Slots, candidates: set<Tx>, s: Slots, have: seq<bool>, count: int)
    requires Filling(base, msg.shortTxIds, msg.shortId, candidates, s, have, count)
    ensures count == Empties(base) - Empties(s)
  {
  }

  /** Without nulls in the way the count is exact. */
  lemma CountExact(msg: Message, pool: seq<Tx>, extra: seq<Entry>, t: Stages, s: Slots, count: int)
    requires Initialized(msg, pool, extra, t, s, count) && NullFree(msg, extra) && Entries(extra)
    ensures count == Empties(t.base) - Empties(s)
    ensures forall j :: 0 <= j < |extra| ==> !FollowsNull(t.index, extra, msg.shortId, j, t.mid, t.had)
  {
    hide Empties, Rank, Excess, FollowsNull, PoolExact, ExtraExact;
    assert msg.shortId(0) in t.index ==> Seen(msg.shortTxIds, |msg.shortTxIds|, msg.shortId(0));
    NullsHarmless(t.index, extra, msg.shortId, t.n2, t.mid, t.had);
  }

  /** The count is too high by at most one, and that exactly when the mempool has no match for the short id of
      the nulls and the first extra match is one of them. */
  lemma CountOff(msg: Message, pool: seq<Tx>, extra: seq<Entry>, t: Stages, s: Slots, count: int)
    requires Initialized(msg, pool, extra, t, s, count)
    ensures
      var k := msg.shortId(0);
      var unmatched := Hits(pool, msg.shortId, t.n1, k) == 0;
      var off := k in t.index && unmatched && FirstHit(extra, msg.shortId, t.n2, k) == Some(None);
      count == Empties(t.base) - Empties(s) + if off then 1 else 0
  {
    hide Empties, Rank, FirstHit, Hits, ExtraExact;
  }

  ghost predicate Full(s: Slots, m: map<nat, nat>) {
    forall k :: k in m ==> m[k] < |s| && s[m[k]].Some?
  }

  /** When only the first `n` empty slots can be filled, at most `n` are, and with `n` of them filled none is left. */
  lemma {:induction false} FirstFilled(base: Slots, s: Slots, n: nat, q: nat)
    requires |s| == |base| && q <= |s|
    requires forall p :: 0 <= p < |s| && base[p].Some? ==> s[p].Some?
    requires forall p :: 0 <= p < |s| && base[p].None? && s[p].Some? ==> Rank(base, p) < n
    ensures Rank(base, q) - Rank(s, q) <= n
    ensures Rank(base, q) - Rank(s, q) == n || Rank(s, q) == 0 ==>
              forall p :: 0 <= p < q && base[p].None? && Rank(base, p) < n ==> s[p].Some?
  {
    hide Rank;
    if q == 0 {
      RankAll(base);
      RankAll(s);
    } else {
      FirstFilled(base, s, n, q - 1);
      RankNext(base, q - 1);
      RankNext(s, q - 1);
    }
  }

  lemma AllFull(msg: Message, base: Slots, m: map<nat, nat>, candidates: set<Tx>, s: Slots, have: seq<bool>, count: int)
    requires Filling(base, msg.shortTxIds, msg.shortId, candidates, s, have, count) && count == |m| == |msg.shortTxIds|
    requires MappedSoFar(base, msg.shortTxIds, m, |msg.shortTxIds|)
    ensures Full(s, m)
  {
    hide Rank, Empties;
    RankAll(base);
    RankAll(s);
    FirstFilled(base, s, count, |s|);
    forall k | k in m
      ensures m[k] < |s| && s[m[k]].Some?
    {
      assert Seen(msg.shortTxIds, |msg.shortTxIds|, k);
      var i :| 0 <= i < |msg.shortTxIds| && msg.shortTxIds[i] == k;
      assert IsNth(base, i, m[msg.shortTxIds[i]]);
    }
  }

  /** With as many counted as there are short ids, only the slot of a counted null is left. */
  lemma AllFullButNull(msg: Message, pool: seq<Tx>, extra: seq<Entry>, t: Stages, s: Slots, count: int)
    requires IsPlaced(msg, t) && IsMatched(msg, pool, extra, t, s) && count == |t.index|
    requires Filling(t.base, msg.shortTxIds, msg.shortId, Candidates(pool, extra), s, t.have,
                     count - Excess(t.index, extra, msg.shortId, t.n2, t.had))
    ensures FullButNull(msg, extra, t, s)
  {
    hide Filling, Candidates, MappedSoFar, Placed, PoolExact, NoneFollowed, Empties, FirstHit;
    var m, candidates := t.index, Candidates(pool, extra);
    if !NullFirst(m, extra, msg.shortId, t.n2, t.had) {
      AllFull(msg, t.base, m, candidates, s, t.have, count);
    } else {
      var k := msg.shortId(0);
      var like := Tx(0, false);
      Lookup(t.base, msg.shortTxIds, msg.shortId, m, like);
      assert SlotExact(extra, msg.shortId, t.n2, k, t.had[m[k]], t.mid[m[k]], t.have[m[k]], s[m[k]]);
      Unmarked(t.base, msg.shortTxIds, msg.shortId, candidates, s, t.have, count - 1, m[k], like);
      FillOne(t.base, msg.shortTxIds, msg.shortId, candidates + {like}, s, t.have[m[k] := false], count - 1, m[k],
              like);
      AllFull(msg, t.base, m, candidates + {like}, s[m[k] := Some(like)], t.have[m[k] := false][m[k] := true], count);
    }
  }

  lemma Unmarked(base: Slots, ids: seq<nat>, shortId: nat -> nat, candidates: set<Tx>, s: Slots, have: seq<bool>,
                 count: int, p: nat, tx: Tx)
    requires Filling(base, ids, shortId, candidates, s, have, count) && p < |s| && s[p].None?
    ensures Filling(base, ids, shortId, candidates + {tx}, s, have[p := false], count)
  {
    hide Target, Empties;
  }

  lemma CandidatesOk(pool: seq<Tx>, extra: seq<Entry>)
    ensures forall i :: 0 <= i < |pool| ==> pool[i] in Candidates(pool, extra)
    ensures forall i :: 0 <= i < |extra| && extra[i].1.Some? ==> extra[i].1.value in Candidates(pool, extra)
  {
  }

  lemma NothingYet(base: Slots, ids: seq<nat>, m: map<nat, nat>, pool: seq<Tx>, shortId: nat -> nat, have: seq<bool>)
    requires |have| == |base| && OneToOne(m, |base|) && MappedSoFar(base, ids, m, |ids|) && |m| == |ids|
    requires forall p :: 0 <= p < |have| ==> !have[p]
    ensures PoolExact(m, pool, shortId, 0, base, have)
  {
  }

  lemma HadAll(m: map<nat, nat>, pool: seq<Tx>, shortId: nat -> nat, n: nat, s: Slots, have: seq<bool>)
    requires n <= |pool| && |s| == |have| && OneToOne(m, |s|) && PoolExact(m, pool, shortId, n, s, have)
    ensures forall k :: k in m && s[m[k]].Some? ==> have[m[k]]
  {
  }

  // ---------------------------------------------------------------- what is found

  lemma {:induction false} HitsOnce(pool: seq<Tx>, shortId: nat -> nat, n: nat, k: nat, tx: Tx)
    requires n <= |pool| && NoRepeats(pool)
    requires forall j :: 0 <= j < n ==> (shortId(pool[j].hash) == k <==> pool[j] == tx)
    ensures Hits(pool, shortId, n, k) == if tx in pool[..n] then 1 else 0
  {
    if n > 0 {
      HitsOnce(pool, shortId, n - 1, k, tx);
      assert pool[..n] == pool[..n - 1] + [pool[n - 1]];
      if pool[n - 1] == tx {
        assert tx !in pool[..n - 1];
      }
    }
  }

  ghost predicate InExtra(extra: seq<Entry>, n: nat, tx: Tx)
    requires n <= |extra|
  {
    exists j :: 0 <= j < n && extra[j].1 == Some(tx)
  }

  /** The entries with a short id hold one transaction, and they are all that do. */
  ghost predicate OwnEntries(extra: seq<Entry>, shortId: nat -> nat, k: nat, tx: Tx) {
    forall j :: 0 <= j < |extra| ==> (shortId(extra[j].0) == k <==> extra[j].1 == Some(tx))
  }

  /** One slot, when only its own transaction can match: it is filled exactly if the mempool or the extra
      transactions looked at hold it. */
  lemma SlotFound(extra: seq<Entry>, shortId: nat -> nat, n: nat, k: nat, had: bool, prior: Option<Tx>, has: bool,
                  now: Option<Tx>, tx: Tx)
    requires n <= |extra| && SlotExact(extra, shortId, n, k, had, prior, has, now)
    requires OwnEntries(extra, shortId, k, tx)
    requires if had then prior == Some(tx) else prior == None
    ensures now.Some? <==> had || InExtra(extra, n, tx)
  {
    FirstFound(extra, shortId, n, k);
    hide FirstHit;
  }

  /** Without collisions, a transaction of the block that was not prefilled is found exactly if the mempool
      or the extra list has it, unless a null has its short id. */
  lemma KnownFound(msg: Message, vtx: seq<Tx>, pool: seq<Tx>, extra: seq<Entry>, t: Stages, s: Slots, count: int,
                   p: nat)
    requires Initialized(msg, pool, extra, t, s, count) && Finished(msg, pool, extra, t, s) && Entries(extra)
    requires Encodes(t.base, msg, vtx) && !Collides(msg.shortId, vtx, Candidates(pool, extra)) && NoRepeats(pool)
    requires p < |t.base| && t.base[p].None? && (NoNulls(extra) || msg.shortId(vtx[p].hash) != msg.shortId(0))
    ensures p < |s| && (s[p].Some? <==> vtx[p] in pool || InExtra(extra, |extra|, vtx[p]))
  {
    var k := msg.shortId(vtx[p].hash);
    var m, mid, had, n1, n2 := t.index, t.mid, t.had, t.n1, t.n2;
    SlotOf(t.base, msg.shortTxIds, m, p, k);
    FilledAgrees(t.base, msg, vtx, Candidates(pool, extra), mid, had, Empties(t.base) - Empties(mid));
    OwnOnly(msg, vtx, pool, extra, p);
    NotNullSlot(msg, extra, t, k);
    assert SlotExact(extra, msg.shortId, n2, k, had[p], mid[p], t.have[p], s[p]);
    assert had[p] == (Hits(pool, msg.shortId, n1, k) >= 1) && mid[p].Some? == (Hits(pool, msg.shortId, n1, k) == 1);
    assert n1 == |pool| || mid[p].Some?;
    assert n2 == |extra| || s[p].Some?;
    hide Initialized, Filling, Collides, Candidates, Encodes, SlotExact, Empties, Rank, Finished, Hits, IsMatched;
    hide IsPlaced, OwnEntries;
    HitsOnce(pool, msg.shortId, n1, k, vtx[p]);
    PrefixIn(pool, n1, vtx[p]);
    SlotFound(extra, msg.shortId, n2, k, had[p], mid[p], t.have[p], s[p], vtx[p]);
    assert InExtra(extra, n2, vtx[p]) ==> InExtra(extra, |extra|, vtx[p]);
  }

  lemma NotNullSlot(msg: Message, extra: seq<Entry>, t: Stages, k: nat)
    requires NoNulls(extra) || k != msg.shortId(0)
    ensures !IsNullSlot(msg, extra, t, k)
  {
    if t.n2 <= |extra| {
      FirstFound(extra, msg.shortId, t.n2, k);
    }
  }

  /** The entries with a short id hold nulls or transactions with one hash. */
  ghost predicate BesideNulls(extra: seq<Entry>, shortId: nat -> nat, k: nat, hash: nat) {
    forall j :: 0 <= j < |extra| && shortId(extra[j].0) == k && extra[j].1.Some? ==> extra[j].1.value.hash == hash
  }

  /** A slot whose own transaction alone can match, besides nulls, as long as no null is followed. */
  lemma {:induction false} SlotBesideNull(m: map<nat, nat>, extra: seq<Entry>, shortId: nat -> nat, n: nat, k: nat,
                                          s0: Slots, have0: seq<bool>, hash: nat)
    requires n <= |extra| && |s0| == |have0| && OneToOne(m, |s0|) && NoneFollowed(m, extra, shortId, n, s0, have0)
    requires k in m
    requires BesideNulls(extra, shortId, k, hash)
    requires have0[m[k]] ==> HashOf(s0[m[k]]) == Some(hash)
    ensures FilledAfter(extra, shortId, n, k, have0[m[k]], s0[m[k]]) <==>
            have0[m[k]] || FirstHit(extra, shortId, n, k) == Some(Some(hash))
  {
    if n > 0 {
      SlotBesideNull(m, extra, shortId, n - 1, k, s0, have0, hash);
      FirstFound(extra, shortId, n - 1, k);
      assert !FollowsNull(m, extra, shortId, n - 1, s0, have0);
    }
  }

  /** A transaction that shares its short id with the nulls is found exactly if the mempool has it, or it
      comes before every null of the extra entries looked at. */
  lemma BesideNullFound(msg: Message, vtx: seq<Tx>, pool: seq<Tx>, extra: seq<Entry>, t: Stages, s: Slots, count: int,
                        p: nat)
    requires Initialized(msg, pool, extra, t, s, count) && Finished(msg, pool, extra, t, s) && Entries(extra)
    requires Encodes(t.base, msg, vtx) && !Collides(msg.shortId, vtx, Candidates(pool, extra)) && NoRepeats(pool)
    requires p < |t.base| && t.base[p].None?
    ensures p < |s| && t.n2 <= |extra|
    ensures s[p].Some? <==>
              vtx[p] in pool || FirstHit(extra, msg.shortId, t.n2, msg.shortId(vtx[p].hash)) == Some(Some(vtx[p].hash))
  {
    var k := msg.shortId(vtx[p].hash);
    var m, mid, had, n1, n2 := t.index, t.mid, t.had, t.n1, t.n2;
    SlotOf(t.base, msg.shortTxIds, m, p, k);
    FilledAgrees(t.base, msg, vtx, Candidates(pool, extra), mid, had, Empties(t.base) - Empties(mid));
    OwnBesideNull(msg, vtx, pool, extra, p);
    assert SlotExact(extra, msg.shortId, n2, k, had[p], mid[p], t.have[p], s[p]);
    assert had[p] == (Hits(pool, msg.shortId, n1, k) >= 1) && mid[p].Some? == (Hits(pool, msg.shortId, n1, k) == 1);
    assert n1 == |pool| || mid[p].Some?;
    assert mid[p].Some? ==> mid[p].value == vtx[p];
    hide Initialized, Filling, Collides, Candidates, Encodes, Empties, Rank, Finished, Hits, IsPlaced, FirstHit;
    hide FilledAfter;
    HitsOnce(pool, msg.shortId, n1, k, vtx[p]);
    PrefixIn(pool, n1, vtx[p]);
    SlotBesideNull(m, extra, msg.shortId, n2, k, mid, had, vtx[p].hash);
  }

  lemma OwnBesideNull(msg: Message, vtx: seq<Tx>, pool: seq<Tx>, extra: seq<Entry>, p: nat)
    requires !Collides(msg.shortId, vtx, Candidates(pool, extra)) && p < |vtx| && Entries(extra)
    ensures
      var k := msg.shortId(vtx[p].hash);
      && (forall j :: 0 <= j < |pool| ==> (msg.shortId(pool[j].hash) == k <==> pool[j] == vtx[p]))
      && BesideNulls(extra, msg.shortId, k, vtx[p].hash)
  {
  }

  lemma PrefixIn(pool: seq<Tx>, n: nat, tx: Tx)
    requires n <= |pool|
    ensures tx in pool[..n] ==> tx in pool
    ensures n == |pool| ==> pool[..n] == pool
  {
  }

  /** The slot of a short id. */
  lemma SlotOf(base: Slots, ids: seq<nat>, m: map<nat, nat>, p: nat, k: nat)
    requires MappedSoFar(base, ids, m, |ids|) && |m| == |ids|
    requires p < |base| && base[p].None? && Rank(base, p) < |ids| && ids[Rank(base, p)] == k
    ensures k in m && m[k] == p
  {
    var i := Rank(base, p);
    assert IsNth(base, i, m[ids[i]]);
    var q := m[k];
    hide Rank;
    if q < p {
      RankMonotone(base, q, p);
    } else if p < q {
      RankMonotone(base, p, q);
    }
  }

  /** Only the block's own transaction matches. */
  lemma OwnOnly(msg: Message, vtx: seq<Tx>, pool: seq<Tx>, extra: seq<Entry>, p: nat)
    requires !Collides(msg.shortId, vtx, Candidates(pool, extra)) && p < |vtx| && Entries(extra)
    requires NoNulls(extra) || msg.shortId(vtx[p].hash) != msg.shortId(0)
    ensures
      var k := msg.shortId(vtx[p].hash);
      && (forall j :: 0 <= j < |pool| ==> (msg.shortId(pool[j].hash) == k <==> pool[j] == vtx[p]))
      && OwnEntries(extra, msg.shortId, k, vtx[p])
  {
  }

  // ---------------------------------------------------------------- requests

  /** The transactions asked for, unless a position is out of bounds. */
  method Answer(vtx: seq<Tx>, indices: seq<nat>) returns (r: Option<seq<Tx>>)
    ensures r.None? <==> exists k :: 0 <= k < |indices| && indices[k] >= |vtx|
    ensures r.Some? ==>
              && |r.value| == |indices|
              && forall k :: 0 <= k < |indices| ==> indices[k] < |vtx| && r.value[k] == vtx[indices[k]]
  {
    var txn := [];
    for k := 0 to |indices|
      invariant |txn| == k && forall j :: 0 <= j < k ==> indices[j] < |vtx| && txn[j] == vtx[indices[j]]
    {
      if indices[k] >= |vtx| {
        return None;
      }
      txn := txn + [vtx[indices[k]]];
    }
    return Some(txn);
  }

  /** Filling the gaps of slots that agree with a block with what was asked for gives the block. */
  lemma FilledIsBlock(s: Slots, vtx: seq<Tx>, indices: seq<nat>, missing: seq<Tx>, filled: seq<Tx>)
    requires Agrees(s, vtx) && IsRequest(s, indices) && IsFilled(s, missing, filled)
    requires |missing| == |indices|
    requires forall k :: 0 <= k < |indices| ==> indices[k] < |vtx| && missing[k] == vtx[indices[k]]
    ensures filled == vtx
  {
    hide Empties;
    forall p | 0 <= p < |s|
      ensures filled[p] == vtx[p]
    {
      if s[p].None? {
        var k := Rank(s, p);
        assert IsNth(s, k, indices[k]);
        var q := indices[k];
        if q < p {
          RankMonotone(s, q, p);
        } else if p < q {
          RankMonotone(s, p, q);
        }
      }
    }
  }

  /** Whether a message can be received: its numbers are read as compact sizes. */
  predicate CanBeRead(msg: Message) {
    && |msg.shortTxIds| <= Size.MAX_SIZE && |msg.prefilled| <= Size.MAX_SIZE
    && forall i :: 0 <= i < |msg.prefilled| ==> msg.prefilled[i].index <= Size.MAX_SIZE
  }

  /** Every request for a block that is not too large survives the coding of its indices. */
  lemma RequestReadable(s: Slots, indices: seq<Word>)
    requires IsRequest(s, indices) && |s| <= Size.MAX_SIZE + 1 && |indices| <= Size.MAX_SIZE
    ensures Coding.Readable(indices)
  {
    forall i | 0 <= i < |indices|
      ensures Coding.CanFollow(indices, i)
    {
    }
  }

  /** From announcement to reconstruction: a block that is not too large is announced, requested and
      answered over the wire, and when its message is accepted and no short id collides it comes back exactly,
      unless a null of the extra list is followed. That takes a transaction with the nulls' short id. */
  method Reconstruct(vtx: seq<Tx>, shortId: nat -> nat, maxTxs: nat, pool: seq<Tx>, extra: seq<Entry>,
                     crowded: nat -> bool, checkBlock: seq<Tx> -> CheckResult)
    returns (received: bool, status: ReadStatus, rebuilt: seq<Tx>)
    requires 0 < |vtx| <= maxTxs <= MAX32 && !vtx[0].isNull && checkBlock(vtx).Passed?
    requires Entries(extra) && !Collides(shortId, vtx, Candidates(pool, extra))
    ensures received <==> |vtx| <= Size.MAX_SIZE + 1
    ensures received ==> !status.Invalid? && !status.CheckBlockFailed?
    ensures received && status.OK? ==> rebuilt == vtx
    ensures received && status.NullFollowed? ==>
              !NoNulls(extra) && exists i :: 1 <= i < |vtx| && shortId(vtx[i].hash) == shortId(0)
    ensures received ==> (status.Failed? <==> !Announceable(vtx, shortId, crowded))
  {
    hide Initialized, Filling, Encodes, Collides, Candidates, Agrees, IsRequest, IsFilled, Empties, Rank, Placed;
    hide Coding.Readable;
    hide Finished, FollowsNull, Indexable, Announceable, NoNulls;
    var msg := Announce(vtx, shortId);
    AnnouncedFits(msg, vtx);
    status, rebuilt := Invalid, [];
    received := CanBeRead(msg);
    if !received {
      return;
    }
    var part := new PartiallyDownloadedBlock();
    ghost var t;
    status, t := part.InitData(msg, maxTxs, pool, extra, crowded);
    SameIds(msg, vtx, crowded);
    if status.OK? {
      ghost var s := part.txnsAvailable;
      SlotsAgree(msg, vtx, pool, extra, t, s, part.mempoolCount);
      var indices := part.RequestMissing();
      RequestInBounds(s, vtx, indices);
      FewerMissing(msg, pool, extra, t, s, part.mempoolCount, indices);
      RequestReadable(s, indices);
      var asked, rest := Coding.IndexTrip(indices, []);
      assert asked.Some?;
      var missing := Answer(vtx, asked.value);
      assert missing.Some?;
      status, rebuilt := part.FillBlock(missing.value, checkBlock);
      FilledIsBlock(s, vtx, indices, missing.value, rebuilt);
    }
  }

  lemma FewerMissing(msg: Message, pool: seq<Tx>, extra: seq<Entry>, t: Stages, s: Slots, count: int, indices: seq<nat>)
    requires Initialized(msg, pool, extra, t, s, count) && |indices| == Empties(s)
    requires Empties(t.base) == |msg.shortTxIds|
    ensures |indices| <= |msg.shortTxIds|
  {
    assert forall p :: 0 <= p < |t.base| && t.base[p].Some? ==> s[p].Some?;
    FewerEmpties(s, t.base);
  }

  lemma AnnouncedFits(msg: Message, vtx: seq<Tx>)
    requires |vtx| > 0 && !vtx[0].isNull && msg.prefilled == [Prefilled(0, vtx[0])]
    ensures Fits(msg.prefilled, 0, |msg.shortTxIds|)
  {
  }

  /** The transactions but the first have different short ids, and no bucket grows too large. */
  ghost predicate Announceable(vtx: seq<Tx>, shortId: nat -> nat, crowded: nat -> bool) {
    && (forall i, j :: 1 <= i < j < |vtx| ==> shortId(vtx[i].hash) != shortId(vtx[j].hash))
    && (forall i :: 0 <= i < |vtx| - 1 ==> !crowded(i))
  }

  /** The message's short ids are those of the transactions but the first, in order. */
  ghost predicate IdsOf(msg: Message, vtx: seq<Tx>) {
    && |vtx| > 0 && |msg.shortTxIds| == |vtx| - 1
    && forall i :: 1 <= i < |vtx| ==> msg.shortTxIds[i - 1] == msg.shortId(vtx[i].hash)
  }

  lemma SameIds(msg: Message, vtx: seq<Tx>, crowded: nat -> bool)
    requires IdsOf(msg, vtx)
    ensures Indexable(msg, crowded) <==> Announceable(vtx, msg.shortId, crowded)
    ensures forall k :: k in msg.shortTxIds ==> exists i :: 1 <= i < |vtx| && msg.shortId(vtx[i].hash) == k
  {
    forall i | 0 <= i < |msg.shortTxIds|
      ensures msg.shortTxIds[i] == msg.shortId(vtx[i + 1].hash)
    {
    }
  }

  lemma SlotsAgree(msg: Message, vtx: seq<Tx>, pool: seq<Tx>, extra: seq<Entry>, t: Stages, s: Slots, count: int)
    requires Initialized(msg, pool, extra, t, s, count)
    requires IdsOf(msg, vtx) && msg.prefilled == [Prefilled(0, vtx[0])]
    requires !Collides(msg.shortId, vtx, Candidates(pool, extra))
    ensures Agrees(s, vtx)
  {
    AnnouncedEncodes(t.base, msg, vtx);
    FilledAgrees(t.base, msg, vtx, Candidates(pool, extra), s, t.have,
                 count - Excess(t.index, extra, msg.shortId, t.n2, t.had));
  }

  lemma RequestInBounds(s: Slots, vtx: seq<Tx>, indices: seq<nat>)
    requires Agrees(s, vtx) && IsRequest(s, indices)
    ensures |indices| == Empties(s) && forall k :: 0 <= k < |indices| ==> indices[k] < |vtx|
  {
  }
}
