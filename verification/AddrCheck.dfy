/** The self-check of the address manager (Check_ in src/addrman.cpp): exactly which states pass it, and what
    a passing state lacks to be consistent. */
module AddrCheck {
  import opened AddrBook
  import opened Common
  import Man = AddrMan
  import Ops = AddrOps

  // ---------------------------------------------------------------- what the check asks for

  /** A lookup that creates a missing entry with value zero. */
  ghost predicate LooksUp(m: map<NetAddr, int>, net: NetAddr, id: int) {
    if net in m then m[net] == id else id == 0
  }

  ghost predicate EntryPasses(s: Book, id: int)
    requires id in s.mapInfo
  {
    var e := s.mapInfo[id];
    && (if e.fInTried then e.nLastSuccess != 0 && e.nRefCount == 0 else 1 <= e.nRefCount <= NEW_BUCKETS_PER_ADDRESS)
    && LooksUp(s.mapAddr, e.Net(), id)
    && 0 <= e.nRandomPos < |s.vRandom| && s.vRandom[e.nRandomPos] == id
    && e.nLastTry >= 0 && e.nLastSuccess >= 0
  }

  ghost predicate EntriesPass(s: Book) {
    forall id :: id in s.mapInfo ==> EntryPasses(s, id)
  }

  /** Every new entry has at most as many slots as it counts. */
  ghost predicate NewFits(env: Env, s: Book) {
    NewTableOk(env, s) && forall id :: id in NewIds(s.mapInfo) ==> |SlotsOf(s.vvNew, id)| <= s.mapInfo[id].nRefCount
  }

  ghost predicate NewExact(env: Env, s: Book) {
    NewTableOk(env, s) && forall id :: id in NewIds(s.mapInfo) ==> |SlotsOf(s.vvNew, id)| == s.mapInfo[id].nRefCount
  }

  ghost predicate Passes(env: Env, s: Book) {
    |s.vRandom| == s.nTried + s.nNew && EntriesPass(s) && Counted(s, 0) && TriedTableOk(env, s) && NewExact(env, s)
  }

  // ---------------------------------------------------------------- against consistency

  ghost function Positions(info: map<int, AddrInfo>, ids: set<int>): set<int>
    requires ids <= info.Keys
  {
    set id | id in ids :: info[id].nRandomPos
  }

  /** Entries with different positions have as many positions. */
  lemma {:induction false} PositionCount(info: map<int, AddrInfo>, ids: set<int>)
    requires ids <= info.Keys
    requires forall i, j :: i in ids && j in ids && i != j ==> info[i].nRandomPos != info[j].nRandomPos
    ensures |Positions(info, ids)| == |ids|
    decreases |ids|
  {
    if ids != {} {
      var id := Pick(ids);
      PositionCount(info, ids - {id});
      assert Positions(info, ids) == Positions(info, ids - {id}) + {info[id].nRandomPos};
    }
  }

  lemma FullSubset(a: set<int>, b: set<int>)
    requires a <= b && |a| == |b|
    ensures a == b
  {
    forall x | x in b
      ensures x in a
    {
      if x !in a {
        SubsetSize(a, b - {x});
      }
    }
  }

  lemma TwoKinds(info: map<int, AddrInfo>)
    ensures |TriedIds(info)| + |NewIds(info)| == |info.Keys|
  {
    assert TriedIds(info) + NewIds(info) == info.Keys && TriedIds(info) !! NewIds(info);
  }

  /** The list of ids, as long as there are entries, has each entry at its own place. */
  lemma PassesOrdered(env: Env, s: Book)
    requires Passes(env, s)
    ensures OrderIndexed(s)
  {
    var ids, n := s.mapInfo.Keys, |s.vRandom|;
    assert forall id :: id in ids ==> EntryPasses(s, id);
    TwoKinds(s.mapInfo);
    assert |ids| == n;
    PositionCount(s.mapInfo, ids);
    assert forall id :: id in ids ==> s.mapInfo[id].nRandomPos in Below(n);
    BelowSize(n);
    FullSubset(Positions(s.mapInfo, ids), Below(n));
    forall i | 0 <= i < n
      ensures s.vRandom[i] in s.mapInfo && s.mapInfo[s.vRandom[i]].nRandomPos == i
    {
      assert i in Positions(s.mapInfo, ids);
      var id :| id in ids && s.mapInfo[id].nRandomPos == i;
    }
  }

  /** What the check does not look at: the range of the ids, addresses without an entry, and whether the
      address of entry zero is known. */
  ghost predicate Unchecked(s: Book) {
    && 0 <= s.nIdCount && (forall id :: id in s.mapInfo ==> 0 <= id < s.nIdCount)
    && AddrsIndexed(s)
    && (0 in s.mapInfo ==> s.mapInfo[0].Net() in s.mapAddr)
  }

  lemma NoSlots(env: Env, s: Book, id: int)
    requires NewTableOk(env, s) && id in TriedIds(s.mapInfo)
    ensures SlotsOf(s.vvNew, id) == {}
  {
  }

  lemma EntryExact(env: Env, s: Book, id: int)
    requires NewExact(env, s) && id in s.mapInfo && EntryPasses(s, id)
    ensures EntryOk(s.mapInfo[id], id, s.vvNew, {})
  {
    if s.mapInfo[id].fInTried {
      NoSlots(env, s, id);
    }
  }

  lemma ConsistentPasses(env: Env, s: Book)
    requires Consistent(env, s)
    ensures Passes(env, s) && Unchecked(s)
  {
    forall id | id in s.mapInfo
      ensures EntryPasses(s, id) && s.mapInfo[id].nRefCount == |SlotsOf(s.vvNew, id)|
    {
      assert EntryOk(s.mapInfo[id], id, s.vvNew, {});
    }
    RandomSize(s);
  }

  /** A state is consistent if and only if it passes the check and is right where the check does not look. */
  lemma ConsistentExact(env: Env, s: Book)
    ensures Consistent(env, s) <==> Passes(env, s) && Unchecked(s)
  {
    if Consistent(env, s) {
      ConsistentPasses(env, s);
    } else if Passes(env, s) && Unchecked(s) {
      PassesOrdered(env, s);
      forall id | id in s.mapInfo
        ensures EntryPasses(s, id) && EntryOk(s.mapInfo[id], id, s.vvNew, {})
      {
        EntryExact(env, s, id);
      }
      assert false;
    }
  }

  /** A state that passes without being consistent: an address is known that has no entry. */
  lemma StaleAddressPasses(env: Env, net: NetAddr)
    ensures
      var s := Ops.Fresh(1).(mapAddr := map[net := 0]);
      Passes(env, s) && !Consistent(env, s)
  {
    var s := Ops.Fresh(1).(mapAddr := map[net := 0]);
    assert net in s.mapAddr && s.mapAddr[net] !in s.mapInfo;
  }

  /** Others: from every consistent state with an entry zero, by forgetting its address. */
  lemma MissingZeroPasses(env: Env, s: Book)
    requires Consistent(env, s) && 0 in s.mapInfo
    ensures
      var t := s.(mapAddr := s.mapAddr - {s.mapInfo[0].Net()});
      Passes(env, t) && !Consistent(env, t)
  {
    ConsistentPasses(env, s);
    var t := s.(mapAddr := s.mapAddr - {s.mapInfo[0].Net()});
    forall id | id in t.mapInfo
      ensures EntryPasses(t, id)
    {
      assert EntryPasses(s, id) && s.mapInfo[id].Net() in s.mapAddr;
    }
    assert !Unchecked(t);
    ConsistentExact(env, t);
  }

  /** The state with one entry, in one slot. */
  ghost function OneEntry(env: Env, address: Address, source: NetAddr): Book {
    var e := NewInfo(address, source).(nRefCount := 1, nRandomPos := 0);
    Ops.Fresh(1).(nIdCount := 1, mapInfo := map[0 := e], mapAddr := map[e.Net() := 0], vRandom := [0], nNew := 1,
                  vvNew := map[NewSlot(env, 1, e, source) := 0])
  }

  lemma OneEntryConsistent(env: Env, address: Address, source: NetAddr)
    ensures Consistent(env, OneEntry(env, address, source)) && 0 in OneEntry(env, address, source).mapInfo
  {
    var s := OneEntry(env, address, source);
    var e := s.mapInfo[0];
    assert TriedIds(s.mapInfo) == {} && NewIds(s.mapInfo) == {0};
    assert SlotsOf(s.vvNew, 0) == {NewSlot(env, 1, e, source)};
  }

  lemma {:induction false} DistinctSize(q: seq<int>, ids: set<int>)
    requires (forall i, j :: 0 <= i < j < |q| ==> q[i] != q[j]) && ids == set x | x in q
    ensures |ids| == |q|
    decreases |q|
  {
    if q != [] {
      var n := |q| - 1;
      var rest := set x | x in q[..n];
      DistinctSize(q[..n], rest);
      assert q == q[..n] + [q[n]];
      assert ids == rest + {q[n]};
      assert q[n] !in rest;
    }
  }

  /** Every entry is listed once. */
  lemma RandomSize(s: Book)
    requires Indexed(s)
    ensures |s.vRandom| == |TriedIds(s.mapInfo)| + |NewIds(s.mapInfo)|
  {
    forall i, j | 0 <= i < j < |s.vRandom|
      ensures s.vRandom[i] != s.vRandom[j]
    {
      assert s.mapInfo[s.vRandom[i]].nRandomPos == i && s.mapInfo[s.vRandom[j]].nRandomPos == j;
    }
    var ids := set x | x in s.vRandom;
    forall id
      ensures id in ids <==> id in TriedIds(s.mapInfo) + NewIds(s.mapInfo)
    {
      if id in s.mapInfo {
        assert s.vRandom[s.mapInfo[id].nRandomPos] == id;
      }
    }
    assert ids == TriedIds(s.mapInfo) + NewIds(s.mapInfo);
    DistinctSize(s.vRandom, ids);
  }

  // ---------------------------------------------------------------- the entries

  /** What has been collected about the entries seen so far. */
  ghost predicate Collected(info: map<int, AddrInfo>, seen: set<int>, setTried: set<int>, mapNew: map<int, int>) {
    && setTried == TriedIds(info) * seen
    && mapNew.Keys == NewIds(info) * seen
    && forall id :: id in mapNew ==> id in info && mapNew[id] == info[id].nRefCount
  }

  /** The addresses after the entries seen so far were looked up: only that of entry zero can be new. */
  ghost predicate LookedUp(s: Book, m: map<NetAddr, int>, seen: set<int>) {
    m == s.mapAddr || (0 in seen && 0 in s.mapInfo && s.mapInfo[0].Net() !in s.mapAddr && m == s.mapAddr[s.mapInfo[0].Net() := 0])
  }

  /** The lookups give the same answers, whatever was created on the way. */
  lemma SameLookup(s: Book, m: map<NetAddr, int>, seen: set<int>, id: int)
    requires LookedUp(s, m, seen) && id in s.mapInfo && id !in seen
    ensures LooksUp(m, s.mapInfo[id].Net(), id) <==> LooksUp(s.mapAddr, s.mapInfo[id].Net(), id)
    ensures
      var net := s.mapInfo[id].Net();
      LooksUp(m, net, id) ==> LookedUp(s, if net in m then m else m[net := 0], seen + {id})
  {
  }

  method CheckEntries(a: Man.AddrMan) returns (err: int, setTried: set<int>, mapNew: map<int, int>)
    modifies a`mapAddr
    ensures err == 0 <==> EntriesPass(old(a.State()))
    ensures err == 0 ==> setTried == TriedIds(a.mapInfo) && Collected(a.mapInfo, a.mapInfo.Keys, setTried, mapNew)
    ensures err == 0 ==> LookedUp(old(a.State()), a.mapAddr, a.mapInfo.Keys)
  {
    hide Collected, LookedUp, LooksUp;
    ghost var s := a.State();
    setTried, mapNew := {}, map[];
    var todo := a.mapInfo.Keys;
    CollectStart(a.mapInfo);
    LookStart(s);
    while todo != {}
      invariant todo <= a.mapInfo.Keys && Collected(a.mapInfo, a.mapInfo.Keys - todo, setTried, mapNew)
      invariant LookedUp(s, a.mapAddr, a.mapInfo.Keys - todo)
      invariant forall id :: id in a.mapInfo && id !in todo ==> EntryPasses(s, id)
      decreases |todo|
    {
      ghost var some := Pick(todo);
      var n :| n in todo;
      var info := a.mapInfo[n];
      CollectOne(a.mapInfo, todo, setTried, mapNew, n);
      SameLookup(s, a.mapAddr, a.mapInfo.Keys - todo, n);
      assert a.mapInfo.Keys - todo + {n} == a.mapInfo.Keys - (todo - {n});
      if info.fInTried {
        if info.nLastSuccess == 0 {
          return -1, setTried, mapNew;
        }
        if info.nRefCount != 0 {
          return -2, setTried, mapNew;
        }
        setTried := setTried + {n};
      } else {
        if info.nRefCount < 0 || info.nRefCount > NEW_BUCKETS_PER_ADDRESS {
          return -3, setTried, mapNew;
        }
        if info.nRefCount == 0 {
          return -4, setTried, mapNew;
        }
        mapNew := mapNew[n := info.nRefCount];
      }
      Lookup(a.mapAddr, info.Net(), n);
      if info.Net() !in a.mapAddr {
        a.mapAddr := a.mapAddr[info.Net() := 0];
      }
      if a.mapAddr[info.Net()] != n {
        return -5, setTried, mapNew;
      }
      if info.nRandomPos < 0 || info.nRandomPos >= |a.vRandom| || a.vRandom[info.nRandomPos] != n {
        return -14, setTried, mapNew;
      }
      if info.nLastTry < 0 {
        return -6, setTried, mapNew;
      }
      if info.nLastSuccess < 0 {
        return -8, setTried, mapNew;
      }
      todo := todo - {n};
    }
    CollectEnd(a.mapInfo, setTried, mapNew);
    assert a.mapInfo.Keys - {} == a.mapInfo.Keys;
    err := 0;
  }

  lemma Lookup(m: map<NetAddr, int>, net: NetAddr, id: int)
    ensures LooksUp(m, net, id) <==> (if net in m then m else m[net := 0])[net] == id
  {
  }

  lemma LookStart(s: Book)
    ensures LookedUp(s, s.mapAddr, s.mapInfo.Keys - s.mapInfo.Keys)
  {
  }

  lemma CollectStart(info: map<int, AddrInfo>)
    ensures Collected(info, info.Keys - info.Keys, {}, map[])
  {
  }

  lemma CollectOne(info: map<int, AddrInfo>, todo: set<int>, setTried: set<int>, mapNew: map<int, int>, n: int)
    requires todo <= info.Keys && n in todo && Collected(info, info.Keys - todo, setTried, mapNew)
    ensures info[n].fInTried ==> Collected(info, info.Keys - (todo - {n}), setTried + {n}, mapNew)
    ensures !info[n].fInTried ==> Collected(info, info.Keys - (todo - {n}), setTried, mapNew[n := info[n].nRefCount])
  {
  }

  lemma CollectEnd(info: map<int, AddrInfo>, setTried: set<int>, mapNew: map<int, int>)
    requires Collected(info, info.Keys - {}, setTried, mapNew)
    ensures setTried == TriedIds(info) && Collected(info, info.Keys, setTried, mapNew)
  {
  }

  // ---------------------------------------------------------------- the tried table

  /** The slots already visited: all buckets below `b`, and the first `p` slots of bucket `b`. */
  ghost predicate Visited(sl: Slot, b: int, p: int) {
    sl.0 < b || (sl.0 == b && sl.1 < p)
  }

  ghost predicate InGrid(t: Table, buckets: int) {
    forall sl :: sl in t ==> 0 <= sl.0 < buckets && 0 <= sl.1 < BUCKET_SIZE
  }

  lemma HoldsInGrid(cells: array2<int>, t: Table)
    requires Man.Holds(cells, t) && cells.Length1 == BUCKET_SIZE
    ensures InGrid(t, cells.Length0)
  {
  }

  ghost predicate TriedSlotOk(env: Env, s: Book, sl: Slot)
    requires sl in s.vvTried
  {
    s.vvTried[sl] in TriedIds(s.mapInfo) && sl == TriedSlot(env, s.nKey, s.mapInfo[s.vvTried[sl]])
  }

  /** All visited slots are right, and the tried entries left are those not in them. */
  ghost predicate TriedSoFar(env: Env, s: Book, b: int, p: int, setTried: set<int>) {
    && (forall sl :: sl in s.vvTried && Visited(sl, b, p) ==> TriedSlotOk(env, s, sl))
    && setTried <= TriedIds(s.mapInfo)
    && (forall sl :: sl in s.vvTried && Visited(sl, b, p) ==> s.vvTried[sl] !in setTried)
    && (forall id :: id in TriedIds(s.mapInfo) && id !in setTried ==> Found(s.vvTried, b, p, id))
  }

  ghost predicate Found(t: Table, b: int, p: int, id: int) {
    exists sl :: sl in t && Visited(sl, b, p) && t[sl] == id
  }

  ghost predicate TriedRight(env: Env, s: Book) {
    forall sl :: sl in s.vvTried ==> TriedSlotOk(env, s, sl)
  }

  lemma TriedStart(env: Env, s: Book)
    requires InGrid(s.vvTried, TRIED_BUCKET_COUNT)
    ensures TriedSoFar(env, s, 0, 0, TriedIds(s.mapInfo))
  {
  }

  lemma FoundMore(t: Table, b: int, p: int, b': int, p': int, id: int)
    requires Found(t, b, p, id) && forall sl :: sl in t && Visited(sl, b, p) ==> Visited(sl, b', p')
    ensures Found(t, b', p', id)
  {
    var sl :| sl in t && Visited(sl, b, p) && t[sl] == id;
    assert Visited(sl, b', p');
  }

  /** The slot is right if and only if its entry is left and has this bucket and position. */
  lemma TriedTest(env: Env, s: Book, b: int, p: int, setTried: set<int>)
    requires TriedSoFar(env, s, b, p, setTried) && (b, p) in s.vvTried
    ensures
      var id := s.vvTried[(b, p)];
      TriedSlotOk(env, s, (b, p)) <==>
        id in setTried && id in s.mapInfo && env.triedBucket(s.nKey, s.mapInfo[id].address.service) == b
        && env.position(s.nKey, false, b, s.mapInfo[id].address.service) == p
  {
  }

  lemma TriedNext(env: Env, s: Book, b: int, p: int, setTried: set<int>)
    requires TriedSoFar(env, s, b, p, setTried)
    ensures (b, p) !in s.vvTried ==> TriedSoFar(env, s, b, p + 1, setTried)
    ensures (b, p) in s.vvTried && TriedSlotOk(env, s, (b, p)) ==>
              TriedSoFar(env, s, b, p + 1, setTried - {s.vvTried[(b, p)]})
  {
    var left := if (b, p) in s.vvTried then setTried - {s.vvTried[(b, p)]} else setTried;
    forall sl | sl in s.vvTried && Visited(sl, b, p + 1)
      ensures Visited(sl, b, p) || sl == (b, p)
    {
    }
    forall id | id in TriedIds(s.mapInfo) && id !in left
      ensures Found(s.vvTried, b, p + 1, id)
    {
      if id !in setTried {
        FoundMore(s.vvTried, b, p, b, p + 1, id);
      } else {
        assert Visited((b, p), b, p + 1);
      }
    }
  }

  lemma TriedBucketDone(env: Env, s: Book, b: int, setTried: set<int>)
    requires TriedSoFar(env, s, b, BUCKET_SIZE, setTried) && InGrid(s.vvTried, TRIED_BUCKET_COUNT)
    ensures TriedSoFar(env, s, b + 1, 0, setTried)
  {
    assert forall sl :: sl in s.vvTried ==> (Visited(sl, b, BUCKET_SIZE) <==> Visited(sl, b + 1, 0));
    forall id | id in TriedIds(s.mapInfo) && id !in setTried
      ensures Found(s.vvTried, b + 1, 0, id)
    {
      FoundMore(s.vvTried, b, BUCKET_SIZE, b + 1, 0, id);
    }
  }

  /** With every slot visited, the table is right if and only if no tried entry is left. */
  lemma TriedEnd(env: Env, s: Book, setTried: set<int>)
    requires TriedSoFar(env, s, TRIED_BUCKET_COUNT, 0, setTried) && InGrid(s.vvTried, TRIED_BUCKET_COUNT)
    ensures TriedRight(env, s) && (setTried == {} <==> TriedTableOk(env, s))
  {
    assert forall sl :: sl in s.vvTried ==> Visited(sl, TRIED_BUCKET_COUNT, 0);
    if setTried == {} {
      forall id | id in s.mapInfo && s.mapInfo[id].fInTried
        ensures var sl := TriedSlot(env, s.nKey, s.mapInfo[id]); sl in s.vvTried && s.vvTried[sl] == id
      {
        assert Found(s.vvTried, TRIED_BUCKET_COUNT, 0, id);
        var sl :| sl in s.vvTried && s.vvTried[sl] == id;
        assert TriedSlotOk(env, s, sl);
      }
    } else {
      var id := Pick(setTried);
      var sl := TriedSlot(env, s.nKey, s.mapInfo[id]);
      assert !(sl in s.vvTried && s.vvTried[sl] == id);
    }
  }

  method CheckTried(a: Man.AddrMan, setTried0: set<int>) returns (err: int, setTried: set<int>)
    requires a.TablesHeld() && setTried0 == TriedIds(a.mapInfo)
    ensures err == 0 <==> TriedRight(a.env, a.State())
    ensures err == 0 ==> (setTried == {} <==> TriedTableOk(a.env, a.State()))
  {
    HoldsInGrid(a.vvTried, a.triedSlots);
    hide Man.Holds, TriedSoFar, InGrid, TriedSlotOk, TriedTableOk;
    ghost var s := a.State();
    setTried := setTried0;
    TriedStart(a.env, s);
    for n := 0 to TRIED_BUCKET_COUNT
      invariant TriedSoFar(a.env, s, n, 0, setTried)
    {
      for i := 0 to BUCKET_SIZE
        invariant TriedSoFar(a.env, s, n, i, setTried)
      {
        Man.Cell(a.vvTried, a.triedSlots, n, i);
        TriedNext(a.env, s, n, i, setTried);
        var id := a.vvTried[n, i];
        if id != -1 {
          TriedTest(a.env, s, n, i, setTried);
          if id !in setTried || id !in a.mapInfo {
            return -11, setTried;
          }
          if a.env.triedBucket(a.nKey, a.mapInfo[id].address.service) != n {
            return -17, setTried;
          }
          if a.env.position(a.nKey, false, n, a.mapInfo[id].address.service) != i {
            return -18, setTried;
          }
          setTried := setTried - {id};
        }
      }
      TriedBucketDone(a.env, s, n, setTried);
    }
    TriedEnd(a.env, s, setTried);
    err := 0;
  }

  // ---------------------------------------------------------------- the new table

  ghost function SlotsSeen(t: Table, b: int, p: int, id: int): set<Slot> {
    set sl | sl in t && t[sl] == id && Visited(sl, b, p)
  }

  ghost predicate NewSlotOk(env: Env, s: Book, sl: Slot)
    requires sl in s.vvNew
  {
    var id := s.vvNew[sl];
    id in NewIds(s.mapInfo) && sl.1 == env.position(s.nKey, true, sl.0, s.mapInfo[id].address.service)
  }

  /** The number of an entry's slots still expected; an entry with none left is no longer listed. */
  ghost predicate CountLeft(s: Book, b: int, p: int, mapNew: map<int, int>, id: int)
    requires id in s.mapInfo
  {
    var left := s.mapInfo[id].nRefCount - |SlotsSeen(s.vvNew, b, p, id)|;
    left >= 0 && if id in mapNew then mapNew[id] == left > 0 else left == 0
  }

  ghost predicate NewSoFar(env: Env, s: Book, b: int, p: int, mapNew: map<int, int>) {
    && (forall sl :: sl in s.vvNew && Visited(sl, b, p) ==> NewSlotOk(env, s, sl))
    && (forall id :: id in mapNew ==> id in NewIds(s.mapInfo))
    && (forall id :: id in NewIds(s.mapInfo) ==> CountLeft(s, b, p, mapNew, id))
  }

  lemma NewStart(env: Env, s: Book, mapNew: map<int, int>)
    requires InGrid(s.vvNew, NEW_BUCKET_COUNT) && Collected(s.mapInfo, s.mapInfo.Keys, TriedIds(s.mapInfo), mapNew)
    requires EntriesPass(s)
    ensures NewSoFar(env, s, 0, 0, mapNew)
  {
    forall id | id in NewIds(s.mapInfo)
      ensures CountLeft(s, 0, 0, mapNew, id)
    {
      assert EntryPasses(s, id);
      assert SlotsSeen(s.vvNew, 0, 0, id) == {};
    }
  }

  lemma SeenNext(t: Table, b: int, p: int, id: int)
    ensures SlotsSeen(t, b, p + 1, id) == if (b, p) in t && t[(b, p)] == id then SlotsSeen(t, b, p, id) + {(b, p)} else SlotsSeen(t, b, p, id)
    ensures (b, p) !in SlotsSeen(t, b, p, id)
  {
  }

  function CountDown(mapNew: map<int, int>, id: int): map<int, int>
    requires id in mapNew
  {
    if mapNew[id] == 1 then mapNew[id := 0] - {id} else mapNew[id := mapNew[id] - 1]
  }

  lemma CountNext(s: Book, b: int, p: int, mapNew: map<int, int>, id: int)
    requires id in s.mapInfo && CountLeft(s, b, p, mapNew, id)
    ensures !((b, p) in s.vvNew && s.vvNew[(b, p)] == id) ==> CountLeft(s, b, p + 1, mapNew, id)
    ensures (b, p) in s.vvNew && s.vvNew[(b, p)] == id && id in mapNew ==>
              CountLeft(s, b, p + 1, CountDown(mapNew, id), id)
  {
    SeenNext(s.vvNew, b, p, id);
    hide SlotsSeen;
  }

  lemma NewNext(env: Env, s: Book, b: int, p: int, mapNew: map<int, int>)
    requires NewSoFar(env, s, b, p, mapNew)
    ensures (b, p) !in s.vvNew ==> NewSoFar(env, s, b, p + 1, mapNew)
    ensures (b, p) in s.vvNew && s.vvNew[(b, p)] in mapNew && NewSlotOk(env, s, (b, p)) ==>
              NewSoFar(env, s, b, p + 1, CountDown(mapNew, s.vvNew[(b, p)]))
  {
    forall sl | sl in s.vvNew && Visited(sl, b, p + 1)
      ensures Visited(sl, b, p) || sl == (b, p)
    {
    }
    forall id | id in NewIds(s.mapInfo)
      ensures (b, p) !in s.vvNew ==> CountLeft(s, b, p + 1, mapNew, id)
      ensures (b, p) in s.vvNew && s.vvNew[(b, p)] in mapNew ==>
                CountLeft(s, b, p + 1, CountDown(mapNew, s.vvNew[(b, p)]), id)
    {
      CountNext(s, b, p, mapNew, id);
    }
    hide CountLeft;
  }

  /** A slot the check objects to: it is wrong itself, or it is one slot too many for its entry. */
  lemma NewObjected(env: Env, s: Book, b: int, p: int, mapNew: map<int, int>)
    requires NewSoFar(env, s, b, p, mapNew) && (b, p) in s.vvNew
    requires !(s.vvNew[(b, p)] in mapNew && NewSlotOk(env, s, (b, p)))
    ensures !NewFits(env, s)
  {
    var id := s.vvNew[(b, p)];
    if NewFits(env, s) {
      assert CountLeft(s, b, p, mapNew, id);
      var seen := SlotsSeen(s.vvNew, b, p, id);
      assert seen <= SlotsOf(s.vvNew, id) - {(b, p)};
      SubsetSize(seen, SlotsOf(s.vvNew, id) - {(b, p)});
      assert false;
    }
  }

  lemma NewBucketDone(env: Env, s: Book, b: int, mapNew: map<int, int>)
    requires NewSoFar(env, s, b, BUCKET_SIZE, mapNew) && InGrid(s.vvNew, NEW_BUCKET_COUNT)
    ensures NewSoFar(env, s, b + 1, 0, mapNew)
  {
    assert forall sl :: sl in s.vvNew ==> (Visited(sl, b, BUCKET_SIZE) <==> Visited(sl, b + 1, 0));
    forall id | id in NewIds(s.mapInfo)
      ensures CountLeft(s, b + 1, 0, mapNew, id)
    {
      assert SlotsSeen(s.vvNew, b + 1, 0, id) == SlotsSeen(s.vvNew, b, BUCKET_SIZE, id);
    }
  }

  lemma NewEnd(env: Env, s: Book, mapNew: map<int, int>)
    requires NewSoFar(env, s, NEW_BUCKET_COUNT, 0, mapNew) && InGrid(s.vvNew, NEW_BUCKET_COUNT)
    ensures NewFits(env, s) && (mapNew == map[] <==> NewExact(env, s))
  {
    assert forall sl :: sl in s.vvNew ==> Visited(sl, NEW_BUCKET_COUNT, 0);
    assert forall sl :: sl in s.vvNew ==> NewSlotOk(env, s, sl);
    forall id | id in NewIds(s.mapInfo)
      ensures |SlotsOf(s.vvNew, id)| <= s.mapInfo[id].nRefCount
      ensures id !in mapNew <==> |SlotsOf(s.vvNew, id)| == s.mapInfo[id].nRefCount
    {
      assert CountLeft(s, NEW_BUCKET_COUNT, 0, mapNew, id);
      assert SlotsSeen(s.vvNew, NEW_BUCKET_COUNT, 0, id) == SlotsOf(s.vvNew, id);
    }
    if mapNew != map[] {
      var id := Pick(mapNew.Keys);
      assert id in NewIds(s.mapInfo);
    }
  }

  method CheckNew(a: Man.AddrMan, mapNew0: map<int, int>) returns (err: int, mapNew: map<int, int>)
    requires a.TablesHeld() && EntriesPass(a.State())
    requires Collected(a.mapInfo, a.mapInfo.Keys, TriedIds(a.mapInfo), mapNew0)
    ensures err == 0 <==> NewFits(a.env, a.State())
    ensures err == 0 ==> (mapNew == map[] <==> NewExact(a.env, a.State()))
  {
    HoldsInGrid(a.vvNew, a.newSlots);
    hide Man.Holds, NewSoFar, InGrid, Collected, NewFits, NewExact, EntriesPass;
    ghost var s := a.State();
    mapNew := mapNew0;
    NewStart(a.env, s, mapNew);
    for n := 0 to NEW_BUCKET_COUNT
      invariant NewSoFar(a.env, s, n, 0, mapNew)
    {
      for i := 0 to BUCKET_SIZE
        invariant NewSoFar(a.env, s, n, i, mapNew)
      {
        Man.Cell(a.vvNew, a.newSlots, n, i);
        NewNext(a.env, s, n, i, mapNew);
        var id := a.vvNew[n, i];
        if id != -1 {
          NewListed(a.env, s, n, i, mapNew);
          if id !in mapNew {
            NewObjected(a.env, s, n, i, mapNew);
            return -12, mapNew;
          }
          if a.env.position(a.nKey, true, n, a.mapInfo[id].address.service) != i {
            NewObjected(a.env, s, n, i, mapNew);
            return -19, mapNew;
          }
          mapNew := mapNew[id := mapNew[id] - 1];
          if mapNew[id] == 0 {
            mapNew := mapNew - {id};
          }
        }
      }
      NewBucketDone(a.env, s, n, mapNew);
    }
    NewEnd(a.env, s, mapNew);
    err := 0;
  }

  lemma NewListed(env: Env, s: Book, b: int, p: int, mapNew: map<int, int>)
    requires NewSoFar(env, s, b, p, mapNew)
    ensures forall id :: id in mapNew ==> id in s.mapInfo && id in NewIds(s.mapInfo)
  {
  }

  // ---------------------------------------------------------------- the whole check

  /** The check of the two tables looks at no addresses. */
  lemma OtherAddrs(env: Env, s: Book, m: map<NetAddr, int>)
    ensures
      var t := s.(mapAddr := m);
      && (TriedRight(env, t) <==> TriedRight(env, s)) && (TriedTableOk(env, t) <==> TriedTableOk(env, s))
      && (NewFits(env, t) <==> NewFits(env, s)) && (NewExact(env, t) <==> NewExact(env, s))
  {
    var t := s.(mapAddr := m);
    assert forall sl :: sl in s.vvTried ==> (TriedSlotOk(env, t, sl) <==> TriedSlotOk(env, s, sl));
  }

  lemma StillPass(s: Book, m: map<NetAddr, int>)
    requires EntriesPass(s) && LookedUp(s, m, s.mapInfo.Keys)
    ensures EntriesPass(s.(mapAddr := m))
    ensures (0 in s.mapInfo ==> s.mapInfo[0].Net() in s.mapAddr) ==> m == s.mapAddr
  {
    var t := s.(mapAddr := m);
    forall id | id in t.mapInfo
      ensures EntryPasses(t, id)
    {
      assert EntryPasses(s, id);
    }
  }

  lemma RightFits(env: Env, s: Book)
    ensures TriedTableOk(env, s) ==> TriedRight(env, s)
    ensures NewExact(env, s) ==> NewFits(env, s)
  {
  }

  /** The passes over the two tables. */
  method CheckTables(a: Man.AddrMan, setTried0: set<int>, mapNew0: map<int, int>) returns (err: int)
    requires a.TablesHeld() && setTried0 == TriedIds(a.mapInfo)
    requires EntriesPass(a.State()) && Collected(a.mapInfo, a.mapInfo.Keys, TriedIds(a.mapInfo), mapNew0)
    ensures err == 0 <==> TriedTableOk(a.env, a.State()) && NewExact(a.env, a.State())
  {
    hide Collected, Man.Holds, EntriesPass, TriedRight, TriedTableOk, NewFits, NewExact, TriedIds, NewIds;
    RightFits(a.env, a.State());
    var setTried, mapNew;
    err, setTried := CheckTried(a, setTried0);
    if err != 0 {
      return;
    }
    err, mapNew := CheckNew(a, mapNew0);
    if err != 0 {
      return;
    }
    if |setTried| != 0 {
      return -13;
    }
    if |mapNew| != 0 {
      return -15;
    }
    return 0;
  }

  /** The self-check passes if and only if the key is not null and everything it looks at is right. */
  method Check(a: Man.AddrMan) returns (err: int)
    requires a.TablesHeld()
    modifies a`mapAddr
    ensures err == 0 <==> a.nKey != 0 && Passes(a.env, old(a.State()))
    ensures err == 0 ==> LookedUp(old(a.State()), a.mapAddr, a.mapInfo.Keys)
    ensures old(a.Valid()) ==> a.Valid() && a.State() == old(a.State()) && err == if a.nKey == 0 then -16 else 0
  {
    hide Inv, Collected, Man.Holds, EntriesPass, TriedTableOk, NewExact, LookedUp, TriedIds, NewIds, Unchecked;
    ghost var s := a.State();
    ConsistentExact(a.env, s);
    if |a.vRandom| != a.nTried + a.nNew {
      return -7;
    }
    var setTried, mapNew;
    err, setTried, mapNew := CheckEntries(a);
    if err != 0 {
      return;
    }
    StillPass(s, a.mapAddr);
    OtherAddrs(a.env, s, a.mapAddr);
    ZeroKnown(s);
    NewSize(a.mapInfo, setTried, mapNew);
    if |setTried| != a.nTried {
      return -9;
    }
    if |mapNew| != a.nNew {
      return -10;
    }
    err := CheckTables(a, setTried, mapNew);
    if err != 0 {
      return;
    }
    if a.nKey == 0 {
      return -16;
    }
    return 0;
  }

  lemma ZeroKnown(s: Book)
    ensures Unchecked(s) ==> (0 in s.mapInfo ==> s.mapInfo[0].Net() in s.mapAddr)
  {
  }

  lemma NewSize(info: map<int, AddrInfo>, setTried: set<int>, mapNew: map<int, int>)
    requires Collected(info, info.Keys, setTried, mapNew)
    ensures |mapNew| == |NewIds(info)|
  {
    assert NewIds(info) * info.Keys == NewIds(info);
    assert |mapNew| == |mapNew.Keys|;
  }
}
