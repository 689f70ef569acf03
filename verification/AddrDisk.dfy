/** Writing the address manager to disk and reading it back (src/addrman.h).

    A manager is handled here by its value; reading starts from a newly constructed one. */
module AddrDisk {
  import opened AddrBook
  import opened Common
  import Ops = AddrOps

  /** What is stored of an entry. */
  datatype DiskInfo = DiskInfo(address: Address, source: NetAddr, nLastSuccess: int, nAttempts: int)

  function Stored(info: AddrInfo): DiskInfo {
    DiskInfo(info.address, info.source, info.nLastSuccess, info.nAttempts)
  }

  function Loaded(d: DiskInfo): AddrInfo {
    NewInfo(d.address, d.source).(nLastSuccess := d.nLastSuccess, nAttempts := d.nAttempts)
  }

  datatype Stream = Stream(
    nVersion: int,
    nKeySize: int,
    nKey: Key,
    nNew: int,
    nTried: int,
    nUBuckets: int,
    newInfos: seq<DiskInfo>,
    triedInfos: seq<DiskInfo>,
    buckets: seq<seq<int>>)

  const BIT30 := 1073741824

  /** Exclusive or with 2^30. */
  function FlipBit30(n: int): int {
    if n / BIT30 % 2 == 0 then n + BIT30 else n - BIT30
  }

  /** The occupied positions of a bucket below `n`, in order. */
  function Positions(t: Table, b: int, n: nat): (r: seq<int>)
    ensures forall k :: 0 <= k < |r| ==> 0 <= r[k] < n && (b, r[k]) in t
    ensures forall p :: 0 <= p < n && (b, p) in t ==> p in r
    ensures forall j, k :: 0 <= j < k < |r| ==> r[j] < r[k]
  {
    if n == 0 then []
    else if (b, n - 1) in t then Positions(t, b, n - 1) + [n - 1]
    else Positions(t, b, n - 1)
  }

  /** A list of ids without repetition. */
  ghost predicate Lists(ids: seq<int>, s: set<int>) {
    && (forall i :: 0 <= i < |ids| ==> ids[i] in s)
    && (forall id :: id in s ==> id in ids)
    && (forall i, j :: 0 <= i < j < |ids| ==> ids[i] != ids[j])
  }

  /** The stream describes the manager, with the new and tried entries in the order given. */
  ghost predicate Describes(st: Stream, s: Book, newIds: seq<int>, triedIds: seq<int>) {
    && st.nVersion == 1 && st.nKeySize == 32 && st.nKey == s.nKey
    && st.nNew == s.nNew && st.nTried == s.nTried && st.nUBuckets == 0x4000_0400
    && Lists(newIds, NewIds(s.mapInfo)) && Lists(triedIds, TriedIds(s.mapInfo))
    && |newIds| == |st.newInfos| == s.nNew && |triedIds| == |st.triedInfos| == s.nTried
    && (forall i :: 0 <= i < |newIds| ==> st.newInfos[i] == Stored(s.mapInfo[newIds[i]]))
    && (forall i :: 0 <= i < |triedIds| ==> st.triedInfos[i] == Stored(s.mapInfo[triedIds[i]]))
    && |st.buckets| == NEW_BUCKET_COUNT
    && forall b :: 0 <= b < NEW_BUCKET_COUNT ==> BucketDescribed(st.buckets[b], s.vvNew, b, newIds)
  }

  /** The bucket's list names, position by position, the entries in it. */
  ghost predicate BucketDescribed(list: seq<int>, t: Table, b: int, newIds: seq<int>) {
    var ps := Positions(t, b, BUCKET_SIZE);
    && |list| == |ps|
    && forall k :: 0 <= k < |ps| ==> 0 <= list[k] < |newIds| && newIds[list[k]] == t[(b, ps[k])]
  }

  lemma {:induction false} ListLength(ids: seq<int>, s: set<int>)
    requires Lists(ids, s)
    ensures |ids| == |s|
    decreases |ids|
  {
    if ids == [] {
      assert forall id :: id in s ==> id in ids;
      assert s == {};
    } else {
      var last := ids[|ids| - 1];
      var rest := ids[..|ids| - 1];
      forall id | id in s - {last}
        ensures id in rest
      {
        var i :| 0 <= i < |ids| && ids[i] == id;
        assert rest[i] == id;
      }
      ListLength(rest, s - {last});
    }
  }

  // ---------------------------------------------------------------- writing

  method Serialize(env: Env, s: Book) returns (st: Stream)
    requires Consistent(env, s)
    ensures exists newIds, triedIds :: Describes(st, s, newIds, triedIds)
  {
    hide Inv;
    var mapUnkIds, newInfos, newIds := WriteNewInfos(env, s);
    var triedInfos, triedIds := WriteTriedInfos(env, s);
    KnownSlots(env, s, newIds);
    var buckets := [];
    for bucket := 0 to NEW_BUCKET_COUNT
      invariant |buckets| == bucket
      invariant forall b :: 0 <= b < bucket ==> BucketDescribed(buckets[b], s.vvNew, b, newIds)
    {
      var list := WriteBucket(s, bucket, mapUnkIds, newIds);
      buckets := buckets + [list];
    }
    st := Stream(1, 32, s.nKey, s.nNew, s.nTried, FlipBit30(NEW_BUCKET_COUNT), newInfos, triedInfos, buckets);
    assert Describes(st, s, newIds, triedIds);
  }

  lemma KnownSlots(env: Env, s: Book, newIds: seq<int>)
    requires Consistent(env, s) && Lists(newIds, NewIds(s.mapInfo))
    ensures forall sl :: sl in s.vvNew ==> s.vvNew[sl] in newIds
  {
    forall sl | sl in s.vvNew
      ensures s.vvNew[sl] in newIds
    {
      ListHas(newIds, NewIds(s.mapInfo), s.vvNew[sl]);
    }
  }

  lemma ListHas(ids: seq<int>, s: set<int>, id: int)
    requires Lists(ids, s) && id in s
    ensures id in ids
  {
  }

  /** Whether the first list is the ids below `n` that belong to the set. */
  ghost predicate ListsBelow(ids: seq<int>, s: set<int>, n: int) {
    Lists(ids, set id | id in s && id < n)
  }

  lemma ListsNext(ids: seq<int>, s: set<int>, n: int)
    requires ListsBelow(ids, s, n)
    ensures n in s ==> ListsBelow(ids + [n], s, n + 1) && |ids| < |s|
    ensures n !in s ==> ListsBelow(ids, s, n + 1)
  {
    var below, next := (set id | id in s && id < n), (set id | id in s && id < n + 1);
    if n in s {
      assert next == below + {n};
      ListLength(ids, below);
      assert below <= s - {n};
      SubsetSize(below, s - {n});
    } else {
      assert next == below;
    }
  }

  lemma ListsAll(env: Env, s: Book, ids: seq<int>, of: set<int>)
    requires Consistent(env, s) && of <= s.mapInfo.Keys && ListsBelow(ids, of, s.nIdCount)
    ensures Lists(ids, of)
  {
  }

  /** The new entries in id order, and the number each gets. */
  method WriteNewInfos(env: Env, s: Book)
      returns (mapUnkIds: map<int, int>, newInfos: seq<DiskInfo>, ghost newIds: seq<int>)
    requires Consistent(env, s)
    ensures Lists(newIds, NewIds(s.mapInfo)) && |newIds| == |newInfos| == s.nNew
    ensures forall i :: 0 <= i < |newIds| ==> newIds[i] in s.mapInfo && newInfos[i] == Stored(s.mapInfo[newIds[i]])
    ensures forall i :: 0 <= i < |newIds| ==> newIds[i] in mapUnkIds && mapUnkIds[newIds[i]] == i
  {
    ghost var all := NewIds(s.mapInfo);
    assert |all| == s.nNew && 0 <= s.nIdCount;
    RefCounted(env, s);
    hide Inv, NewIds;
    mapUnkIds, newInfos, newIds := map[], [], [];
    var nIds := 0;
    for id := 0 to s.nIdCount
      invariant nIds == |newIds| == |newInfos| && ListsBelow(newIds, all, id)
      invariant forall i :: 0 <= i < |newIds| ==> newIds[i] in s.mapInfo && newInfos[i] == Stored(s.mapInfo[newIds[i]])
      invariant forall i :: 0 <= i < |newIds| ==> newIds[i] < id && newIds[i] in mapUnkIds && mapUnkIds[newIds[i]] == i
    {
      ListsNext(newIds, all, id);
      if id in s.mapInfo {
        mapUnkIds := mapUnkIds[id := nIds];
        if s.mapInfo[id].nRefCount != 0 {
          assert nIds != s.nNew;
          newInfos := newInfos + [Stored(s.mapInfo[id])];
          newIds := newIds + [id];
          nIds := nIds + 1;
        }
      }
    }
    NewIdsKnown(s);
    ListsAll(env, s, newIds, all);
    ListLength(newIds, all);
  }

  lemma NewIdsKnown(s: Book)
    ensures NewIds(s.mapInfo) <= s.mapInfo.Keys && TriedIds(s.mapInfo) <= s.mapInfo.Keys
  {
  }

  lemma RefCounted(env: Env, s: Book)
    requires Consistent(env, s)
    ensures forall id :: id in NewIds(s.mapInfo) <==> id in s.mapInfo && s.mapInfo[id].nRefCount != 0
    ensures forall id :: id in NewIds(s.mapInfo) ==> id >= 0
    ensures forall id :: id in TriedIds(s.mapInfo) ==> id >= 0
  {
  }

  method WriteTriedInfos(env: Env, s: Book) returns (triedInfos: seq<DiskInfo>, ghost triedIds: seq<int>)
    requires Consistent(env, s)
    ensures Lists(triedIds, TriedIds(s.mapInfo)) && |triedIds| == |triedInfos| == s.nTried
    ensures forall i :: 0 <= i < |triedIds| ==> triedIds[i] in s.mapInfo && triedInfos[i] == Stored(s.mapInfo[triedIds[i]])
  {
    ghost var all := TriedIds(s.mapInfo);
    assert |all| == s.nTried && 0 <= s.nIdCount;
    RefCounted(env, s);
    hide Inv;
    triedInfos, triedIds := [], [];
    var nIds := 0;
    for id := 0 to s.nIdCount
      invariant nIds == |triedIds| == |triedInfos| && ListsBelow(triedIds, all, id)
      invariant forall i :: 0 <= i < |triedIds| ==> triedIds[i] in s.mapInfo && triedInfos[i] == Stored(s.mapInfo[triedIds[i]])
    {
      ListsNext(triedIds, all, id);
      if id in s.mapInfo && s.mapInfo[id].fInTried {
        assert nIds != s.nTried;
        triedInfos := triedInfos + [Stored(s.mapInfo[id])];
        triedIds := triedIds + [id];
        nIds := nIds + 1;
      }
    }
    NewIdsKnown(s);
    ListsAll(env, s, triedIds, all);
    ListLength(triedIds, all);
  }

  method WriteBucket(s: Book, bucket: int, mapUnkIds: map<int, int>, ghost newIds: seq<int>) returns (list: seq<int>)
    requires forall i :: 0 <= i < |newIds| ==> newIds[i] in mapUnkIds && mapUnkIds[newIds[i]] == i
    requires forall sl :: sl in s.vvNew ==> s.vvNew[sl] in newIds
    ensures BucketDescribed(list, s.vvNew, bucket, newIds)
  {
    list := [];
    for i := 0 to BUCKET_SIZE
      invariant
        var ps := Positions(s.vvNew, bucket, i);
        && |list| == |ps|
        && forall k :: 0 <= k < |ps| ==> 0 <= list[k] < |newIds| && newIds[list[k]] == s.vvNew[(bucket, ps[k])]
    {
      if (bucket, i) in s.vvNew {
        var nIndex := mapUnkIds[s.vvNew[(bucket, i)]];
        list := list + [nIndex];
      }
    }
  }

  // ---------------------------------------------------------------- reading

  /** A loaded entry gets the next id and the last place in vRandom. */
  function Insert(m: Book, info: AddrInfo): Book {
    m.(nIdCount := m.nIdCount + 1,
       mapInfo := m.mapInfo[m.nIdCount := info.(nRandomPos := |m.vRandom|)],
       mapAddr := m.mapAddr[info.Net() := m.nIdCount],
       vRandom := m.vRandom + [m.nIdCount])
  }

  /** What holds of any book while it is read, whatever the stream says. */
  ghost predicate Placed(m: Book) {
    && 0 <= m.nIdCount
    && (forall id :: id in m.mapInfo ==>
          0 <= id < m.nIdCount && 0 <= m.mapInfo[id].nRandomPos < |m.vRandom| && m.vRandom[m.mapInfo[id].nRandomPos] == id)
    && OrderIndexed(m)
  }

  lemma InsertPlaced(m: Book, info: AddrInfo)
    requires Placed(m)
    ensures Placed(Insert(m, info))
  {
  }

  /** A loaded entry that is in no table yet. */
  lemma InsertKeeps(env: Env, m: Book, limbo: set<int>, info: AddrInfo)
    requires Inv(env, m, limbo, 0) && info.Net() !in m.mapAddr
    requires TimesOk(info) && !info.fInTried && info.nRefCount == 0
    ensures m.nIdCount !in m.mapInfo && 0 <= m.nIdCount
    ensures
      var t := Insert(m, info);
      Inv(env, t.(nNew := t.nNew + 1), limbo + {m.nIdCount}, 0)
  {
    var t := Insert(m, info);
    assert Indexed(t) by { hide TablesOk; }
    var u := t.(nNew := t.nNew + 1);
    assert Indexed(u) by {
      hide TablesOk;
      assert IdsIndexed(u) && AddrsIndexed(u) && OrderIndexed(u);
    }
    assert m.nIdCount !in m.mapInfo && 0 <= m.nIdCount;
    assert TablesOk(env, u, limbo + {m.nIdCount}, 0) by {
      hide Indexed;
      InsertTables(env, m, limbo, info.(nRandomPos := |m.vRandom|), u);
    }
  }

  lemma InsertTables(env: Env, m: Book, limbo: set<int>, info: AddrInfo, u: Book)
    requires TablesOk(env, m, limbo, 0) && m.nIdCount !in m.mapInfo
    requires TimesOk(info) && !info.fInTried && info.nRefCount == 0
    requires u == m.(nIdCount := u.nIdCount, mapInfo := m.mapInfo[m.nIdCount := info], mapAddr := u.mapAddr,
                     vRandom := u.vRandom, nNew := m.nNew + 1)
    ensures TablesOk(env, u, limbo + {m.nIdCount}, 0)
  {
    var id := m.nIdCount;
    assert Counted(u, 0) by {
      hide NewTableOk, TriedTableOk, EntriesOk;
      assert TriedIds(u.mapInfo) == TriedIds(m.mapInfo);
      assert NewIds(u.mapInfo) == NewIds(m.mapInfo) + {id};
    }
    assert EntriesOk(u, limbo + {id}) by {
      hide TriedTableOk, Counted;
      assert SlotsOf(m.vvNew, id) == {};
      forall j | j in u.mapInfo
        ensures EntryOk(u.mapInfo[j], j, u.vvNew, limbo + {id})
      {
        assert j != id ==> EntryOk(m.mapInfo[j], j, m.vvNew, limbo);
      }
    }
    assert NewTableOk(env, u) by { hide TriedTableOk, EntriesOk, Counted; }
    assert TriedTableOk(env, u) by { hide NewTableOk, EntriesOk, Counted; }
  }

  /** One tried entry is read; it is lost if its slot is taken. */
  function LoadTried(env: Env, m: Book, d: DiskInfo): Book {
    var info := Loaded(d);
    var sl := TriedSlot(env, m.nKey, info);
    if sl in m.vvTried then m
    else
      var t := Insert(m, info.(fInTried := true));
      t.(vvTried := t.vvTried[sl := m.nIdCount], nTried := t.nTried + 1)
  }

  lemma LoadTriedKeeps(env: Env, m: Book, limbo: set<int>, d: DiskInfo)
    requires Inv(env, m, limbo, 0) && d.address.service.net !in m.mapAddr && d.nLastSuccess > 0
    requires TriedSlot(env, m.nKey, Loaded(d)) !in m.vvTried
    ensures Inv(env, LoadTried(env, m, d), limbo, 0)
  {
    hide Inv;
    var info := Loaded(d);
    InsertKeeps(env, m, limbo, info);
    var t := Insert(m, info);
    var u := t.(nNew := t.nNew + 1);
    EnterTriedKeeps(env, u, limbo + {m.nIdCount}, 0, m.nIdCount);
    var sl := TriedSlot(env, m.nKey, info);
    var v := EnterTried(u, m.nIdCount, sl);
    LimboInside(env, m, limbo);
    assert limbo + {m.nIdCount} - {m.nIdCount} == limbo;
    OweLess(env, v, limbo);
    assert LoadTried(env, m, d) == v.(nNew := v.nNew - 1) by {
      assert LoadTried(env, m, d).mapInfo == v.mapInfo;
    }
  }

  lemma OweLess(env: Env, s: Book, limbo: set<int>)
    requires Inv(env, s, limbo, -1)
    ensures Inv(env, s.(nNew := s.nNew - 1), limbo, 0)
  {
  }

  lemma LimboInside(env: Env, s: Book, limbo: set<int>)
    requires Inv(env, s, limbo, 0)
    ensures limbo <= s.mapInfo.Keys
  {
  }

  // ---------------------------------------------------------------- any stream

  ghost predicate RefsOk(m: Book, id: int)
    requires id in m.mapInfo
  {
    && m.mapInfo[id].nRefCount == |SlotsOf(m.vvNew, id)| <= 8
    && (m.mapInfo[id].fInTried ==> m.mapInfo[id].nRefCount == 0)
  }

  /** Whatever the stream says, both tables, the reference counts and the two totals are right at any moment, and the
      first `n` entries are not tried. */
  ghost predicate Sound(env: Env, m: Book, n: int) {
    && NewTableOk(env, m) && TriedTableOk(env, m) && Counted(m, 0)
    && (forall id :: id in m.mapInfo ==> RefsOk(m, id))
    && (forall i :: 0 <= i < n ==> i in m.mapInfo && !m.mapInfo[i].fInTried)
  }

  /** The new entries without any slot. */
  ghost function Homeless(m: Book): set<int> {
    set id | id in m.mapInfo && !m.mapInfo[id].fInTried && m.mapInfo[id].nRefCount == 0
  }

  ghost function TimelessInfo(info: AddrInfo): AddrInfo {
    info.(nLastTry := 0, nLastSuccess := 1)
  }

  /** The book with times that are in order. */
  ghost function Timeless(m: Book): (t: Book)
    ensures t == m.(mapInfo := t.mapInfo) && t.mapInfo.Keys == m.mapInfo.Keys
    ensures forall id :: id in m.mapInfo ==> t.mapInfo[id] == TimelessInfo(m.mapInfo[id])
  {
    m.(mapInfo := map id | id in m.mapInfo :: TimelessInfo(m.mapInfo[id]))
  }

  lemma TimelessSet(m: Book, t: Book, id: int, info: AddrInfo)
    requires t.mapInfo == m.mapInfo[id := info]
    ensures Timeless(t).mapInfo == Timeless(m).mapInfo[id := TimelessInfo(info)]
  {
    hide Timeless;
  }

  lemma SoundTables(env: Env, m: Book, n: int)
    requires Sound(env, m, n)
    ensures TablesOk(env, Timeless(m), Homeless(m), 0)
  {
    hide Timeless;
    SameMarks(m.mapInfo, Timeless(m).mapInfo);
    forall id | id in m.mapInfo
      ensures EntryOk(Timeless(m).mapInfo[id], id, m.vvNew, Homeless(m))
    {
      assert RefsOk(m, id);
    }
  }

  lemma TablesSound(env: Env, m: Book, limbo: set<int>, n: int)
    requires TablesOk(env, Timeless(m), limbo, 0)
    requires forall i :: 0 <= i < n ==> i in m.mapInfo && !m.mapInfo[i].fInTried
    ensures Sound(env, m, n)
  {
    hide Timeless;
    var t := Timeless(m);
    SameMarks(m.mapInfo, t.mapInfo);
    assert forall id :: id in m.mapInfo <==> id in t.mapInfo;
    forall id | id in m.mapInfo
      ensures RefsOk(m, id)
    {
      assert EntryOk(t.mapInfo[id], id, m.vvNew, limbo);
    }
    assert NewTableOk(env, m) by { hide TriedTableOk, EntriesOk, Counted; }
    assert TriedTableOk(env, m) by { hide NewTableOk, EntriesOk, Counted; }
  }

  /** What the proofs below need of the two predicates. */
  lemma SoundNew(env: Env, m: Book, n: int)
    requires Placed(m) && Sound(env, m, n)
    ensures m.nIdCount !in m.mapInfo
    ensures forall i :: 0 <= i < n ==> i in m.mapInfo && !m.mapInfo[i].fInTried
  {
  }

  lemma SoundFewer(env: Env, m: Book, n: int)
    requires Sound(env, m, n) && 0 <= n
    ensures Sound(env, m, 0)
  {
  }

  lemma InsertSound(env: Env, m: Book, info: AddrInfo)
    requires Placed(m) && Sound(env, m, m.nIdCount) && !info.fInTried && info.nRefCount == 0
    ensures
      var t := Insert(m, info);
      Sound(env, t.(nNew := t.nNew + 1), m.nIdCount + 1)
  {
    hide Sound, Placed, TablesOk, Timeless, Homeless;
    var t, id := Insert(m, info), m.nIdCount;
    var u := t.(nNew := t.nNew + 1);
    SoundNew(env, m, id);
    SoundTables(env, m, id);
    var kept := info.(nRandomPos := |m.vRandom|);
    TimelessSet(m, u, id, kept);
    InsertTables(env, Timeless(m), Homeless(m), TimelessInfo(kept), Timeless(u));
    TablesSound(env, u, Homeless(m) + {id}, id + 1);
  }

  lemma LoadTriedSound(env: Env, m: Book, d: DiskInfo, n: int)
    requires Placed(m) && Sound(env, m, n) && TriedSlot(env, m.nKey, Loaded(d)) !in m.vvTried
    ensures Sound(env, LoadTried(env, m, d), n)
  {
    hide Sound, Placed, TablesOk, Timeless, Homeless;
    var info := Loaded(d);
    var id, sl, t := m.nIdCount, TriedSlot(env, m.nKey, info), LoadTried(env, m, d);
    SoundNew(env, m, n);
    SoundTables(env, m, n);
    var kept := info.(nRandomPos := |m.vRandom|);
    var u := Insert(m, info);
    u := u.(nNew := u.nNew + 1);
    TimelessSet(m, u, id, kept);
    InsertTables(env, Timeless(m), Homeless(m), TimelessInfo(kept), Timeless(u));
    EnterTriedTables(env, Timeless(u), Homeless(m) + {id}, 0, id);
    var v := EnterTried(Timeless(u), id, sl);
    TimelessSet(u, t, id, kept.(fInTried := true));
    assert Timeless(t) == v.(nNew := v.nNew - 1);
    OweLessTables(env, v, Homeless(m) + {id} - {id});
    TablesSound(env, t, Homeless(m) + {id} - {id}, n);
  }

  lemma OweLessTables(env: Env, s: Book, limbo: set<int>)
    requires TablesOk(env, s, limbo, -1)
    ensures TablesOk(env, s.(nNew := s.nNew - 1), limbo, 0)
  {
  }

  lemma EnterNewSound(env: Env, m: Book, id: int, sl: Slot, n: int)
    requires Placed(m) && Sound(env, m, n) && id in m.mapInfo && sl !in m.vvNew
    requires !m.mapInfo[id].fInTried && m.mapInfo[id].nRefCount < NEW_BUCKETS_PER_ADDRESS
    requires 0 <= sl.0 < NEW_BUCKET_COUNT && sl.1 == env.position(m.nKey, true, sl.0, m.mapInfo[id].address.service)
    ensures Sound(env, EnterNew(m, id, sl), n)
  {
    hide Sound, Placed, TablesOk, Timeless, Homeless;
    var t := EnterNew(m, id, sl);
    SoundNew(env, m, n);
    SoundTables(env, m, n);
    EnterNewTables(env, Timeless(m), Homeless(m), 0, id, sl);
    TimelessSet(m, t, id, t.mapInfo[id]);
    TablesSound(env, t, Homeless(m) - {id}, n);
  }

  lemma DeleteSound(env: Env, m: Book, id: int)
    requires Sound(env, m, 0) && id in Homeless(m) && CanDelete(m, id)
    ensures Sound(env, Delete(m, id), 0)
  {
    hide Sound, TablesOk, Timeless, SwapRandom;
    var t, u := SwapRandom(m, m.mapInfo[id].nRandomPos, |m.vRandom| - 1), Delete(m, id);
    SoundTables(env, m, 0);
    SwapAlike(m, m.mapInfo[id].nRandomPos, |m.vRandom| - 1);
    hide Homeless, Delete;
    AlikeKeeps(env, Timeless(m), Timeless(t), Homeless(m), 0);
    assert Timeless(u).mapInfo == Timeless(t).mapInfo - {id};
    DropEntryTables(env, Timeless(t), Timeless(u), Homeless(m), 0, id);
    TablesSound(env, u, Homeless(m) - {id}, 0);
  }

  lemma SwapAlike(m: Book, i: int, j: int)
    requires 0 <= i < |m.vRandom| && 0 <= j < |m.vRandom|
    requires m.vRandom[i] in m.mapInfo && m.vRandom[j] in m.mapInfo
    ensures
      var t := SwapRandom(m, i, j);
      t == m.(mapInfo := t.mapInfo, vRandom := t.vRandom) && Alike(Timeless(m).mapInfo, Timeless(t).mapInfo)
  {
    hide Timeless;
  }

  // ---------------------------------------------------------------- an honest stream

  /** The stream was written from the consistent manager `s`. */
  ghost predicate Honest(env: Env, st: Stream, s: Book, newIds: seq<int>, triedIds: seq<int>) {
    Consistent(env, s) && Describes(st, s, newIds, triedIds)
  }

  /** `m` holds the first `n` new and the first `k` tried entries of the stream, numbered in order. */
  ghost predicate Holding(st: Stream, m: Book, n: int, k: int) {
    && 0 <= n <= |st.newInfos| && 0 <= k <= |st.triedInfos|
    && m.nKey == st.nKey && m.nIdCount == n + k && m.mapInfo.Keys == Below(n + k)
    && (forall i :: 0 <= i < n ==> Stored(m.mapInfo[i]) == st.newInfos[i] && !m.mapInfo[i].fInTried)
    && (forall i :: n <= i < n + k ==> Stored(m.mapInfo[i]) == st.triedInfos[i - n] && m.mapInfo[i].fInTried)
  }

  ghost predicate NewRead(env: Env, st: Stream, m: Book, n: int) {
    && Inv(env, m, Below(n), 0) && Holding(st, m, n, 0)
    && m.vvNew == map[] && m.vvTried == map[] && m.nNew == n && m.nTried == 0
  }

  lemma HonestNew(env: Env, st: Stream, s: Book, newIds: seq<int>, triedIds: seq<int>, i: int)
    requires Honest(env, st, s, newIds, triedIds) && 0 <= i < |newIds|
    ensures newIds[i] in s.mapInfo && !s.mapInfo[newIds[i]].fInTried
    ensures st.newInfos[i] == Stored(s.mapInfo[newIds[i]]) && st.newInfos[i].nLastSuccess >= 0
    ensures s.mapInfo[newIds[i]].Net() in s.mapAddr && s.mapAddr[s.mapInfo[newIds[i]].Net()] == newIds[i]
    ensures st.newInfos[i].address.service.net == s.mapInfo[newIds[i]].Net()
  {
    assert newIds[i] in NewIds(s.mapInfo);
    assert EntryOk(s.mapInfo[newIds[i]], newIds[i], s.vvNew, {});
  }

  lemma HonestTried(env: Env, st: Stream, s: Book, newIds: seq<int>, triedIds: seq<int>, i: int)
    requires Honest(env, st, s, newIds, triedIds) && 0 <= i < |triedIds|
    ensures triedIds[i] in s.mapInfo && s.mapInfo[triedIds[i]].fInTried
    ensures st.triedInfos[i] == Stored(s.mapInfo[triedIds[i]]) && st.triedInfos[i].nLastSuccess > 0
    ensures s.mapInfo[triedIds[i]].Net() in s.mapAddr && s.mapAddr[s.mapInfo[triedIds[i]].Net()] == triedIds[i]
    ensures st.triedInfos[i].address.service.net == s.mapInfo[triedIds[i]].Net()
    ensures var sl := TriedSlot(env, s.nKey, s.mapInfo[triedIds[i]]); sl in s.vvTried && s.vvTried[sl] == triedIds[i]
  {
    assert triedIds[i] in TriedIds(s.mapInfo);
    assert EntryOk(s.mapInfo[triedIds[i]], triedIds[i], s.vvNew, {});
  }

  /** A known address is that of a loaded entry. */
  lemma HeldAddress(st: Stream, m: Book, n: int, k: int, net: NetAddr)
    requires Holding(st, m, n, k) && AddrsIndexed(m) && net in m.mapAddr
    ensures 0 <= n <= |st.newInfos| && 0 <= k <= |st.triedInfos|
    ensures
      var i := m.mapAddr[net];
      0 <= i < n + k && net == (if i < n then st.newInfos[i] else st.triedInfos[i - n]).address.service.net
  {
    var i := m.mapAddr[net];
    assert i in Below(n + k);
    assert Stored(m.mapInfo[i]).address.service.net == m.mapInfo[i].Net();
  }

  lemma HonestLists(env: Env, st: Stream, s: Book, newIds: seq<int>, triedIds: seq<int>)
    requires Honest(env, st, s, newIds, triedIds)
    ensures |newIds| == |st.newInfos| && |triedIds| == |st.triedInfos|
    ensures forall i, j :: 0 <= i < j < |newIds| ==> newIds[i] != newIds[j]
    ensures forall i, j :: 0 <= i < j < |triedIds| ==> triedIds[i] != triedIds[j]
  {
  }

  /** No loaded entry has the address of the next one. */
  lemma NextIsUnknown(env: Env, st: Stream, s: Book, newIds: seq<int>, triedIds: seq<int>, m: Book, n: int, k: int,
                      net: NetAddr)
    requires Honest(env, st, s, newIds, triedIds) && Holding(st, m, n, k) && AddrsIndexed(m)
    requires k == 0 || n == |newIds|
    requires if n < |newIds| then net == st.newInfos[n].address.service.net
             else k < |triedIds| && net == st.triedInfos[k].address.service.net
    ensures net !in m.mapAddr
  {
    hide Honest, Holding, AddrsIndexed, Stored;
    HonestLists(env, st, s, newIds, triedIds);
    if net in m.mapAddr {
      HeldAddress(st, m, n, k, net);
      var i := m.mapAddr[net];
      if n < |newIds| {
        HonestNew(env, st, s, newIds, triedIds, n);
      } else {
        HonestTried(env, st, s, newIds, triedIds, k);
      }
      if i < n {
        HonestNew(env, st, s, newIds, triedIds, i);
      } else {
        HonestTried(env, st, s, newIds, triedIds, i - n);
      }
      assert false;
    }
  }

  lemma HoldingNext(st: Stream, m: Book, n: int, k: int, info: AddrInfo)
    requires Holding(st, m, n, k)
    requires if info.fInTried then k < |st.triedInfos| && Stored(info) == st.triedInfos[k]
             else k == 0 && n < |st.newInfos| && Stored(info) == st.newInfos[n]
    ensures if info.fInTried then Holding(st, Insert(m, info), n, k + 1) else Holding(st, Insert(m, info), n + 1, k)
  {
    assert Below(n + k) + {n + k} == Below(n + k + 1);
  }

  lemma NewReadNext(env: Env, st: Stream, s: Book, newIds: seq<int>, triedIds: seq<int>, m: Book, n: int)
    requires Honest(env, st, s, newIds, triedIds) && NewRead(env, st, m, n) && n < |newIds|
    ensures
      var t := Insert(m, Loaded(st.newInfos[n]));
      NewRead(env, st, t.(nNew := t.nNew + 1), n + 1)
  {
    AddrsKnown(env, m, Below(n));
    hide Inv, AddrsIndexed, Honest;
    NextIsUnknown(env, st, s, newIds, triedIds, m, n, 0, st.newInfos[n].address.service.net);
    HonestNew(env, st, s, newIds, triedIds, n);
    HoldingNext(st, m, n, 0, Loaded(st.newInfos[n]));
    hide Holding;
    InsertKeeps(env, m, Below(n), Loaded(st.newInfos[n]));
    assert Below(n) + {n} == Below(n + 1);
  }

  lemma AddrsKnown(env: Env, m: Book, limbo: set<int>)
    requires Inv(env, m, limbo, 0)
    ensures AddrsIndexed(m)
  {
  }

  ghost predicate TriedRead(env: Env, st: Stream, m: Book, n: int, k: int) {
    && Inv(env, m, Below(n), 0) && Holding(st, m, n, k) && n == |st.newInfos|
    && m.vvNew == map[] && m.nNew == n && m.nTried == k
  }

  lemma TriedReadNext(env: Env, st: Stream, s: Book, newIds: seq<int>, triedIds: seq<int>, m: Book, n: int, k: int)
    requires Honest(env, st, s, newIds, triedIds) && TriedRead(env, st, m, n, k) && k < |triedIds|
    ensures TriedSlot(env, m.nKey, Loaded(st.triedInfos[k])) !in m.vvTried
    ensures TriedRead(env, st, LoadTried(env, m, st.triedInfos[k]), n, k + 1)
  {
    SlotIsFree(env, st, s, newIds, triedIds, m, n, k);
    AddrsKnown(env, m, Below(n));
    hide Inv, AddrsIndexed;
    HonestTried(env, st, s, newIds, triedIds, k);
    NextIsUnknown(env, st, s, newIds, triedIds, m, n, k, st.triedInfos[k].address.service.net);
    hide Honest;
    HoldingNext(st, m, n, k, Loaded(st.triedInfos[k]).(fInTried := true));
    LoadTriedKeeps(env, m, Below(n), st.triedInfos[k]);
    var t := Insert(m, Loaded(st.triedInfos[k]).(fInTried := true));
    HoldingSame(st, t, LoadTried(env, m, st.triedInfos[k]), n, k + 1);
  }

  lemma HoldingSame(st: Stream, m: Book, t: Book, n: int, k: int)
    requires Holding(st, m, n, k) && t.nKey == m.nKey && t.nIdCount == m.nIdCount && t.mapInfo == m.mapInfo
    ensures Holding(st, t, n, k)
  {
  }

  lemma SlotIsFree(env: Env, st: Stream, s: Book, newIds: seq<int>, triedIds: seq<int>, m: Book, n: int, k: int)
    requires Honest(env, st, s, newIds, triedIds) && TriedRead(env, st, m, n, k) && k < |triedIds|
    ensures TriedSlot(env, m.nKey, Loaded(st.triedInfos[k])) !in m.vvTried
  {
    hide Inv, Honest, Holding;
    HonestCounts(env, st, s, newIds, triedIds);
    HoldingKey(st, m, n, k);
    var sl := TriedSlot(env, m.nKey, Loaded(st.triedInfos[k]));
    HonestTried(env, st, s, newIds, triedIds, k);
    if sl in m.vvTried {
      var id := m.vvTried[sl];
      TriedPlace(env, m, Below(n), sl);
      HoldingRange(st, m, n, k, id);
      HoldsTried(st, m, n, k, id - n);
      HonestTried(env, st, s, newIds, triedIds, id - n);
      HonestDistinct(env, st, s, newIds, triedIds, id - n, k);
      assert false;
    }
  }

  lemma HoldingRange(st: Stream, m: Book, n: int, k: int, id: int)
    requires Holding(st, m, n, k) && id in TriedIds(m.mapInfo)
    ensures n <= id < n + k
  {
  }

  lemma HonestDistinct(env: Env, st: Stream, s: Book, newIds: seq<int>, triedIds: seq<int>, i: int, j: int)
    requires Honest(env, st, s, newIds, triedIds) && 0 <= i < j < |triedIds|
    ensures triedIds[i] != triedIds[j] && st.nKey == s.nKey
  {
  }

  // ---------------------------------------------------------------- the positions in the new table

  /** One index of a bucket's list is read. */
  function LoadRef(env: Env, m: Book, usable: bool, nNew: int, bucket: int, nIndex: int): Book
    requires forall i :: 0 <= i < nNew ==> i in m.mapInfo
  {
    if 0 <= nIndex < nNew then
      var info := m.mapInfo[nIndex];
      var pos := env.position(m.nKey, true, bucket, info.address.service);
      if usable && (bucket, pos) !in m.vvNew && info.nRefCount < NEW_BUCKETS_PER_ADDRESS
      then EnterNew(m, nIndex, (bucket, pos)) else m
    else m
  }

  /** Every slot of `tm` holds the number of the entry `ts` has there. */
  ghost predicate Renamed(tm: Table, ts: Table, newIds: seq<int>) {
    && tm.Keys <= ts.Keys
    && forall sl :: sl in tm ==> 0 <= tm[sl] < |newIds| && newIds[tm[sl]] == ts[sl]
  }

  lemma SlotsAlign(tm: Table, ts: Table, newIds: seq<int>, i: int, sl: Slot)
    requires Renamed(tm, ts, newIds) && sl in tm && 0 <= i < |newIds| && ts[sl] == newIds[i]
    requires forall i, j :: 0 <= i < j < |newIds| ==> newIds[i] != newIds[j]
    ensures sl in SlotsOf(tm, i)
  {
  }

  lemma FewerSlots(tm: Table, ts: Table, newIds: seq<int>, i: int, sl: Slot)
    requires Renamed(tm, ts, newIds) && 0 <= i < |newIds|
    requires sl in ts && sl !in tm && ts[sl] == newIds[i]
    ensures |SlotsOf(tm, i)| < |SlotsOf(ts, newIds[i])|
  {
    assert sl in SlotsOf(ts, newIds[i]);
    assert SlotsOf(tm, i) <= SlotsOf(ts, newIds[i]) - {sl};
    SubsetSize(SlotsOf(tm, i), SlotsOf(ts, newIds[i]) - {sl});
  }

  /** The slots in `done` are filled as in `s`; the entries in `limbo` have none of theirs yet. */
  ghost predicate RefsRead(env: Env, st: Stream, s: Book, newIds: seq<int>, m: Book, limbo: set<int>, done: set<Slot>) {
    && Inv(env, m, limbo, 0) && limbo <= Below(|newIds|) && Holding(st, m, |newIds|, |st.triedInfos|)
    && m.nNew == |newIds| && m.nTried == |st.triedInfos| && m.vvNew.Keys == done && Renamed(m.vvNew, s.vvNew, newIds)
  }

  lemma RefsReadNext(env: Env, st: Stream, s: Book, newIds: seq<int>, triedIds: seq<int>, m: Book,
                     limbo: set<int>, done: set<Slot>, sl: Slot, nIndex: int)
    requires Honest(env, st, s, newIds, triedIds) && RefsRead(env, st, s, newIds, m, limbo, done)
    requires sl in s.vvNew && sl !in done && 0 <= nIndex < |newIds| && newIds[nIndex] == s.vvNew[sl]
    ensures nIndex in m.mapInfo
    ensures sl.1 == env.position(m.nKey, true, sl.0, m.mapInfo[nIndex].address.service)
    ensures m.mapInfo[nIndex].nRefCount < NEW_BUCKETS_PER_ADDRESS
    ensures RefsRead(env, st, s, newIds, EnterNew(m, nIndex, sl), limbo - {nIndex}, done + {sl})
  {
    hide Inv, Renamed;
    RoomLeft(env, st, s, newIds, triedIds, m, limbo, done, sl, nIndex);
    HoldsSame(env, st, s, newIds, triedIds, m, nIndex);
    SlotPlace(env, s, sl);
    hide Honest;
    EnterNewKeeps(env, m, limbo, 0, nIndex, sl);
    HoldingEnter(st, m, |newIds|, |st.triedInfos|, nIndex, sl);
    RenamedEnter(m.vvNew, s.vvNew, newIds, sl, nIndex);
    hide Holding;
  }

  lemma RenamedEnter(tm: Table, ts: Table, newIds: seq<int>, sl: Slot, i: int)
    requires Renamed(tm, ts, newIds) && sl in ts && 0 <= i < |newIds| && newIds[i] == ts[sl]
    ensures Renamed(tm[sl := i], ts, newIds) && tm[sl := i].Keys == tm.Keys + {sl}
  {
  }

  lemma SlotPlace(env: Env, s: Book, sl: Slot)
    requires Consistent(env, s) && sl in s.vvNew
    ensures s.vvNew[sl] in s.mapInfo && 0 <= sl.0 < NEW_BUCKET_COUNT
    ensures sl.1 == env.position(s.nKey, true, sl.0, s.mapInfo[s.vvNew[sl]].address.service)
  {
  }

  lemma HoldsSame(env: Env, st: Stream, s: Book, newIds: seq<int>, triedIds: seq<int>, m: Book, i: int)
    requires Honest(env, st, s, newIds, triedIds) && Holding(st, m, |newIds|, |st.triedInfos|) && 0 <= i < |newIds|
    ensures i in m.mapInfo && !m.mapInfo[i].fInTried && m.nKey == s.nKey && newIds[i] in s.mapInfo
    ensures Stored(m.mapInfo[i]) == Stored(s.mapInfo[newIds[i]])
  {
  }

  lemma HoldingEnter(st: Stream, m: Book, n: int, k: int, id: int, sl: Slot)
    requires Holding(st, m, n, k) && id in m.mapInfo
    ensures Holding(st, EnterNew(m, id, sl), n, k)
  {
  }

  lemma RoomLeft(env: Env, st: Stream, s: Book, newIds: seq<int>, triedIds: seq<int>, m: Book,
                 limbo: set<int>, done: set<Slot>, sl: Slot, nIndex: int)
    requires Honest(env, st, s, newIds, triedIds) && RefsRead(env, st, s, newIds, m, limbo, done)
    requires sl in s.vvNew && sl !in done && 0 <= nIndex < |newIds| && newIds[nIndex] == s.vvNew[sl]
    ensures nIndex in m.mapInfo && m.mapInfo[nIndex].nRefCount < NEW_BUCKETS_PER_ADDRESS
  {
    hide Inv, SlotsOf;
    HoldsSame(env, st, s, newIds, triedIds, m, nIndex);
    EntryFacts(env, m, limbo, nIndex);
    EntryFacts(env, s, {}, newIds[nIndex]);
    FewerSlots(m.vvNew, s.vvNew, newIds, nIndex, sl);
  }

  lemma EntryFacts(env: Env, s: Book, limbo: set<int>, id: int)
    requires Inv(env, s, limbo, 0) && id in s.mapInfo
    ensures s.mapInfo[id].nRefCount == |SlotsOf(s.vvNew, id)| <= NEW_BUCKETS_PER_ADDRESS
    ensures id in limbo || s.mapInfo[id].fInTried ==> s.mapInfo[id].nRefCount == 0
    ensures !s.mapInfo[id].fInTried && id !in limbo ==> s.mapInfo[id].nRefCount >= 1
  {
  }

  /** When every slot is filled, no entry is left in limbo. */
  lemma NothingLost(env: Env, st: Stream, s: Book, newIds: seq<int>, triedIds: seq<int>, m: Book, limbo: set<int>)
    requires Honest(env, st, s, newIds, triedIds) && RefsRead(env, st, s, newIds, m, limbo, s.vvNew.Keys)
    ensures limbo == {}
  {
    forall i | i in limbo
      ensures false
    {
      HonestNew(env, st, s, newIds, triedIds, i);
      assert i in Below(m.nIdCount);
      EntryFacts(env, s, {}, newIds[i]);
      EntryFacts(env, m, limbo, i);
      hide Inv, Holding;
      var sl :| sl in SlotsOf(s.vvNew, newIds[i]);
      SlotsAlign(m.vvNew, s.vvNew, newIds, i, sl);
    }
  }

  // ---------------------------------------------------------------- the table sizes

  lemma {:induction false} RowSize(slots: set<Slot>, b: int, n: nat)
    requires forall sl :: sl in slots ==> sl.0 == b && 0 <= sl.1 < n
    ensures |slots| <= n
  {
    if n == 0 {
      assert slots == {};
    } else {
      RowSize(slots - {(b, n - 1)}, b, n - 1);
    }
  }

  lemma {:induction false} GridSize(slots: set<Slot>, n: nat)
    requires forall sl :: sl in slots ==> 0 <= sl.0 < n && 0 <= sl.1 < BUCKET_SIZE
    ensures |slots| <= n * BUCKET_SIZE
  {
    if n == 0 {
      assert slots == {};
    } else {
      var row := set sl | sl in slots && sl.0 == n - 1;
      RowSize(row, n - 1, BUCKET_SIZE);
      GridSize(slots - row, n - 1);
      assert slots == (slots - row) + row;
    }
  }

  lemma SlotsRemain(t: Table, sl: Slot, id: int, j: int)
    requires sl in t && t[sl] == id && j != id
    ensures SlotsOf(t - {sl}, j) == SlotsOf(t, j)
    ensures |t - {sl}| == |t| - 1
  {
  }

  lemma {:induction false} IdsFit(t: Table, ids: set<int>)
    requires forall id :: id in ids ==> SlotsOf(t, id) != {}
    ensures |ids| <= |t|
    decreases |ids|
  {
    if ids != {} {
      var id := Pick(ids);
      var rest := ids - {id};
      var sl := Pick(SlotsOf(t, id));
      forall j | j in rest
        ensures SlotsOf(t - {sl}, j) != {}
      {
        SlotsRemain(t, sl, id, j);
      }
      SlotsRemain(t, sl, id, id + 1);
      hide SlotsOf;
      IdsFit(t - {sl}, rest);
    }
  }

  /** The counts of a consistent manager pass the limits checked on reading. */
  lemma CountsFit(env: Env, s: Book)
    requires Consistent(env, s)
    ensures 0 <= s.nNew <= NEW_BUCKET_COUNT * BUCKET_SIZE && 0 <= s.nTried <= TRIED_BUCKET_COUNT * BUCKET_SIZE
  {
    forall id | id in NewIds(s.mapInfo)
      ensures SlotsOf(s.vvNew, id) != {}
    {
      EntryFacts(env, s, {}, id);
    }
    IdsFit(s.vvNew, NewIds(s.mapInfo));
    GridSize(s.vvNew.Keys, NEW_BUCKET_COUNT);
    forall id | id in TriedIds(s.mapInfo)
      ensures SlotsOf(s.vvTried, id) != {}
    {
      assert TriedSlot(env, s.nKey, s.mapInfo[id]) in SlotsOf(s.vvTried, id);
    }
    IdsFit(s.vvTried, TriedIds(s.mapInfo));
    GridSize(s.vvTried.Keys, TRIED_BUCKET_COUNT);
  }

  // ---------------------------------------------------------------- reading a stream

  method ReadNew(env: Env, st: Stream, usable: bool, ghost s: Book, ghost newIds: seq<int>, ghost triedIds: seq<int>)
      returns (m: Book)
    requires 0 <= st.nNew <= |st.newInfos|
    ensures Placed(m) && Sound(env, m, st.nNew) && m.nKey == st.nKey && m.nIdCount == st.nNew
    ensures forall i :: 0 <= i < st.nNew ==> i in m.mapInfo
    ensures usable && Honest(env, st, s, newIds, triedIds) ==> NewRead(env, st, m, |newIds|)
  {
    hide Inv, Describes, Honest, NewRead, Placed, Sound;
    ghost var honest := usable && Honest(env, st, s, newIds, triedIds);
    m := Ops.Fresh(st.nKey);
    StartRead(env, st, m);
    if honest { HonestCounts(env, st, s, newIds, triedIds); }
    for n := 0 to st.nNew
      invariant Placed(m) && Sound(env, m, n) && m.nKey == st.nKey && m.nIdCount == n
      invariant forall i :: 0 <= i < n ==> i in m.mapInfo
      invariant honest ==> NewRead(env, st, m, n)
    {
      m := ReadNewOne(env, st, usable, m, n, honest, s, newIds, triedIds);
    }
  }

  method ReadNewOne(env: Env, st: Stream, usable: bool, mIn: Book, n: nat, ghost honest: bool, ghost s: Book,
                    ghost newIds: seq<int>, ghost triedIds: seq<int>)
      returns (m: Book)
    requires n < st.nNew <= |st.newInfos| && Placed(mIn) && mIn.nKey == st.nKey && mIn.nIdCount == n
    requires Sound(env, mIn, n)
    requires forall i :: 0 <= i < n ==> i in mIn.mapInfo
    requires honest ==> usable && Honest(env, st, s, newIds, triedIds) && NewRead(env, st, mIn, n)
    ensures Placed(m) && Sound(env, m, n + 1) && m.nKey == st.nKey && m.nIdCount == n + 1
    ensures forall i :: 0 <= i < n + 1 ==> i in m.mapInfo
    ensures honest ==> NewRead(env, st, m, n + 1)
  {
    hide Inv, Describes, NewRead, Sound;
    m := mIn;
    var info := Loaded(st.newInfos[n]);
    InsertPlaced(m, info);
    InsertSound(env, m, info);
    if honest { HonestCounts(env, st, s, newIds, triedIds); NewReadNext(env, st, s, newIds, triedIds, m, n); }
    m := Insert(m, info);
    m := m.(nNew := m.nNew + 1);
    if !usable {
      var sl := NewSlot(env, m.nKey, info, info.source);
      if sl !in m.vvNew {
        EnterNewSound(env, m, n, sl, n + 1);
        m := EnterNew(m, n, sl);
      }
    }
  }

  lemma StartRead(env: Env, st: Stream, m: Book)
    requires m == Ops.Fresh(st.nKey)
    ensures Placed(m) && Sound(env, m, 0) && NewRead(env, st, m, 0)
  {
  }

  lemma HonestCounts(env: Env, st: Stream, s: Book, newIds: seq<int>, triedIds: seq<int>)
    requires Honest(env, st, s, newIds, triedIds)
    ensures st.nNew == |newIds| == |st.newInfos| && st.nTried == |triedIds| == |st.triedInfos|
    ensures st.nKey == s.nKey && st.nNew == s.nNew && st.nTried == s.nTried
  {
  }

  method ReadTried(env: Env, st: Stream, mIn: Book, ghost s: Book, ghost newIds: seq<int>, ghost triedIds: seq<int>)
      returns (m: Book)
    requires 0 <= st.nTried <= |st.triedInfos| && 0 <= st.nNew
    requires Placed(mIn) && mIn.nKey == st.nKey && forall i :: 0 <= i < st.nNew ==> i in mIn.mapInfo
    requires Sound(env, mIn, st.nNew)
    ensures Placed(m) && Sound(env, m, st.nNew) && m.nKey == st.nKey
    ensures forall i :: 0 <= i < st.nNew ==> i in m.mapInfo
    ensures Honest(env, st, s, newIds, triedIds) && NewRead(env, st, mIn, |newIds|) ==>
              TriedRead(env, st, m, |newIds|, |triedIds|)
  {
    ghost var honest := Honest(env, st, s, newIds, triedIds) && NewRead(env, st, mIn, |newIds|);
    m := mIn;
    var nLost := 0;
    if honest {
      HonestCounts(env, st, s, newIds, triedIds);
      NoneTried(env, st, m, |newIds|);
    }
    hide Inv, Describes, Holding, Honest, NewRead, TriedRead, Placed, Sound;
    for n := 0 to st.nTried
      invariant Placed(m) && Sound(env, m, st.nNew) && m.nKey == st.nKey
      invariant forall i :: 0 <= i < st.nNew ==> i in m.mapInfo
      invariant m.nTried == mIn.nTried + n - nLost
      invariant honest ==> TriedRead(env, st, m, |newIds|, n) && nLost == 0
    {
      var lost;
      m, lost := ReadTriedOne(env, st, m, n, honest, s, newIds, triedIds);
      nLost := nLost + if lost then 1 else 0;
    }
  }

  method ReadTriedOne(env: Env, st: Stream, mIn: Book, n: nat, ghost honest: bool, ghost s: Book,
                      ghost newIds: seq<int>, ghost triedIds: seq<int>)
      returns (m: Book, lost: bool)
    requires n < st.nTried <= |st.triedInfos| && 0 <= st.nNew && Placed(mIn) && mIn.nKey == st.nKey
    requires Sound(env, mIn, st.nNew) && forall i :: 0 <= i < st.nNew ==> i in mIn.mapInfo
    requires honest ==> Honest(env, st, s, newIds, triedIds) && TriedRead(env, st, mIn, |newIds|, n)
    ensures Placed(m) && Sound(env, m, st.nNew) && m.nKey == st.nKey
    ensures forall i :: 0 <= i < st.nNew ==> i in m.mapInfo
    ensures m.nTried == mIn.nTried + 1 - (if lost then 1 else 0)
    ensures honest ==> TriedRead(env, st, m, |newIds|, n + 1) && !lost
  {
    hide Inv, Describes, Holding, TriedRead, Sound;
    m := mIn;
    var info := Loaded(st.triedInfos[n]);
    InsertPlaced(m, info.(fInTried := true));
    if honest {
      HonestCounts(env, st, s, newIds, triedIds);
      TriedReadNext(env, st, s, newIds, triedIds, m, |newIds|, n);
    }
    lost := TriedSlot(env, m.nKey, info) in m.vvTried;
    if !lost {
      LoadTriedSound(env, m, st.triedInfos[n], st.nNew);
    }
    m := LoadTried(env, m, st.triedInfos[n]);
  }

  lemma NoneTried(env: Env, st: Stream, m: Book, k: nat)
    requires k == |st.newInfos| && NewRead(env, st, m, k)
    ensures TriedRead(env, st, m, k, 0)
  {
  }

  /** The slots read when `n` indices of bucket `b` have been. */
  ghost function Done(t: Table, b: int, n: int): set<Slot> {
    var ps := Positions(t, b, BUCKET_SIZE);
    set sl | sl in t && (sl.0 < b || (sl.0 == b && exists k :: 0 <= k < n && k < |ps| && ps[k] == sl.1))
  }

  lemma DoneNext(t: Table, b: int, n: nat)
    requires n < |Positions(t, b, BUCKET_SIZE)|
    ensures
      var sl := (b, Positions(t, b, BUCKET_SIZE)[n]);
      sl in t && sl !in Done(t, b, n) && Done(t, b, n + 1) == Done(t, b, n) + {sl}
  {
  }

  lemma DoneBucket(t: Table, b: int)
    requires forall sl :: sl in t ==> 0 <= sl.1 < BUCKET_SIZE
    ensures Done(t, b, |Positions(t, b, BUCKET_SIZE)|) == Done(t, b + 1, 0)
  {
  }

  lemma DoneEnds(t: Table)
    requires forall sl :: sl in t ==> 0 <= sl.0 < NEW_BUCKET_COUNT
    ensures Done(t, 0, 0) == {} && Done(t, NEW_BUCKET_COUNT, 0) == t.Keys
  {
  }

  method ReadBucket(env: Env, st: Stream, mIn: Book, usable: bool, bucket: int, ghost honest: bool,
                    ghost s: Book, ghost newIds: seq<int>, ghost triedIds: seq<int>, ghost limboIn: set<int>)
      returns (m: Book, ghost limbo: set<int>)
    requires 0 <= bucket < |st.buckets| && Placed(mIn) && forall i :: 0 <= i < st.nNew ==> i in mIn.mapInfo
    requires Sound(env, mIn, st.nNew) && (usable ==> bucket < NEW_BUCKET_COUNT)
    requires honest ==> usable && bucket < NEW_BUCKET_COUNT && Honest(env, st, s, newIds, triedIds)
    requires honest ==> RefsRead(env, st, s, newIds, mIn, limboIn, Done(s.vvNew, bucket, 0))
    ensures Placed(m) && Sound(env, m, st.nNew) && forall i :: 0 <= i < st.nNew ==> i in m.mapInfo
    ensures honest ==> RefsRead(env, st, s, newIds, m, limbo, Done(s.vvNew, bucket + 1, 0))
  {
    hide Inv, Describes, Honest, RefsRead, Done, Placed, Positions, Sound;
    ghost var ps := Positions(s.vvNew, bucket, BUCKET_SIZE);
    m, limbo := mIn, limboIn;
    var list := st.buckets[bucket];
    if honest {
      HonestBucket(env, st, s, newIds, triedIds, bucket);
    }
    for n := 0 to |list|
      invariant Placed(m) && Sound(env, m, st.nNew) && forall i :: 0 <= i < st.nNew ==> i in m.mapInfo
      invariant honest ==> RefsRead(env, st, s, newIds, m, limbo, Done(s.vvNew, bucket, n))
    {
      if honest {
        DoneNext(s.vvNew, bucket, n);
        RefStep(env, st, s, newIds, triedIds, m, limbo, Done(s.vvNew, bucket, n), (bucket, ps[n]), list[n]);
        limbo := limbo - {list[n]};
      }
      LoadRefPlaced(env, m, usable, st.nNew, bucket, list[n]);
      LoadRefSound(env, m, usable, st.nNew, bucket, list[n]);
      hide LoadRef;
      m := LoadRef(env, m, usable, st.nNew, bucket, list[n]);
    }
    if honest {
      DoneBucket(s.vvNew, bucket);
    }
  }

  lemma HonestBucket(env: Env, st: Stream, s: Book, newIds: seq<int>, triedIds: seq<int>, b: int)
    requires Honest(env, st, s, newIds, triedIds) && 0 <= b < NEW_BUCKET_COUNT
    ensures |st.buckets| == NEW_BUCKET_COUNT && BucketDescribed(st.buckets[b], s.vvNew, b, newIds)
    ensures st.nNew == |newIds|
    ensures forall sl :: sl in s.vvNew ==> 0 <= sl.0 < NEW_BUCKET_COUNT && 0 <= sl.1 < BUCKET_SIZE
  {
  }

  lemma RefStep(env: Env, st: Stream, s: Book, newIds: seq<int>, triedIds: seq<int>, m: Book,
                limbo: set<int>, done: set<Slot>, sl: Slot, nIndex: int)
    requires Honest(env, st, s, newIds, triedIds) && RefsRead(env, st, s, newIds, m, limbo, done)
    requires sl in s.vvNew && sl !in done && 0 <= nIndex < |newIds| && newIds[nIndex] == s.vvNew[sl]
    requires st.nNew == |newIds| && forall i :: 0 <= i < st.nNew ==> i in m.mapInfo
    ensures RefsRead(env, st, s, newIds, LoadRef(env, m, true, st.nNew, sl.0, nIndex), limbo - {nIndex}, done + {sl})
  {
    hide Honest, RefsRead;
    RefsReadNext(env, st, s, newIds, triedIds, m, limbo, done, sl, nIndex);
    FreeSlot(env, st, s, newIds, m, limbo, done, sl);
  }

  lemma FreeSlot(env: Env, st: Stream, s: Book, newIds: seq<int>, m: Book, limbo: set<int>, done: set<Slot>, sl: Slot)
    requires RefsRead(env, st, s, newIds, m, limbo, done) && sl !in done
    ensures sl !in m.vvNew
  {
  }

  lemma LoadRefPlaced(env: Env, m: Book, usable: bool, nNew: int, bucket: int, nIndex: int)
    requires Placed(m) && forall i :: 0 <= i < nNew ==> i in m.mapInfo
    ensures Placed(LoadRef(env, m, usable, nNew, bucket, nIndex))
    ensures LoadRef(env, m, usable, nNew, bucket, nIndex).mapInfo.Keys == m.mapInfo.Keys
  {
  }

  lemma LoadRefSound(env: Env, m: Book, usable: bool, nNew: int, bucket: int, nIndex: int)
    requires Placed(m) && Sound(env, m, nNew) && forall i :: 0 <= i < nNew ==> i in m.mapInfo
    requires 0 <= bucket && (usable ==> bucket < NEW_BUCKET_COUNT)
    ensures Sound(env, LoadRef(env, m, usable, nNew, bucket, nIndex), nNew)
  {
    hide Placed, Sound;
    if 0 <= nIndex < nNew {
      SoundNew(env, m, nNew);
      var info := m.mapInfo[nIndex];
      var sl := (bucket, env.position(m.nKey, true, bucket, info.address.service));
      if usable && sl !in m.vvNew && info.nRefCount < NEW_BUCKETS_PER_ADDRESS {
        EnterNewSound(env, m, nIndex, sl, nNew);
      }
    }
  }

  /** Entries that ended up with no reference are deleted. */
  method Prune(mIn: Book, ghost env: Env) returns (m: Book)
    requires Placed(mIn) && Sound(env, mIn, 0)
    ensures Placed(m) && Sound(env, m, 0)
    ensures (forall id :: id in mIn.mapInfo ==> mIn.mapInfo[id].fInTried || mIn.mapInfo[id].nRefCount != 0) ==> m == mIn
    ensures forall id :: id in m.mapInfo ==> m.mapInfo[id].fInTried || m.mapInfo[id].nRefCount != 0
  {
    hide Sound;
    m := mIn;
    for id := 0 to mIn.nIdCount
      invariant Placed(m) && Sound(env, m, 0)
      invariant m.mapInfo.Keys <= mIn.mapInfo.Keys && m.nIdCount == mIn.nIdCount
      invariant forall id :: id in m.mapInfo ==>
                  m.mapInfo[id].fInTried == mIn.mapInfo[id].fInTried
                  && m.mapInfo[id].nRefCount == mIn.mapInfo[id].nRefCount
      invariant forall j :: j in m.mapInfo && j < id ==> m.mapInfo[j].fInTried || m.mapInfo[j].nRefCount != 0
      invariant (forall id :: id in mIn.mapInfo ==> mIn.mapInfo[id].fInTried || mIn.mapInfo[id].nRefCount != 0) ==>
                m == mIn
    {
      if id in m.mapInfo && !m.mapInfo[id].fInTried && m.mapInfo[id].nRefCount == 0 {
        DeletePlaced(m, id);
        DeleteFrame(m, id);
        DeleteSound(env, m, id);
        hide Delete, Placed;
        m := Delete(m, id);
      }
    }
  }

  lemma DeletePlaced(m: Book, id: int)
    requires Placed(m) && id in m.mapInfo
    ensures CanDelete(m, id) && Placed(Delete(m, id))
  {
    hide Placed, SwapRandom;
    SwapLastPlaced(m, id);
    PopPlaced(SwapRandom(m, m.mapInfo[id].nRandomPos, |m.vRandom| - 1), id);
  }

  lemma SwapLastPlaced(m: Book, id: int)
    requires Placed(m) && id in m.mapInfo
    ensures CanDelete(m, id)
    ensures
      var t := SwapRandom(m, m.mapInfo[id].nRandomPos, |m.vRandom| - 1);
      Placed(t) && id in t.mapInfo && t.vRandom[|t.vRandom| - 1] == id
  {
    SwapPlaced(m, m.mapInfo[id].nRandomPos, |m.vRandom| - 1);
  }

  lemma SwapPlaced(m: Book, i: int, j: int)
    requires Placed(m) && 0 <= i < |m.vRandom| && 0 <= j < |m.vRandom|
    ensures Placed(SwapRandom(m, i, j))
  {
  }

  lemma PopPlaced(t: Book, id: int)
    requires Placed(t) && id in t.mapInfo && |t.vRandom| > 0 && t.vRandom[|t.vRandom| - 1] == id
    ensures Placed(t.(vRandom := t.vRandom[..|t.vRandom| - 1], mapAddr := t.mapAddr - {t.mapInfo[id].Net()},
                      mapInfo := t.mapInfo - {id}, nNew := t.nNew - 1))
  {
  }

  /** `m` has the same addresses as `s` in every slot of both tables, with the same stored statistics
      and reference counts, and nothing else. */
  ghost predicate Reloaded(env: Env, s: Book, m: Book) {
    && Consistent(env, m) && m.nKey == s.nKey && m.nNew == s.nNew && m.nTried == s.nTried
    && m.vvNew.Keys == s.vvNew.Keys && m.vvTried.Keys == s.vvTried.Keys
    && (forall sl :: sl in s.vvNew ==>
          SameStored(s, m, s.vvNew[sl], m.vvNew[sl]))
    && (forall sl :: sl in s.vvTried ==> SameStored(s, m, s.vvTried[sl], m.vvTried[sl]))
  }

  ghost predicate SameStored(s: Book, m: Book, id: int, id': int) {
    && id in s.mapInfo && id' in m.mapInfo
    && var (was, now) := (s.mapInfo[id], m.mapInfo[id']);
       && was.address == now.address && was.source == now.source
       && was.nLastSuccess == now.nLastSuccess && was.nAttempts == now.nAttempts
       && was.fInTried == now.fInTried && was.nRefCount == now.nRefCount
  }

  lemma TriedReloaded(env: Env, st: Stream, s: Book, newIds: seq<int>, triedIds: seq<int>, m: Book, sl: Slot)
    requires Honest(env, st, s, newIds, triedIds) && Consistent(env, m) && Holding(st, m, |newIds|, |triedIds|)
    requires sl in s.vvTried
    ensures sl in m.vvTried && SameStored(s, m, s.vvTried[sl], m.vvTried[sl])
  {
    hide Inv, Honest, Holding;
    var id := s.vvTried[sl];
    HonestConsistent(env, st, s, newIds, triedIds);
    TriedPlace(env, s, {}, sl);
    var j := TriedNumber(env, st, s, newIds, triedIds, id);
    HonestTried(env, st, s, newIds, triedIds, j);
    HoldsTried(st, m, |newIds|, |triedIds|, j);
    TriedHeld(env, m, |newIds| + j);
    EntryFacts(env, s, {}, id);
    EntryFacts(env, m, {}, |newIds| + j);
  }

  lemma HonestConsistent(env: Env, st: Stream, s: Book, newIds: seq<int>, triedIds: seq<int>)
    requires Honest(env, st, s, newIds, triedIds)
    ensures Consistent(env, s)
  {
  }

  lemma HoldsTried(st: Stream, m: Book, n: int, k: int, j: int)
    requires Holding(st, m, n, k) && 0 <= j < k
    ensures n + j in m.mapInfo && m.mapInfo[n + j].fInTried && m.nKey == st.nKey
    ensures 0 <= j < |st.triedInfos| && Stored(m.mapInfo[n + j]) == st.triedInfos[j]
  {
  }

  lemma TriedNumber(env: Env, st: Stream, s: Book, newIds: seq<int>, triedIds: seq<int>, id: int) returns (j: int)
    requires Honest(env, st, s, newIds, triedIds) && id in TriedIds(s.mapInfo)
    ensures 0 <= j < |triedIds| && triedIds[j] == id && st.nKey == s.nKey
  {
    ListHas(triedIds, TriedIds(s.mapInfo), id);
    j :| 0 <= j < |triedIds| && triedIds[j] == id;
  }

  lemma TriedOnly(env: Env, st: Stream, s: Book, newIds: seq<int>, triedIds: seq<int>, m: Book, sl: Slot)
    requires Honest(env, st, s, newIds, triedIds) && Consistent(env, m) && Holding(st, m, |newIds|, |triedIds|)
    requires sl in m.vvTried
    ensures sl in s.vvTried
  {
    HonestCounts(env, st, s, newIds, triedIds);
    hide Inv;
    var id' := m.vvTried[sl];
    TriedPlace(env, m, {}, sl);
    assert id' in Below(m.nIdCount);
    HonestTried(env, st, s, newIds, triedIds, id' - |newIds|);
  }

  lemma TriedPlace(env: Env, s: Book, limbo: set<int>, sl: Slot)
    requires Inv(env, s, limbo, 0) && sl in s.vvTried
    ensures s.vvTried[sl] in TriedIds(s.mapInfo) && sl == TriedSlot(env, s.nKey, s.mapInfo[s.vvTried[sl]])
  {
  }

  lemma TriedHeld(env: Env, s: Book, id: int)
    requires Consistent(env, s) && id in s.mapInfo && s.mapInfo[id].fInTried
    ensures var sl := TriedSlot(env, s.nKey, s.mapInfo[id]); sl in s.vvTried && s.vvTried[sl] == id
  {
  }

  lemma NewReloaded(env: Env, st: Stream, s: Book, newIds: seq<int>, triedIds: seq<int>, m: Book, sl: Slot)
    requires Honest(env, st, s, newIds, triedIds) && Holding(st, m, |newIds|, |st.triedInfos|)
    requires Renamed(m.vvNew, s.vvNew, newIds) && sl in m.vvNew
    requires Consistent(env, m) && m.vvNew.Keys == s.vvNew.Keys
    ensures SameStored(s, m, s.vvNew[sl], m.vvNew[sl])
  {
    hide Inv, Describes;
    var i := m.vvNew[sl];
    HonestLists(env, st, s, newIds, triedIds);
    HonestNew(env, st, s, newIds, triedIds, i);
    SameSlots(m.vvNew, s.vvNew, newIds, i);
    EntryFacts(env, s, {}, newIds[i]);
    EntryFacts(env, m, {}, i);
  }

  /** Renaming keeps the slots of every entry. */
  lemma SameSlots(tm: Table, ts: Table, newIds: seq<int>, i: int)
    requires Renamed(tm, ts, newIds) && tm.Keys == ts.Keys && 0 <= i < |newIds|
    requires forall i, j :: 0 <= i < j < |newIds| ==> newIds[i] != newIds[j]
    ensures SlotsOf(tm, i) == SlotsOf(ts, newIds[i])
  {
    forall sl | sl in SlotsOf(ts, newIds[i])
      ensures sl in SlotsOf(tm, i)
    {
      SlotsAlign(tm, ts, newIds, i, sl);
    }
  }

  lemma AllReloaded(env: Env, st: Stream, s: Book, newIds: seq<int>, triedIds: seq<int>, m: Book, limbo: set<int>)
    requires Honest(env, st, s, newIds, triedIds) && RefsRead(env, st, s, newIds, m, limbo, s.vvNew.Keys)
    ensures Reloaded(env, s, m)
    ensures forall id :: id in m.mapInfo ==> m.mapInfo[id].fInTried || m.mapInfo[id].nRefCount != 0
  {
    NothingLost(env, st, s, newIds, triedIds, m, limbo);
    HonestCounts(env, st, s, newIds, triedIds);
    hide Inv, Describes;
    SlotsReloaded(env, st, s, newIds, triedIds, m);
    forall id | id in m.mapInfo
      ensures m.mapInfo[id].fInTried || m.mapInfo[id].nRefCount != 0
    {
      EntryFacts(env, m, {}, id);
    }
  }

  lemma SlotsReloaded(env: Env, st: Stream, s: Book, newIds: seq<int>, triedIds: seq<int>, m: Book)
    requires Honest(env, st, s, newIds, triedIds) && RefsRead(env, st, s, newIds, m, {}, s.vvNew.Keys)
    ensures Reloaded(env, s, m)
  {
    hide Inv, Renamed, Holding, Honest, SameStored;
    HonestCounts(env, st, s, newIds, triedIds);
    HoldingKey(st, m, |newIds|, |st.triedInfos|);
    forall sl | sl in s.vvNew
      ensures SameStored(s, m, s.vvNew[sl], m.vvNew[sl])
    {
      NewReloaded(env, st, s, newIds, triedIds, m, sl);
    }
    forall sl | sl in s.vvTried
      ensures sl in m.vvTried && SameStored(s, m, s.vvTried[sl], m.vvTried[sl])
    {
      TriedReloaded(env, st, s, newIds, triedIds, m, sl);
    }
    forall sl | sl in m.vvTried
      ensures sl in s.vvTried
    {
      TriedOnly(env, st, s, newIds, triedIds, m, sl);
    }
    assert m.vvTried.Keys == s.vvTried.Keys;
  }

  lemma HoldingKey(st: Stream, m: Book, n: int, k: int)
    requires Holding(st, m, n, k)
    ensures m.nKey == st.nKey && 0 <= n && 0 <= k
  {
  }

  lemma StartRefs(env: Env, st: Stream, s: Book, newIds: seq<int>, m: Book)
    requires TriedRead(env, st, m, |newIds|, |st.triedInfos|)
    ensures RefsRead(env, st, s, newIds, m, Below(|newIds|), {})
  {
  }

  method ReadRefs(env: Env, st: Stream, mIn: Book, usable: bool, nUBuckets: int, ghost honest: bool,
                  ghost s: Book, ghost newIds: seq<int>, ghost triedIds: seq<int>)
      returns (m: Book, ghost limbo: set<int>)
    requires nUBuckets <= |st.buckets| && Placed(mIn) && forall i :: 0 <= i < st.nNew ==> i in mIn.mapInfo
    requires Sound(env, mIn, st.nNew) && (usable ==> nUBuckets == NEW_BUCKET_COUNT)
    requires honest ==> usable && nUBuckets == NEW_BUCKET_COUNT && Honest(env, st, s, newIds, triedIds)
    requires honest ==> TriedRead(env, st, mIn, |newIds|, |triedIds|)
    ensures Placed(m) && Sound(env, m, st.nNew)
    ensures honest ==> RefsRead(env, st, s, newIds, m, limbo, s.vvNew.Keys)
  {
    m, limbo := mIn, Below(|newIds|);
    hide Inv, Honest, Done, Placed, Holding, RefsRead, Describes, TriedRead, Sound;
    if honest {
      HonestBucket(env, st, s, newIds, triedIds, 0);
      HonestCounts(env, st, s, newIds, triedIds);
      DoneEnds(s.vvNew);
      StartRefs(env, st, s, newIds, m);
    }
    var bucket := 0;
    while bucket < nUBuckets
      invariant 0 <= bucket && (nUBuckets >= 0 ==> bucket <= nUBuckets)
      invariant Placed(m) && Sound(env, m, st.nNew) && forall i :: 0 <= i < st.nNew ==> i in m.mapInfo
      invariant honest ==> RefsRead(env, st, s, newIds, m, limbo, Done(s.vvNew, bucket, 0))
    {
      m, limbo := ReadBucket(env, st, m, usable, bucket, honest, s, newIds, triedIds, limbo);
      bucket := bucket + 1;
    }
  }

  /** The number of buckets in the stream; all versions but the first write it with bit 30 inverted. */
  function Buckets(st: Stream): int {
    if st.nVersion != 0 then FlipBit30(st.nUBuckets) else st.nUBuckets
  }

  predicate EndsEarly(st: Stream) {
    |st.newInfos| < st.nNew || |st.triedInfos| < st.nTried || |st.buckets| < Buckets(st)
  }

  /** Reads a stream into a newly constructed manager. Whatever the stream says, the random order, both tables, the
      reference counts and the totals are right, and every entry is in a table. From the stream of a consistent manager
      `s` nothing is lost: every slot of both tables gets back its address. */
  method Unserialize(env: Env, st: Stream, ghost s: Book, ghost newIds: seq<int>, ghost triedIds: seq<int>)
      returns (r: Option<Book>)
    requires 0 <= st.nNew && 0 <= st.nTried
    ensures r.None? <==> st.nKeySize != 32 || st.nNew > 65536 || st.nTried > 16384 || EndsEarly(st)
    ensures r.Some? ==> Placed(r.value) && Sound(env, r.value, 0)
    ensures r.Some? ==> forall id :: id in r.value.mapInfo ==>
                          r.value.mapInfo[id].fInTried || r.value.mapInfo[id].nRefCount != 0
    ensures Honest(env, st, s, newIds, triedIds) ==> r.Some? && Reloaded(env, s, r.value)
  {
    ghost var honest := Honest(env, st, s, newIds, triedIds);
    if st.nKeySize != 32 {
      return None;
    }
    var nUBuckets := Buckets(st);
    if honest {
      CountsFit(env, s);
    }
    if st.nNew > NEW_BUCKET_COUNT * BUCKET_SIZE || st.nTried > TRIED_BUCKET_COUNT * BUCKET_SIZE {
      return None;
    }
    if EndsEarly(st) {
      return None;
    }
    var usable := st.nVersion == 1 && nUBuckets == NEW_BUCKET_COUNT;
    assert honest ==> usable;
    hide Honest, Placed, Sound;
    var m := ReadNew(env, st, usable, s, newIds, triedIds);
    m := ReadTried(env, st, m, s, newIds, triedIds);
    ghost var limbo;
    m, limbo := ReadRefs(env, st, m, usable, nUBuckets, honest, s, newIds, triedIds);
    if honest {
      AllReloaded(env, st, s, newIds, triedIds, m, limbo);
    }
    hide Reloaded;
    SoundFewer(env, m, st.nNew);
    m := Prune(m, env);
    return Some(m);
  }

  /** Saving and loading: for every consistent manager. */
  method SaveAndLoad(env: Env, s: Book) returns (m: Option<Book>)
    requires Consistent(env, s)
    ensures m.Some? && Reloaded(env, s, m.value)
  {
    CountsFit(env, s);
    hide Inv;
    var st := Serialize(env, s);
    ghost var newIds, triedIds :| Describes(st, s, newIds, triedIds);
    m := Unserialize(env, st, s, newIds, triedIds);
  }
}
