/** The address manager's tables as values: what every operation does to them, and the invariant
    that the debug check spells out (src/addrman.h, src/addrman.cpp). */
module AddrBook {

  const TRIED_BUCKET_COUNT := 256
  const NEW_BUCKET_COUNT := 1024
  const BUCKET_SIZE := 64
  const NEW_BUCKETS_PER_ADDRESS := 8

  type TriedBucket = b: int | 0 <= b < 256
  type NewBucket = b: int | 0 <= b < 1024
  type Position = p: int | 0 <= p < 64

  type Key = nat

  /** The service bits that are set. */
  type ServiceFlags = set<nat>

  datatype NetAddr = NetAddr(ip: nat)

  datatype Service = Service(net: NetAddr, port: nat)

  datatype Address = Address(service: Service, nServices: ServiceFlags, nTime: int)

  /** The keyed hashes that place an address, and the routability test, left uninterpreted. */
  datatype Env = Env(
    triedBucket: (Key, Service) -> TriedBucket,
    newBucket: (Key, Service, NetAddr) -> NewBucket,
    position: (Key, bool, int, Service) -> Position,
    routable: Service -> bool)

  datatype AddrInfo = AddrInfo(
    address: Address,
    source: NetAddr,
    nLastTry: int,
    nLastCountAttempt: int,
    nLastSuccess: int,
    nAttempts: int,
    nRefCount: int,
    fInTried: bool,
    nRandomPos: int)
  {
    function Net(): NetAddr { address.service.net }

    predicate IsTerrible(nNow: int) {
      if nLastTry != 0 && nLastTry >= nNow - 60 then false
      else if address.nTime > nNow + 10 * 60 then true
      else if address.nTime == 0 || nNow - address.nTime > 30 * 24 * 60 * 60 then true
      else if nLastSuccess == 0 && nAttempts >= 3 then true
      else nNow - nLastSuccess > 7 * 24 * 60 * 60 && nAttempts >= 10
    }
  }

  function NewInfo(address: Address, source: NetAddr): AddrInfo {
    AddrInfo(address, source, 0, 0, 0, 0, 0, false, -1)
  }

  /** A bucket and a position in it. */
  type Slot = (int, int)

  type Table = map<Slot, int>

  datatype Book = Book(
    nKey: Key,
    nIdCount: int,
    mapInfo: map<int, AddrInfo>,
    mapAddr: map<NetAddr, int>,
    vRandom: seq<int>,
    nTried: int,
    vvTried: Table,
    nNew: int,
    vvNew: Table,
    nLastGood: int)

  // ---------------------------------------------------------------- invariant

  ghost function SlotsOf(t: Table, id: int): set<Slot> {
    set s | s in t && t[s] == id
  }

  ghost function TriedIds(info: map<int, AddrInfo>): set<int> {
    set id | id in info && info[id].fInTried
  }

  ghost function NewIds(info: map<int, AddrInfo>): set<int> {
    set id | id in info && !info[id].fInTried
  }

  function TriedSlot(env: Env, key: Key, info: AddrInfo): Slot {
    var b := env.triedBucket(key, info.address.service);
    (b, env.position(key, false, b, info.address.service))
  }

  function NewSlot(env: Env, key: Key, info: AddrInfo, source: NetAddr): Slot {
    var b := env.newBucket(key, info.address.service, source);
    (b, env.position(key, true, b, info.address.service))
  }

  ghost predicate IdsIndexed(s: Book) {
    0 <= s.nIdCount &&
    forall id :: id in s.mapInfo ==>
      && 0 <= id < s.nIdCount
      && s.mapInfo[id].Net() in s.mapAddr && s.mapAddr[s.mapInfo[id].Net()] == id
      && 0 <= s.mapInfo[id].nRandomPos < |s.vRandom| && s.vRandom[s.mapInfo[id].nRandomPos] == id
  }

  ghost predicate AddrsIndexed(s: Book) {
    forall a :: a in s.mapAddr ==> s.mapAddr[a] in s.mapInfo && s.mapInfo[s.mapAddr[a]].Net() == a
  }

  ghost predicate OrderIndexed(s: Book) {
    forall i :: 0 <= i < |s.vRandom| ==> s.vRandom[i] in s.mapInfo && s.mapInfo[s.vRandom[i]].nRandomPos == i
  }

  /** The three indexes are mutually inverse. */
  ghost predicate Indexed(s: Book) {
    IdsIndexed(s) && AddrsIndexed(s) && OrderIndexed(s)
  }

  ghost predicate NewTableOk(env: Env, s: Book) {
    forall sl :: sl in s.vvNew ==>
      && s.vvNew[sl] in s.mapInfo && !s.mapInfo[s.vvNew[sl]].fInTried
      && 0 <= sl.0 < NEW_BUCKET_COUNT
      && sl.1 == env.position(s.nKey, true, sl.0, s.mapInfo[s.vvNew[sl]].address.service)
  }

  ghost predicate TriedTableOk(env: Env, s: Book) {
    && (forall sl :: sl in s.vvTried ==>
          && s.vvTried[sl] in s.mapInfo && s.mapInfo[s.vvTried[sl]].fInTried
          && sl == TriedSlot(env, s.nKey, s.mapInfo[s.vvTried[sl]]))
    && (forall id :: id in s.mapInfo && s.mapInfo[id].fInTried ==>
          var sl := TriedSlot(env, s.nKey, s.mapInfo[id]);
          sl in s.vvTried && s.vvTried[sl] == id)
  }

  ghost predicate TimesOk(info: AddrInfo) {
    && info.nLastTry >= 0 && info.nLastSuccess >= 0
    && (info.fInTried ==> info.nLastSuccess != 0)
  }

  /** Each entry's own fields; an entry in `limbo` is in neither table. */
  ghost predicate EntryOk(info: AddrInfo, id: int, t: Table, limbo: set<int>) {
    && info.nRefCount == |SlotsOf(t, id)|
    && TimesOk(info)
    && (info.fInTried || id in limbo ==> info.nRefCount == 0)
    && (info.fInTried || id in limbo || 1 <= info.nRefCount <= NEW_BUCKETS_PER_ADDRESS)
    && (id in limbo ==> !info.fInTried)
  }

  ghost predicate EntriesOk(s: Book, limbo: set<int>) {
    && limbo <= s.mapInfo.Keys
    && forall id :: id in s.mapInfo ==> EntryOk(s.mapInfo[id], id, s.vvNew, limbo)
  }

  ghost predicate Counted(s: Book, owed: int) {
    && s.nTried == |TriedIds(s.mapInfo)|
    && s.nNew + owed == |NewIds(s.mapInfo)|
  }

  ghost predicate TablesOk(env: Env, s: Book, limbo: set<int>, owed: int) {
    NewTableOk(env, s) && TriedTableOk(env, s) && EntriesOk(s, limbo) && Counted(s, owed)
  }

  /** Consistency in the middle of an operation: `limbo` holds entries taken out of both tables,
      `owed` of which nNew does not count at the moment. */
  ghost predicate Inv(env: Env, s: Book, limbo: set<int>, owed: int) {
    Indexed(s) && TablesOk(env, s, limbo, owed)
  }

  ghost predicate Consistent(env: Env, s: Book) {
    Inv(env, s, {}, 0)
  }

  // ---------------------------------------------------------------- operations

  function SetInfo(s: Book, id: int, info: AddrInfo): Book {
    s.(mapInfo := s.mapInfo[id := info])
  }

  function Create(s: Book, address: Address, source: NetAddr): Book {
    s.(nIdCount := s.nIdCount + 1,
       mapInfo := s.mapInfo[s.nIdCount := NewInfo(address, source).(nRandomPos := |s.vRandom|)],
       mapAddr := s.mapAddr[address.service.net := s.nIdCount],
       vRandom := s.vRandom + [s.nIdCount])
  }

  function SwapRandom(s: Book, i: int, j: int): Book
    requires 0 <= i < |s.vRandom| && 0 <= j < |s.vRandom|
    requires s.vRandom[i] in s.mapInfo && s.vRandom[j] in s.mapInfo
  {
    if i == j then s else
      var id1, id2 := s.vRandom[i], s.vRandom[j];
      var m1 := s.mapInfo[id1 := s.mapInfo[id1].(nRandomPos := j)];
      s.(mapInfo := m1[id2 := m1[id2].(nRandomPos := i)], vRandom := s.vRandom[i := id2][j := id1])
  }

  ghost predicate CanDelete(s: Book, id: int) {
    && id in s.mapInfo && 0 <= s.mapInfo[id].nRandomPos < |s.vRandom|
    && s.vRandom[s.mapInfo[id].nRandomPos] in s.mapInfo && s.vRandom[|s.vRandom| - 1] in s.mapInfo
  }

  function Delete(s: Book, id: int): Book
    requires CanDelete(s, id)
  {
    var t := SwapRandom(s, s.mapInfo[id].nRandomPos, |s.vRandom| - 1);
    t.(vRandom := t.vRandom[..|t.vRandom| - 1],
       mapAddr := t.mapAddr - {t.mapInfo[id].Net()},
       mapInfo := t.mapInfo - {id},
       nNew := t.nNew - 1)
  }

  /** The entry in the slot loses it. */
  function DropSlot(s: Book, sl: Slot): Book
    requires sl in s.vvNew && s.vvNew[sl] in s.mapInfo
  {
    var id := s.vvNew[sl];
    SetInfo(s, id, s.mapInfo[id].(nRefCount := s.mapInfo[id].nRefCount - 1)).(vvNew := s.vvNew - {sl})
  }

  ghost predicate CanClear(s: Book, sl: Slot) {
    sl in s.vvNew ==> s.vvNew[sl] in s.mapInfo && CanDelete(DropSlot(s, sl), s.vvNew[sl])
  }

  function ClearNew(s: Book, sl: Slot): Book
    requires CanClear(s, sl)
  {
    if sl !in s.vvNew then s else
      var t := DropSlot(s, sl);
      if t.mapInfo[s.vvNew[sl]].nRefCount == 0 then Delete(t, s.vvNew[sl]) else t
  }

  // ---------------------------------------------------------------- the operations keep the invariant

  /** Two maps whose entries differ in nothing that the tables depend on. */
  ghost predicate Alike(a: map<int, AddrInfo>, b: map<int, AddrInfo>) {
    && a.Keys == b.Keys
    && forall id :: id in a ==> a[id].address.service == b[id].address.service
                                && a[id].fInTried == b[id].fInTried && a[id].nRefCount == b[id].nRefCount
                                && (TimesOk(a[id]) ==> TimesOk(b[id]))
  }

  lemma SameMarks(a: map<int, AddrInfo>, b: map<int, AddrInfo>)
    requires a.Keys == b.Keys
    requires forall id :: id in a ==> a[id].fInTried == b[id].fInTried
    ensures TriedIds(a) == TriedIds(b) && NewIds(a) == NewIds(b)
  {
    forall id
      ensures id in TriedIds(a) <==> id in TriedIds(b)
      ensures id in NewIds(a) <==> id in NewIds(b)
    {
      assert id in a <==> id in b;
    }
  }

  lemma AlikeKeeps(env: Env, s: Book, t: Book, limbo: set<int>, owed: int)
    requires TablesOk(env, s, limbo, owed) && Alike(s.mapInfo, t.mapInfo)
    requires t.nKey == s.nKey && t.vvNew == s.vvNew && t.vvTried == s.vvTried
    requires t.nNew == s.nNew && t.nTried == s.nTried
    ensures TablesOk(env, t, limbo, owed)
  {
    SameMarks(s.mapInfo, t.mapInfo);
    assert forall id :: id in t.mapInfo ==> id in s.mapInfo;
    forall id | id in t.mapInfo
      ensures EntryOk(t.mapInfo[id], id, t.vvNew, limbo)
    {
      assert EntryOk(s.mapInfo[id], id, s.vvNew, limbo);
    }
  }

  lemma SwapRandomKeeps(env: Env, s: Book, limbo: set<int>, owed: int, i: int, j: int)
    requires Inv(env, s, limbo, owed)
    requires 0 <= i < |s.vRandom| && 0 <= j < |s.vRandom|
    ensures s.vRandom[i] in s.mapInfo && s.vRandom[j] in s.mapInfo
    ensures Inv(env, SwapRandom(s, i, j), limbo, owed)
  {
    hide TablesOk, Indexed;
    SwapRandomAlike(s, i, j);
    AlikeKeeps(env, s, SwapRandom(s, i, j), limbo, owed);
    SwapRandomIndexed(s, i, j);
  }

  lemma SwapRandomAlike(s: Book, i: int, j: int)
    requires Indexed(s)
    requires 0 <= i < |s.vRandom| && 0 <= j < |s.vRandom|
    ensures s.vRandom[i] in s.mapInfo && s.vRandom[j] in s.mapInfo
    ensures Alike(s.mapInfo, SwapRandom(s, i, j).mapInfo)
  {
  }

  lemma SwapRandomIndexed(s: Book, i: int, j: int)
    requires Indexed(s)
    requires 0 <= i < |s.vRandom| && 0 <= j < |s.vRandom|
    ensures Indexed(SwapRandom(s, i, j))
  {
  }

  lemma CreateIndexed(s: Book, address: Address, source: NetAddr)
    requires Indexed(s) && address.service.net !in s.mapAddr
    ensures s.nIdCount !in s.mapInfo
    ensures Indexed(Create(s, address, source))
  {
  }

  /** Two maps whose entries have the same addresses and random positions. */
  ghost predicate SamePlaces(a: map<int, AddrInfo>, b: map<int, AddrInfo>) {
    && a.Keys == b.Keys
    && forall id :: id in a ==> a[id].address.service == b[id].address.service && a[id].nRandomPos == b[id].nRandomPos
  }

  lemma SamePlacesIndexed(s: Book, t: Book)
    requires Indexed(s) && SamePlaces(s.mapInfo, t.mapInfo)
    requires t.mapAddr == s.mapAddr && t.vRandom == s.vRandom && t.nIdCount == s.nIdCount
    ensures Indexed(t)
  {
    forall id | id in s.mapInfo
      ensures id in t.mapInfo && t.mapInfo[id].Net() == s.mapInfo[id].Net()
      ensures t.mapInfo[id].nRandomPos == s.mapInfo[id].nRandomPos
    {
    }
    assert AddrsIndexed(t) by {
      forall a | a in t.mapAddr
        ensures t.mapAddr[a] in t.mapInfo && t.mapInfo[t.mapAddr[a]].Net() == a
      {
        assert s.mapAddr[a] in s.mapInfo;
      }
    }
    assert OrderIndexed(t) by {
      forall i | 0 <= i < |t.vRandom|
        ensures t.vRandom[i] in t.mapInfo && t.mapInfo[t.vRandom[i]].nRandomPos == i
      {
        assert s.vRandom[i] in s.mapInfo;
      }
    }
  }

  lemma CreateKeeps(env: Env, s: Book, address: Address, source: NetAddr)
    requires Inv(env, s, {}, 0) && address.service.net !in s.mapAddr
    ensures Inv(env, Create(s, address, source), {s.nIdCount}, 1)
  {
    hide IdsIndexed, AddrsIndexed, OrderIndexed;
    CreateIndexed(s, address, source);
    CreateTables(env, s, Create(s, address, source), NewInfo(address, source).(nRandomPos := |s.vRandom|));
  }

  lemma CreateTables(env: Env, s: Book, t: Book, info: AddrInfo)
    requires TablesOk(env, s, {}, 0) && s.nIdCount !in s.mapInfo
    requires TimesOk(info) && !info.fInTried && info.nRefCount == 0
    requires t == s.(nIdCount := t.nIdCount, mapInfo := s.mapInfo[s.nIdCount := info], mapAddr := t.mapAddr, vRandom := t.vRandom)
    ensures TablesOk(env, t, {s.nIdCount}, 1)
  {
    var id := s.nIdCount;
    assert Counted(t, 1) by {
      hide NewTableOk, TriedTableOk, EntriesOk;
      assert TriedIds(t.mapInfo) == TriedIds(s.mapInfo);
      assert NewIds(t.mapInfo) == NewIds(s.mapInfo) + {id};
    }
    assert EntriesOk(t, {id}) by {
      hide TriedTableOk, Counted;
      assert SlotsOf(s.vvNew, id) == {};
      forall j | j in t.mapInfo
        ensures EntryOk(t.mapInfo[j], j, t.vvNew, {id})
      {
        assert j != id ==> EntryOk(s.mapInfo[j], j, s.vvNew, {});
      }
    }
    assert NewTableOk(env, t) by { hide TriedTableOk, EntriesOk, Counted; }
    assert TriedTableOk(env, t) by { hide NewTableOk, EntriesOk, Counted; }
  }

  lemma DeleteIndexed(s: Book, id: int)
    requires Indexed(s) && id in s.mapInfo
    ensures CanDelete(s, id) && Indexed(Delete(s, id))
  {
    hide Indexed;
    var pos, last := s.mapInfo[id].nRandomPos, |s.vRandom| - 1;
    SwapToLast(s, id);
    SwapRandomIndexed(s, pos, last);
    PopIndexed(SwapRandom(s, pos, last), id);
  }

  lemma SwapToLast(s: Book, id: int)
    requires Indexed(s) && id in s.mapInfo
    ensures CanDelete(s, id)
    ensures
      var t := SwapRandom(s, s.mapInfo[id].nRandomPos, |s.vRandom| - 1);
      t.vRandom[|t.vRandom| - 1] == id && id in t.mapInfo
  {
  }

  lemma PopIndexed(t: Book, id: int)
    requires Indexed(t) && id in t.mapInfo && t.vRandom[|t.vRandom| - 1] == id
    ensures Indexed(t.(vRandom := t.vRandom[..|t.vRandom| - 1], mapAddr := t.mapAddr - {t.mapInfo[id].Net()},
                       mapInfo := t.mapInfo - {id}, nNew := t.nNew - 1))
  {
  }

  lemma DeleteKeeps(env: Env, s: Book, limbo: set<int>, owed: int, id: int)
    requires Inv(env, s, limbo, owed) && id in limbo
    ensures CanDelete(s, id)
    ensures Inv(env, Delete(s, id), limbo - {id}, owed)
  {
    hide NewTableOk, TriedTableOk, Indexed, Counted;
    DeleteIndexed(s, id);
    var t := SwapRandom(s, s.mapInfo[id].nRandomPos, |s.vRandom| - 1);
    SwapRandomKeeps(env, s, limbo, owed, s.mapInfo[id].nRandomPos, |s.vRandom| - 1);
    DropEntryTables(env, t, Delete(s, id), limbo, owed, id);
  }

  /** Removing an entry that no table mentions. */
  lemma DropEntryTables(env: Env, t: Book, u: Book, limbo: set<int>, owed: int, id: int)
    requires TablesOk(env, t, limbo, owed) && id in limbo
    requires u == t.(vRandom := u.vRandom, mapAddr := u.mapAddr, mapInfo := t.mapInfo - {id}, nNew := t.nNew - 1)
    ensures TablesOk(env, u, limbo - {id}, owed)
  {
    assert TriedIds(u.mapInfo) == TriedIds(t.mapInfo);
    assert id in NewIds(t.mapInfo) && NewIds(u.mapInfo) == NewIds(t.mapInfo) - {id};
    assert EntryOk(t.mapInfo[id], id, t.vvNew, limbo);
    forall sl | sl in u.vvNew
      ensures u.vvNew[sl] in u.mapInfo
    {
      assert u.vvNew[sl] == id ==> sl in SlotsOf(t.vvNew, id);
    }
    forall j | j in u.mapInfo
      ensures EntryOk(u.mapInfo[j], j, u.vvNew, limbo - {id})
    {
      assert EntryOk(t.mapInfo[j], j, t.vvNew, limbo);
    }
  }

  lemma DropSlotKeeps(env: Env, s: Book, limbo: set<int>, owed: int, sl: Slot)
    requires Inv(env, s, limbo, owed) && sl in s.vvNew
    ensures
      var id, t := s.vvNew[sl], DropSlot(s, sl);
      && id !in limbo && !t.mapInfo[id].fInTried && t.mapInfo[id].nRefCount >= 0
      && Inv(env, t, if t.mapInfo[id].nRefCount == 0 then limbo + {id} else limbo, owed)
  {
    hide IdsIndexed, AddrsIndexed, OrderIndexed;
    assert s.vvNew[sl] in s.mapInfo;
    SamePlacesIndexed(s, DropSlot(s, sl));
    DropSlotTables(env, s, limbo, owed, sl);
  }

  lemma DropSlotTables(env: Env, s: Book, limbo: set<int>, owed: int, sl: Slot)
    requires TablesOk(env, s, limbo, owed) && sl in s.vvNew
    ensures
      var id, t := s.vvNew[sl], DropSlot(s, sl);
      && id !in limbo && !t.mapInfo[id].fInTried && t.mapInfo[id].nRefCount >= 0
      && TablesOk(env, t, if t.mapInfo[id].nRefCount == 0 then limbo + {id} else limbo, owed)
  {
    var id, t := s.vvNew[sl], DropSlot(s, sl);
    SameMarks(s.mapInfo, t.mapInfo);
    assert EntryOk(s.mapInfo[id], id, s.vvNew, limbo);
    DropSlotEntries(env, s, limbo, sl);
    DropSlotNew(env, s, sl);
    DropSlotTried(env, s, sl);
    hide EntriesOk, NewTableOk, TriedTableOk;
  }

  lemma DropSlotEntries(env: Env, s: Book, limbo: set<int>, sl: Slot)
    requires EntriesOk(s, limbo) && NewTableOk(env, s) && sl in s.vvNew
    ensures
      var id, t := s.vvNew[sl], DropSlot(s, sl);
      && id !in limbo && t.mapInfo[id].nRefCount >= 0
      && EntriesOk(t, if t.mapInfo[id].nRefCount == 0 then limbo + {id} else limbo)
  {
    var id, t := s.vvNew[sl], DropSlot(s, sl);
    assert EntryOk(s.mapInfo[id], id, s.vvNew, limbo);
    assert sl in SlotsOf(s.vvNew, id);
    assert SlotsOf(t.vvNew, id) == SlotsOf(s.vvNew, id) - {sl};
    var limbo' := if t.mapInfo[id].nRefCount == 0 then limbo + {id} else limbo;
    forall j | j in t.mapInfo
      ensures EntryOk(t.mapInfo[j], j, t.vvNew, limbo')
    {
      assert EntryOk(s.mapInfo[j], j, s.vvNew, limbo);
      assert j != id ==> SlotsOf(t.vvNew, j) == SlotsOf(s.vvNew, j);
    }
  }

  lemma DropSlotNew(env: Env, s: Book, sl: Slot)
    requires NewTableOk(env, s) && sl in s.vvNew
    ensures NewTableOk(env, DropSlot(s, sl))
  {
  }

  lemma DropSlotTried(env: Env, s: Book, sl: Slot)
    requires NewTableOk(env, s) && TriedTableOk(env, s) && sl in s.vvNew
    ensures TriedTableOk(env, DropSlot(s, sl))
  {
  }

  /** Two entries that differ at most in where vRandom holds them. */
  ghost predicate SameFacts(a: AddrInfo, b: AddrInfo) {
    a == b.(nRandomPos := a.nRandomPos)
  }

  lemma ClearNewKeeps(env: Env, s: Book, limbo: set<int>, owed: int, sl: Slot)
    requires Inv(env, s, limbo, owed)
    ensures CanClear(s, sl)
    ensures Inv(env, ClearNew(s, sl), limbo, owed)
    ensures sl !in ClearNew(s, sl).vvNew
    ensures sl in s.vvNew ==> s.vvNew[sl] !in limbo
    ensures forall j :: j in s.mapInfo && (sl in s.vvNew ==> j != s.vvNew[sl]) ==>
              j in ClearNew(s, sl).mapInfo && SameFacts(ClearNew(s, sl).mapInfo[j], s.mapInfo[j])
  {
    if sl in s.vvNew {
      var id, t := s.vvNew[sl], DropSlot(s, sl);
      DropSlotKeeps(env, s, limbo, owed, sl);
      hide TablesOk, Indexed;
      DeleteIndexed(t, id);
      DeleteFrame(t, id);
      if t.mapInfo[id].nRefCount == 0 {
        DeleteKeeps(env, t, limbo + {id}, owed, id);
        assert limbo + {id} - {id} == limbo;
      }
    }
  }

  lemma DeleteFrame(s: Book, id: int)
    requires CanDelete(s, id)
    ensures Delete(s, id).vvNew == s.vvNew && Delete(s, id).vvTried == s.vvTried
    ensures Delete(s, id).mapInfo.Keys == s.mapInfo.Keys - {id}
    ensures forall j :: j in s.mapInfo && j != id ==>
              j in Delete(s, id).mapInfo && SameFacts(Delete(s, id).mapInfo[j], s.mapInfo[j])
  {
  }

  // ---------------------------------------------------------------- moving to the tried table

  /** The entry gives up all its slots in the new table. */
  ghost function LeaveNew(s: Book, id: int): Book
    requires id in s.mapInfo
  {
    SetInfo(s, id, s.mapInfo[id].(nRefCount := s.mapInfo[id].nRefCount - |SlotsOf(s.vvNew, id)|))
      .(vvNew := s.vvNew - SlotsOf(s.vvNew, id), nNew := s.nNew - 1)
  }

  function LeaveTried(s: Book, sl: Slot): Book
    requires sl in s.vvTried && s.vvTried[sl] in s.mapInfo
  {
    var id := s.vvTried[sl];
    SetInfo(s, id, s.mapInfo[id].(fInTried := false)).(vvTried := s.vvTried - {sl}, nTried := s.nTried - 1)
  }

  function EnterNew(s: Book, id: int, sl: Slot): Book
    requires id in s.mapInfo
  {
    SetInfo(s, id, s.mapInfo[id].(nRefCount := s.mapInfo[id].nRefCount + 1)).(vvNew := s.vvNew[sl := id])
  }

  function EnterTried(s: Book, id: int, sl: Slot): Book
    requires id in s.mapInfo
  {
    SetInfo(s, id, s.mapInfo[id].(fInTried := true)).(vvTried := s.vvTried[sl := id], nTried := s.nTried + 1)
  }

  /** The tried entry in the slot goes back to the new table, replacing what is there. */
  ghost predicate CanEvict(env: Env, s: Book, sl: Slot) {
    sl in s.vvTried ==>
      && s.vvTried[sl] in s.mapInfo
      && var t, old' := LeaveTried(s, sl), s.mapInfo[s.vvTried[sl]];
         var ns := NewSlot(env, s.nKey, old', old'.source);
         CanClear(t, ns) && s.vvTried[sl] in ClearNew(t, ns).mapInfo
  }

  function Evict(env: Env, s: Book, sl: Slot): Book
    requires CanEvict(env, s, sl)
  {
    if sl !in s.vvTried then s else
      var id := s.vvTried[sl];
      var ns := NewSlot(env, s.nKey, s.mapInfo[id], s.mapInfo[id].source);
      var t := EnterNew(ClearNew(LeaveTried(s, sl), ns), id, ns);
      t.(nNew := t.nNew + 1)
  }

  ghost predicate CanMakeTried(env: Env, s: Book, id: int) {
    && id in s.mapInfo
    && var sl := TriedSlot(env, s.nKey, s.mapInfo[id]);
       CanEvict(env, LeaveNew(s, id), sl) && id in Evict(env, LeaveNew(s, id), sl).mapInfo
  }

  ghost function MakeTried(env: Env, s: Book, id: int): Book
    requires CanMakeTried(env, s, id)
  {
    var sl := TriedSlot(env, s.nKey, s.mapInfo[id]);
    EnterTried(Evict(env, LeaveNew(s, id), sl), id, sl)
  }

  lemma LeaveNewKeeps(env: Env, s: Book, id: int)
    requires Inv(env, s, {}, 0) && id in s.mapInfo && !s.mapInfo[id].fInTried
    ensures Inv(env, LeaveNew(s, id), {id}, 1)
  {
    var t := LeaveNew(s, id);
    assert Indexed(t) by {
      hide TablesOk, Indexed;
      SamePlacesIndexed(s, t);
    }
    assert TablesOk(env, t, {id}, 1) by {
      hide Indexed;
      LeaveNewTables(env, s, id);
    }
  }

  lemma LeaveNewTables(env: Env, s: Book, id: int)
    requires TablesOk(env, s, {}, 0) && id in s.mapInfo && !s.mapInfo[id].fInTried
    ensures TablesOk(env, LeaveNew(s, id), {id}, 1)
  {
    var t := LeaveNew(s, id);
    SameMarks(s.mapInfo, t.mapInfo);
    assert EntriesOk(t, {id}) by {
      hide NewTableOk, TriedTableOk, Counted;
      assert EntryOk(s.mapInfo[id], id, s.vvNew, {});
      assert SlotsOf(t.vvNew, id) == {};
      forall j | j in t.mapInfo
        ensures EntryOk(t.mapInfo[j], j, t.vvNew, {id})
      {
        assert EntryOk(s.mapInfo[j], j, s.vvNew, {});
        assert j != id ==> SlotsOf(t.vvNew, j) == SlotsOf(s.vvNew, j);
      }
    }
    assert NewTableOk(env, t) by { hide TriedTableOk, EntriesOk, Counted; }
    assert TriedTableOk(env, t) by { hide NewTableOk, EntriesOk, Counted; }
  }

  lemma LeaveTriedKeeps(env: Env, s: Book, limbo: set<int>, owed: int, sl: Slot)
    requires Inv(env, s, limbo, owed) && sl in s.vvTried
    ensures s.vvTried[sl] in s.mapInfo && s.vvTried[sl] !in limbo
    ensures Inv(env, LeaveTried(s, sl), limbo + {s.vvTried[sl]}, owed + 1)
  {
    var id := s.vvTried[sl];
    assert EntryOk(s.mapInfo[id], id, s.vvNew, limbo);
    var t := LeaveTried(s, sl);
    assert Indexed(t) by {
      hide TablesOk, Indexed;
      SamePlacesIndexed(s, t);
    }
    assert TablesOk(env, t, limbo + {id}, owed + 1) by {
      hide Indexed;
      LeaveTriedTables(env, s, limbo, owed, sl);
    }
  }

  lemma LeaveTriedTables(env: Env, s: Book, limbo: set<int>, owed: int, sl: Slot)
    requires TablesOk(env, s, limbo, owed) && sl in s.vvTried
    ensures TablesOk(env, LeaveTried(s, sl), limbo + {s.vvTried[sl]}, owed + 1)
  {
    var id, t := s.vvTried[sl], LeaveTried(s, sl);
    assert Counted(t, owed + 1) by {
      hide NewTableOk, TriedTableOk, EntriesOk;
      assert s.mapInfo[id].fInTried;
      assert TriedIds(t.mapInfo) == TriedIds(s.mapInfo) - {id};
      assert NewIds(t.mapInfo) == NewIds(s.mapInfo) + {id};
    }
    assert EntriesOk(t, limbo + {id}) by {
      hide NewTableOk, TriedTableOk, Counted;
      forall j | j in t.mapInfo
        ensures EntryOk(t.mapInfo[j], j, t.vvNew, limbo + {id})
      {
        assert EntryOk(s.mapInfo[j], j, s.vvNew, limbo);
      }
    }
    assert NewTableOk(env, t) by { hide TriedTableOk, EntriesOk, Counted; }
    assert TriedTableOk(env, t) by { hide NewTableOk, EntriesOk, Counted; }
  }

  lemma EnterNewKeeps(env: Env, s: Book, limbo: set<int>, owed: int, id: int, sl: Slot)
    requires Inv(env, s, limbo, owed) && id in s.mapInfo && sl !in s.vvNew
    requires !s.mapInfo[id].fInTried && s.mapInfo[id].nRefCount < NEW_BUCKETS_PER_ADDRESS
    requires 0 <= sl.0 < NEW_BUCKET_COUNT && sl.1 == env.position(s.nKey, true, sl.0, s.mapInfo[id].address.service)
    ensures Inv(env, EnterNew(s, id, sl), limbo - {id}, owed)
  {
    var t := EnterNew(s, id, sl);
    assert Indexed(t) by {
      hide TablesOk, Indexed;
      SamePlacesIndexed(s, t);
    }
    assert TablesOk(env, t, limbo - {id}, owed) by {
      hide Indexed;
      EnterNewTables(env, s, limbo, owed, id, sl);
    }
  }

  lemma SlotsOfInsert(t: Table, sl: Slot, id: int, j: int)
    requires sl !in t
    ensures SlotsOf(t[sl := id], j) == if j == id then SlotsOf(t, j) + {sl} else SlotsOf(t, j)
  {
  }

  lemma EnterEntry(info: AddrInfo, id: int, t: Table, sl: Slot, limbo: set<int>)
    requires EntryOk(info, id, t, limbo) && sl !in t
    requires !info.fInTried && info.nRefCount < NEW_BUCKETS_PER_ADDRESS
    ensures EntryOk(info.(nRefCount := info.nRefCount + 1), id, t[sl := id], limbo - {id})
  {
    SlotsOfInsert(t, sl, id, id);
    assert sl !in SlotsOf(t, id);
  }

  lemma EnterNewEntries(s: Book, limbo: set<int>, id: int, sl: Slot)
    requires EntriesOk(s, limbo) && id in s.mapInfo && sl !in s.vvNew
    requires !s.mapInfo[id].fInTried && s.mapInfo[id].nRefCount < NEW_BUCKETS_PER_ADDRESS
    ensures EntriesOk(EnterNew(s, id, sl), limbo - {id})
  {
    var t := EnterNew(s, id, sl);
    forall j | j in t.mapInfo
      ensures EntryOk(t.mapInfo[j], j, t.vvNew, limbo - {id})
    {
      assert EntryOk(s.mapInfo[j], j, s.vvNew, limbo);
      SlotsOfInsert(s.vvNew, sl, id, j);
      if j == id { EnterEntry(s.mapInfo[id], id, s.vvNew, sl, limbo); }
    }
  }

  lemma EnterNewTables(env: Env, s: Book, limbo: set<int>, owed: int, id: int, sl: Slot)
    requires TablesOk(env, s, limbo, owed) && id in s.mapInfo && sl !in s.vvNew
    requires !s.mapInfo[id].fInTried && s.mapInfo[id].nRefCount < NEW_BUCKETS_PER_ADDRESS
    requires 0 <= sl.0 < NEW_BUCKET_COUNT && sl.1 == env.position(s.nKey, true, sl.0, s.mapInfo[id].address.service)
    ensures TablesOk(env, EnterNew(s, id, sl), limbo - {id}, owed)
  {
    hide EntriesOk;
    EnterNewEntries(s, limbo, id, sl);
    SameMarks(s.mapInfo, EnterNew(s, id, sl).mapInfo);
  }

  lemma EnterTriedKeeps(env: Env, s: Book, limbo: set<int>, owed: int, id: int)
    requires Inv(env, s, limbo, owed) && id in limbo && s.mapInfo[id].nLastSuccess != 0
    requires TriedSlot(env, s.nKey, s.mapInfo[id]) !in s.vvTried
    ensures Inv(env, EnterTried(s, id, TriedSlot(env, s.nKey, s.mapInfo[id])), limbo - {id}, owed - 1)
  {
    var sl := TriedSlot(env, s.nKey, s.mapInfo[id]);
    var t := EnterTried(s, id, sl);
    assert Indexed(t) by {
      hide TablesOk, Indexed;
      SamePlacesIndexed(s, t);
    }
    assert TablesOk(env, t, limbo - {id}, owed - 1) by {
      hide Indexed;
      EnterTriedTables(env, s, limbo, owed, id);
    }
  }

  lemma EnterTriedTables(env: Env, s: Book, limbo: set<int>, owed: int, id: int)
    requires TablesOk(env, s, limbo, owed) && id in limbo && s.mapInfo[id].nLastSuccess != 0
    requires TriedSlot(env, s.nKey, s.mapInfo[id]) !in s.vvTried
    ensures TablesOk(env, EnterTried(s, id, TriedSlot(env, s.nKey, s.mapInfo[id])), limbo - {id}, owed - 1)
  {
    EnterTriedCounted(env, s, limbo, owed, id);
    EnterTriedEntries(env, s, limbo, id);
    EnterTriedNew(env, s, limbo, id);
    EnterTriedTried(env, s, id);
    hide NewTableOk, TriedTableOk, EntriesOk, Counted;
  }

  lemma EnterTriedCounted(env: Env, s: Book, limbo: set<int>, owed: int, id: int)
    requires EntriesOk(s, limbo) && Counted(s, owed) && id in limbo
    ensures Counted(EnterTried(s, id, TriedSlot(env, s.nKey, s.mapInfo[id])), owed - 1)
  {
    var t := EnterTried(s, id, TriedSlot(env, s.nKey, s.mapInfo[id]));
    assert EntryOk(s.mapInfo[id], id, s.vvNew, limbo);
    assert TriedIds(t.mapInfo) == TriedIds(s.mapInfo) + {id};
    assert id in NewIds(s.mapInfo) && NewIds(t.mapInfo) == NewIds(s.mapInfo) - {id};
  }

  lemma EnterTriedEntries(env: Env, s: Book, limbo: set<int>, id: int)
    requires EntriesOk(s, limbo) && id in limbo && s.mapInfo[id].nLastSuccess != 0
    ensures EntriesOk(EnterTried(s, id, TriedSlot(env, s.nKey, s.mapInfo[id])), limbo - {id})
  {
  }

  lemma EnterTriedNew(env: Env, s: Book, limbo: set<int>, id: int)
    requires NewTableOk(env, s) && EntriesOk(s, limbo) && id in limbo
    ensures NewTableOk(env, EnterTried(s, id, TriedSlot(env, s.nKey, s.mapInfo[id])))
  {
    assert EntryOk(s.mapInfo[id], id, s.vvNew, limbo);
    forall sl | sl in s.vvNew
      ensures s.vvNew[sl] != id
    {
      assert s.vvNew[sl] == id ==> sl in SlotsOf(s.vvNew, id);
    }
  }

  lemma EnterTriedTried(env: Env, s: Book, id: int)
    requires TriedTableOk(env, s) && id in s.mapInfo && TriedSlot(env, s.nKey, s.mapInfo[id]) !in s.vvTried
    ensures TriedTableOk(env, EnterTried(s, id, TriedSlot(env, s.nKey, s.mapInfo[id])))
  {
  }

  lemma LimboCleared(env: Env, s: Book, limbo: set<int>, owed: int, id: int)
    requires Inv(env, s, limbo, owed) && id in limbo
    ensures id in s.mapInfo && s.mapInfo[id].nRefCount == 0 && !s.mapInfo[id].fInTried && id >= 0
  {
  }

  lemma EvictKeeps(env: Env, s: Book, limbo: set<int>, owed: int, sl: Slot)
    requires Inv(env, s, limbo, owed)
    ensures CanEvict(env, s, sl)
    ensures Inv(env, Evict(env, s, sl), limbo, owed) && sl !in Evict(env, s, sl).vvTried
    ensures forall j :: j in limbo ==> SameFacts(Evict(env, s, sl).mapInfo[j], s.mapInfo[j])
  {
    hide Inv;
    LimboKnown(env, s, limbo, owed);
    if sl in s.vvTried {
      LeaveTriedKeeps(env, s, limbo, owed, sl);
      var id := s.vvTried[sl];
      var ns := NewSlot(env, s.nKey, s.mapInfo[id], s.mapInfo[id].source);
      var t := LeaveTried(s, sl);
      ClearNewKeeps(env, t, limbo + {id}, owed + 1, ns);
      var u := ClearNew(t, ns);
      assert SameFacts(u.mapInfo[id], t.mapInfo[id]);
      LimboCleared(env, u, limbo + {id}, owed + 1, id);
      ClearKeepsRest(t, ns);
      hide ClearNew, CanClear;
      EnterNewKeeps(env, u, limbo + {id}, owed + 1, id, ns);
      assert limbo + {id} - {id} == limbo;
      NewCounted(env, EnterNew(u, id, ns), limbo, owed + 1);
    }
  }

  /** Clearing a new slot leaves the tried table and the key alone. */
  lemma ClearKeepsRest(s: Book, sl: Slot)
    requires CanClear(s, sl)
    ensures ClearNew(s, sl).vvTried == s.vvTried && ClearNew(s, sl).nKey == s.nKey
  {
  }

  lemma NewCounted(env: Env, s: Book, limbo: set<int>, owed: int)
    requires Inv(env, s, limbo, owed)
    ensures Inv(env, s.(nNew := s.nNew + 1), limbo, owed - 1)
  {
  }

  lemma MakeTriedKeeps(env: Env, s: Book, id: int)
    requires Consistent(env, s) && id in s.mapInfo && !s.mapInfo[id].fInTried && s.mapInfo[id].nLastSuccess != 0
    ensures CanMakeTried(env, s, id)
    ensures Consistent(env, MakeTried(env, s, id))
  {
    hide Inv;
    var sl := TriedSlot(env, s.nKey, s.mapInfo[id]);
    LeaveNewKeeps(env, s, id);
    EvictKeeps(env, LeaveNew(s, id), {id}, 1, sl);
    var t := Evict(env, LeaveNew(s, id), sl);
    LimboKnown(env, t, {id}, 1);
    assert SameFacts(t.mapInfo[id], LeaveNew(s, id).mapInfo[id]);
    EnterTriedKeeps(env, t, {id}, 1, id);
    assert {id} - {id} == {};
  }

  lemma LimboKnown(env: Env, s: Book, limbo: set<int>, owed: int)
    requires Inv(env, s, limbo, owed)
    ensures limbo <= s.mapInfo.Keys
  {
  }
}
