/** The public operations of the address manager, and the theorem that every run of them keeps the
    whole consistency check (src/addrman.cpp). */
module AddrOps {
  import opened AddrBook
  import opened Common

  /** The statistics an announcement updates in an entry that is already known. */
  function Refresh(info: AddrInfo, addr: Address, penalty: int, nNow: int): AddrInfo {
    var interval := if nNow - addr.nTime < 24 * 60 * 60 then 60 * 60 else 24 * 60 * 60;
    var nTime :=
      if addr.nTime != 0 && (info.address.nTime == 0 || info.address.nTime < addr.nTime - interval - penalty)
      then Max(0, addr.nTime - penalty) else info.address.nTime;
    info.(address := info.address.(nTime := nTime, nServices := info.address.nServices + addr.nServices))
  }

  /** Whether the entry may take the slot it hashes to. */
  predicate MayTake(s: Book, id: int, sl: Slot, nNow: int)
    requires id in s.mapInfo && (sl in s.vvNew ==> s.vvNew[sl] in s.mapInfo)
  {
    sl in s.vvNew ==>
      var there := s.mapInfo[s.vvNew[sl]];
      there.IsTerrible(nNow) || (there.nRefCount > 1 && s.mapInfo[id].nRefCount == 0)
  }

  ghost predicate CanPlace(env: Env, s: Book, id: int, source: NetAddr) {
    && CanDelete(s, id)
    && var sl := NewSlot(env, s.nKey, s.mapInfo[id], source);
       && CanClear(s, sl)
       && (sl !in s.vvNew || s.vvNew[sl] != id ==> id in ClearNew(s, sl).mapInfo)
  }

  /** The entry takes its slot, keeps what it has, or is dropped for want of any slot. */
  ghost function Place(env: Env, s: Book, id: int, source: NetAddr, nNow: int): Book
    requires CanPlace(env, s, id, source)
  {
    var sl := NewSlot(env, s.nKey, s.mapInfo[id], source);
    if sl in s.vvNew && s.vvNew[sl] == id then s
    else if MayTake(s, id, sl, nNow) then EnterNew(ClearNew(s, sl), id, sl)
    else if s.mapInfo[id].nRefCount == 0 then Delete(s, id)
    else s
  }

  lemma PlaceKeeps(env: Env, s: Book, limbo: set<int>, id: int, source: NetAddr, nNow: int)
    requires Inv(env, s, limbo, 0) && id in s.mapInfo && limbo <= {id}
    requires !s.mapInfo[id].fInTried && s.mapInfo[id].nRefCount < NEW_BUCKETS_PER_ADDRESS
    ensures CanPlace(env, s, id, source)
    ensures Consistent(env, Place(env, s, id, source, nNow))
  {
    var sl := NewSlot(env, s.nKey, s.mapInfo[id], source);
    assert EntryOk(s.mapInfo[id], id, s.vvNew, limbo);
    assert id in limbo || s.mapInfo[id].nRefCount > 0;
    assert sl in s.vvNew && s.vvNew[sl] == id ==> sl in SlotsOf(s.vvNew, id);
    assert id !in limbo ==> limbo == {};
    hide TablesOk, Indexed;
    DeletableNow(env, s, limbo, id);
    ClearNewKeeps(env, s, limbo, 0, sl);
    if sl in s.vvNew && s.vvNew[sl] == id {
    } else if MayTake(s, id, sl, nNow) {
      assert SameFacts(ClearNew(s, sl).mapInfo[id], s.mapInfo[id]);
      EnterNewKeeps(env, ClearNew(s, sl), limbo, 0, id, sl);
      assert limbo - {id} == {};
    } else if s.mapInfo[id].nRefCount == 0 {
      DeleteKeeps(env, s, limbo, 0, id);
      assert limbo - {id} == {};
    }
  }

  lemma DeletableNow(env: Env, s: Book, limbo: set<int>, id: int)
    requires Inv(env, s, limbo, 0) && id in s.mapInfo
    ensures CanDelete(s, id)
  {
  }

  /** A statistics update: nothing that places or counts the entry changes. */
  ghost predicate StatsOnly(a: AddrInfo, b: AddrInfo) {
    && a.address.service == b.address.service && a.nRandomPos == b.nRandomPos
    && a.fInTried == b.fInTried && a.nRefCount == b.nRefCount && (TimesOk(a) ==> TimesOk(b))
  }

  lemma StatsKeep(env: Env, s: Book, id: int, info: AddrInfo)
    requires Consistent(env, s) && id in s.mapInfo && StatsOnly(s.mapInfo[id], info)
    ensures Consistent(env, SetInfo(s, id, info))
  {
    hide TablesOk, Indexed;
    AlikeKeeps(env, s, SetInfo(s, id, info), {}, 0);
    SamePlacesIndexed(s, SetInfo(s, id, info));
  }

  // ---------------------------------------------------------------- the public operations

  ghost predicate Known(s: Book, net: NetAddr) {
    net in s.mapAddr && s.mapAddr[net] in s.mapInfo
  }

  lemma FindExact(env: Env, s: Book, net: NetAddr)
    requires Consistent(env, s)
    ensures net in s.mapAddr <==> Known(s, net)
    ensures Known(s, net) ==> s.mapInfo[s.mapAddr[net]].Net() == net
  {
  }

  /** An announcement that has new information about a known new-table entry. */
  predicate Welcome(info: AddrInfo, addr: Address, roll: int) {
    && addr.nTime != 0 && (info.address.nTime == 0 || addr.nTime > info.address.nTime)
    && !info.fInTried && info.nRefCount != NEW_BUCKETS_PER_ADDRESS
    && (info.nRefCount > 0 ==> roll == 0)
  }

  function Penalty(addr: Address, source: NetAddr, nTimePenalty: int): int {
    if addr.service.net == source then 0 else nTimePenalty
  }

  /** A new entry, already counted, that has no slot yet. */
  ghost function Introduce(s: Book, addr: Address, source: NetAddr, penalty: int): Book {
    var t := Create(s, addr, source);
    var info := t.mapInfo[s.nIdCount];
    SetInfo(t, s.nIdCount, info.(address := info.address.(nTime := Max(0, info.address.nTime - penalty))))
      .(nNew := t.nNew + 1)
  }

  lemma IntroduceKeeps(env: Env, s: Book, addr: Address, source: NetAddr, penalty: int)
    requires Consistent(env, s) && addr.service.net !in s.mapAddr
    ensures Inv(env, Introduce(s, addr, source, penalty), {s.nIdCount}, 0)
  {
    CreateKeeps(env, s, addr, source);
    var t := Create(s, addr, source);
    NewCounted(env, t, {s.nIdCount}, 1);
    hide TablesOk, Indexed;
    var u := t.(nNew := t.nNew + 1);
    AlikeKeeps(env, u, Introduce(s, addr, source, penalty), {s.nIdCount}, 0);
    SamePlacesIndexed(u, Introduce(s, addr, source, penalty));
  }

  /** Add an announced address; `roll` is the random number drawn for a known address. */
  ghost function Add(env: Env, s: Book, addr: Address, source: NetAddr, nTimePenalty: int, nNow: int,
                     roll: int): (Book, bool)
    requires Consistent(env, s)
  {
    var penalty := Penalty(addr, source, nTimePenalty);
    if !env.routable(addr.service) then (s, false)
    else if addr.service.net in s.mapAddr then
      var id := s.mapAddr[addr.service.net];
      FindExact(env, s, addr.service.net);
      var info := Refresh(s.mapInfo[id], addr, penalty, nNow);
      var t := SetInfo(s, id, info);
      StatsKeep(env, s, id, info);
      if !Welcome(info, addr, roll) then (t, false)
      else
        WelcomeFits(env, t, id);
        PlaceKeeps(env, t, {}, id, source, nNow);
        (Place(env, t, id, source, nNow), false)
    else
      var t := Introduce(s, addr, source, penalty);
      IntroduceKeeps(env, s, addr, source, penalty);
      PlaceKeeps(env, t, {s.nIdCount}, s.nIdCount, source, nNow);
      (Place(env, t, s.nIdCount, source, nNow), true)
  }

  lemma WelcomeFits(env: Env, t: Book, id: int)
    requires Consistent(env, t) && id in t.mapInfo
    requires !t.mapInfo[id].fInTried && t.mapInfo[id].nRefCount != NEW_BUCKETS_PER_ADDRESS
    ensures t.mapInfo[id].nRefCount < NEW_BUCKETS_PER_ADDRESS
  {
  }

  lemma AddKeeps(env: Env, s: Book, addr: Address, source: NetAddr, nTimePenalty: int, nNow: int, roll: int)
    requires Consistent(env, s)
    ensures Consistent(env, Add(env, s, addr, source, nTimePenalty, nNow, roll).0)
  {
    var penalty := Penalty(addr, source, nTimePenalty);
    if env.routable(addr.service) {
      if addr.service.net in s.mapAddr {
        var id := s.mapAddr[addr.service.net];
        FindExact(env, s, addr.service.net);
        hide Inv;
        var info := Refresh(s.mapInfo[id], addr, penalty, nNow);
        StatsKeep(env, s, id, info);
        if Welcome(info, addr, roll) {
          WelcomeFits(env, SetInfo(s, id, info), id);
          PlaceKeeps(env, SetInfo(s, id, info), {}, id, source, nNow);
        }
      } else {
        hide Inv;
        IntroduceKeeps(env, s, addr, source, penalty);
        PlaceKeeps(env, Introduce(s, addr, source, penalty), {s.nIdCount}, s.nIdCount, source, nNow);
      }
    }
  }

  /** The entry the three small operations and Good act on: known under exactly this address and port. */
  ghost predicate Exact(s: Book, service: Service) {
    Known(s, service.net) && s.mapInfo[s.mapAddr[service.net]].address.service == service
  }

  ghost function Good(env: Env, s: Book, service: Service, nTime: int): Book
    requires Consistent(env, s) && nTime > 0
  {
    var t := s.(nLastGood := nTime);
    if !Exact(t, service) then t
    else
      var id := s.mapAddr[service.net];
      var u := SetInfo(t, id, t.mapInfo[id].(nLastSuccess := nTime, nLastTry := nTime, nAttempts := 0));
      if u.mapInfo[id].fInTried then u
      else
        StatsKeep(env, t, id, u.mapInfo[id]);
        MakeTriedKeeps(env, u, id);
        MakeTried(env, u, id)
  }

  lemma LastGoodKeeps(env: Env, s: Book, nTime: int)
    requires Consistent(env, s)
    ensures Consistent(env, s.(nLastGood := nTime))
  {
  }

  lemma GoodKeeps(env: Env, s: Book, service: Service, nTime: int)
    requires Consistent(env, s) && nTime > 0
    ensures Consistent(env, Good(env, s, service, nTime))
  {
    var t := s.(nLastGood := nTime);
    hide Inv;
    LastGoodKeeps(env, s, nTime);
    if Exact(t, service) {
      var id := s.mapAddr[service.net];
      var u := SetInfo(t, id, t.mapInfo[id].(nLastSuccess := nTime, nLastTry := nTime, nAttempts := 0));
      StatsKeep(env, t, id, u.mapInfo[id]);
      if !u.mapInfo[id].fInTried {
        MakeTriedKeeps(env, u, id);
      }
    }
  }

  /** The search for a bucket in Good always finds one: a new-table entry is in some bucket, at the
      position that bucket gives it. */
  lemma BucketIsFound(env: Env, s: Book, id: int)
    requires Consistent(env, s) && id in s.mapInfo && !s.mapInfo[id].fInTried
    ensures exists b :: 0 <= b < NEW_BUCKET_COUNT
              && var sl := (b, env.position(s.nKey, true, b, s.mapInfo[id].address.service));
                 sl in s.vvNew && s.vvNew[sl] == id
  {
  }

  function Attempted(info: AddrInfo, fCountFailure: bool, nTime: int, nLastGood: int): AddrInfo {
    var i := info.(nLastTry := nTime);
    if fCountFailure && i.nLastCountAttempt < nLastGood
    then i.(nLastCountAttempt := nTime, nAttempts := i.nAttempts + 1) else i
  }

  function Connected(info: AddrInfo, nTime: int): AddrInfo {
    if nTime - info.address.nTime > 20 * 60 then info.(address := info.address.(nTime := nTime)) else info
  }

  /** One call on the manager; times are those the clock gave, and a swap is one step of GetAddr. */
  datatype Op =
    | OpAdd(addr: Address, source: NetAddr, nTimePenalty: int, nNow: int, roll: int)
    | OpGood(service: Service, nTime: int)
    | OpAttempt(service: Service, fCountFailure: bool, nTime: int)
    | OpConnected(service: Service, nTime: int)
    | OpSetServices(service: Service, nServices: ServiceFlags)
    | OpSwap(i: nat, j: nat)

  predicate ClockOk(op: Op) {
    (op.OpGood? ==> op.nTime > 0) && (op.OpAttempt? ==> op.nTime >= 0)
  }

  ghost function Step(env: Env, s: Book, op: Op): Book
    requires Consistent(env, s) && ClockOk(op)
  {
    match op
    case OpAdd(addr, source, penalty, now, roll) => Add(env, s, addr, source, penalty, now, roll).0
    case OpGood(service, nTime) => Good(env, s, service, nTime)
    case OpAttempt(service, fCountFailure, nTime) =>
      if !Exact(s, service) then s
      else SetInfo(s, s.mapAddr[service.net], Attempted(s.mapInfo[s.mapAddr[service.net]], fCountFailure, nTime, s.nLastGood))
    case OpConnected(service, nTime) =>
      if !Exact(s, service) then s
      else SetInfo(s, s.mapAddr[service.net], Connected(s.mapInfo[s.mapAddr[service.net]], nTime))
    case OpSetServices(service, nServices) =>
      if !Exact(s, service) then s
      else
        var info := s.mapInfo[s.mapAddr[service.net]];
        SetInfo(s, s.mapAddr[service.net], info.(address := info.address.(nServices := nServices)))
    case OpSwap(i, j) =>
      if i < |s.vRandom| && j < |s.vRandom| then SwapRandom(s, i, j) else s
  }

  lemma StepKeeps(env: Env, s: Book, op: Op)
    requires Consistent(env, s) && ClockOk(op)
    ensures Consistent(env, Step(env, s, op))
  {
    if op.OpSwap? {
      if op.i < |s.vRandom| && op.j < |s.vRandom| { SwapRandomKeeps(env, s, {}, 0, op.i, op.j); }
      return;
    }
    hide Inv;
    if op.OpAdd? {
      AddKeeps(env, s, op.addr, op.source, op.nTimePenalty, op.nNow, op.roll);
    } else if op.OpGood? {
      GoodKeeps(env, s, op.service, op.nTime);
    } else if Exact(s, op.service) {
      StatsKeep(env, s, s.mapAddr[op.service.net], Step(env, s, op).mapInfo[s.mapAddr[op.service.net]]);
    }
  }

  function Fresh(key: Key): Book {
    Book(key, 0, map[], map[], [], 0, map[], 0, map[], 1)
  }

  lemma FreshConsistent(env: Env, key: Key)
    ensures Consistent(env, Fresh(key))
  {
  }

  /** The states that runs from a new manager pass through. */
  ghost predicate Trace(env: Env, states: seq<Book>, ops: seq<Op>) {
    && |states| == |ops| + 1
    && states[0] == Fresh(states[0].nKey)
    && (forall i :: 0 <= i < |ops| ==> ClockOk(ops[i]))
    && forall i :: 0 <= i < |ops| && Consistent(env, states[i]) ==> states[i + 1] == Step(env, states[i], ops[i])
  }

  /** Every state of every run is consistent. */
  lemma {:induction false} RunsAreConsistent(env: Env, states: seq<Book>, ops: seq<Op>, n: nat)
    requires Trace(env, states, ops) && n <= |ops|
    ensures Consistent(env, states[n])
  {
    if n == 0 {
      FreshConsistent(env, states[0].nKey);
    } else {
      RunsAreConsistent(env, states, ops, n - 1);
      StepKeeps(env, states[n - 1], ops[n - 1]);
    }
  }

  // ---------------------------------------------------------------- what the operations do not lose

  /** The same address from the same source, with the same statistics. */
  ghost predicate SameNode(a: AddrInfo, b: AddrInfo) {
    && a.address == b.address && a.source == b.source
    && a.nLastTry == b.nLastTry && a.nLastCountAttempt == b.nLastCountAttempt
    && a.nLastSuccess == b.nLastSuccess && a.nAttempts == b.nAttempts
  }

  /** Everything in `s` survives in `t`, except the entries in `lost`, and stays in its table,
      except those in `moved`. */
  ghost predicate Survives(s: Book, t: Book, lost: set<int>, moved: set<int>) {
    && s.mapInfo.Keys - lost == t.mapInfo.Keys
    && forall id :: id in t.mapInfo ==>
         id in s.mapInfo && SameNode(s.mapInfo[id], t.mapInfo[id])
         && (id !in moved ==> s.mapInfo[id].fInTried == t.mapInfo[id].fInTried)
  }

  /** The entry in the slot, if it is the only slot it has. */
  ghost function Victim(s: Book, sl: Slot): set<int> {
    if sl in s.vvNew && s.vvNew[sl] in s.mapInfo && s.mapInfo[s.vvNew[sl]].nRefCount == 1 then {s.vvNew[sl]} else {}
  }

  lemma ClearNewLoses(env: Env, s: Book, limbo: set<int>, owed: int, sl: Slot)
    requires Inv(env, s, limbo, owed)
    ensures CanClear(s, sl) && Survives(s, ClearNew(s, sl), Victim(s, sl), {})
    ensures ClearNew(s, sl).vvTried == s.vvTried
  {
    ClearNewKeeps(env, s, limbo, owed, sl);
    if sl in s.vvNew {
      DropSlotKeeps(env, s, limbo, owed, sl);
      hide Inv;
      DropSlotLoses(s, sl);
    } else {
      assert s.mapInfo.Keys - {} == s.mapInfo.Keys;
    }
  }

  lemma DropSlotLoses(s: Book, sl: Slot)
    requires CanClear(s, sl) && sl in s.vvNew
    ensures Survives(s, ClearNew(s, sl), Victim(s, sl), {})
    ensures ClearNew(s, sl).vvTried == s.vvTried
  {
  }

  /** Good on an exactly known address puts it into its tried slot and loses nothing else, except that
      the entry that had the slot goes back to its new slot, where it may cost one new-table entry its
      only slot. */
  ghost predicate MovedToTried(env: Env, s: Book, t: Book, id: int)
    requires id in s.mapInfo
  {
    var sl := TriedSlot(env, s.nKey, s.mapInfo[id]);
    && sl in t.vvTried && t.vvTried[sl] == id && id in t.mapInfo && t.mapInfo[id].fInTried
    && if sl in s.vvTried && s.vvTried[sl] != id then
         var out := s.vvTried[sl];
         out in s.mapInfo &&
         var ns := NewSlot(env, s.nKey, s.mapInfo[out], s.mapInfo[out].source);
         && ns in t.vvNew && t.vvNew[ns] == out
         && Survives(s, t, Victim(s, ns) - {id}, {id, out})
       else
         Survives(s, t, {}, {id})
  }

  lemma SurvivesThen(s: Book, t: Book, u: Book, lost: set<int>, moved: set<int>)
    requires Survives(s, t, {}, moved) && Survives(t, u, lost, {})
    ensures Survives(s, u, lost, moved)
  {
  }

  lemma SetInfoSurvives(s: Book, t: Book, lost: set<int>, moved: set<int>, id: int, info: AddrInfo, u: Book)
    requires Survives(s, t, lost, moved) && id in moved && id in t.mapInfo && SameNode(t.mapInfo[id], info)
    requires u.mapInfo == t.mapInfo[id := info]
    ensures Survives(s, u, lost, moved)
  {
  }

  lemma VictimAfter(s: Book, id: int, sl: Slot, ns: Slot)
    requires id in s.mapInfo && sl in s.vvTried && s.vvTried[sl] in s.mapInfo && s.vvTried[sl] != id
    ensures Victim(LeaveTried(LeaveNew(s, id), sl), ns) == Victim(s, ns) - {id}
  {
  }

  lemma LeavingSurvives(s: Book, id: int, sl: Slot)
    requires id in s.mapInfo && sl in s.vvTried && s.vvTried[sl] in s.mapInfo && s.vvTried[sl] != id
    ensures Survives(s, LeaveTried(LeaveNew(s, id), sl), {}, {id, s.vvTried[sl]})
  {
  }

  lemma MakeTriedEffect(env: Env, s: Book, id: int)
    requires Consistent(env, s) && id in s.mapInfo && !s.mapInfo[id].fInTried && s.mapInfo[id].nLastSuccess != 0
    ensures CanMakeTried(env, s, id) && MovedToTried(env, s, MakeTried(env, s, id), id)
  {
    hide Inv, MovedToTried, MakeTried, CanMakeTried;
    var sl := TriedSlot(env, s.nKey, s.mapInfo[id]);
    MakeTriedKeeps(env, s, id);
    if sl in s.vvTried {
      HolderIsTried(env, s, sl);
      EvictingEffect(env, s, id, sl);
    } else {
      FreeSlotEffect(env, s, id);
    }
  }

  lemma HolderIsTried(env: Env, s: Book, sl: Slot)
    requires Consistent(env, s) && sl in s.vvTried
    ensures s.vvTried[sl] in s.mapInfo && s.mapInfo[s.vvTried[sl]].fInTried
  {
  }

  lemma FreeSlotEffect(env: Env, s: Book, id: int)
    requires CanMakeTried(env, s, id) && !s.mapInfo[id].fInTried
    requires TriedSlot(env, s.nKey, s.mapInfo[id]) !in s.vvTried
    ensures MovedToTried(env, s, MakeTried(env, s, id), id)
  {
    assert s.mapInfo.Keys - {} == s.mapInfo.Keys;
  }

  lemma EvictingSurvives(env: Env, s: Book, id: int, sl: Slot, ns: Slot)
    requires Consistent(env, s) && id in s.mapInfo && !s.mapInfo[id].fInTried
    requires sl in s.vvTried && s.vvTried[sl] in s.mapInfo && s.vvTried[sl] != id
    ensures
      var b := LeaveTried(LeaveNew(s, id), sl);
      && CanClear(b, ns) && Survives(s, ClearNew(b, ns), Victim(s, ns) - {id}, {id, s.vvTried[sl]})
      && id in ClearNew(b, ns).mapInfo && s.vvTried[sl] in ClearNew(b, ns).mapInfo
  {
    hide Inv;
    LeaveNewKeeps(env, s, id);
    var a, out := LeaveNew(s, id), s.vvTried[sl];
    LeaveTriedKeeps(env, a, {id}, 1, sl);
    var b := LeaveTried(a, sl);
    ClearNewLoses(env, b, {id} + {out}, 2, ns);
    VictimAfter(s, id, sl, ns);
    LeavingSurvives(s, id, sl);
    ClearNewKeeps(env, b, {id} + {out}, 2, ns);
    hide Survives, Victim, ClearNew;
    SurvivesThen(s, b, ClearNew(b, ns), Victim(s, ns) - {id}, {id, out});
  }

  lemma EvictingEffect(env: Env, s: Book, id: int, sl: Slot)
    requires Consistent(env, s) && CanMakeTried(env, s, id) && sl == TriedSlot(env, s.nKey, s.mapInfo[id])
    requires !s.mapInfo[id].fInTried && sl in s.vvTried && s.vvTried[sl] in s.mapInfo && s.vvTried[sl] != id
    ensures MovedToTried(env, s, MakeTried(env, s, id), id)
  {
    hide Inv, Survives, Victim, ClearNew, CanClear;
    var out := s.vvTried[sl];
    var ns := NewSlot(env, s.nKey, s.mapInfo[out], s.mapInfo[out].source);
    EvictingSurvives(env, s, id, sl, ns);
    var lost, c := Victim(s, ns) - {id}, ClearNew(LeaveTried(LeaveNew(s, id), sl), ns);
    var d := EnterNew(c, out, ns);
    SetInfoSurvives(s, c, lost, {id, out}, out, d.mapInfo[out], d);
    var t := MakeTried(env, s, id);
    SetInfoSurvives(s, d, lost, {id, out}, id, t.mapInfo[id], t);
  }

  /** Good notes the success. An exactly known address that is not yet tried moves to the tried table; beyond that
      only its own statistics change. */
  lemma GoodEffect(env: Env, s: Book, service: Service, nTime: int)
    requires Consistent(env, s) && nTime > 0
    ensures
      var t := Good(env, s, service, nTime);
      && t.nLastGood == nTime
      && if !Exact(s, service) then t == s.(nLastGood := nTime)
         else
           var id := s.mapAddr[service.net];
           var noted := s.mapInfo[id].(nLastSuccess := nTime, nLastTry := nTime, nAttempts := 0);
           var u := s.(mapInfo := s.mapInfo[id := noted]);
           if noted.fInTried then t == u.(nLastGood := nTime) else MovedToTried(env, u, t, id)
  {
    if Exact(s, service) {
      var id := s.mapAddr[service.net];
      var t := s.(nLastGood := nTime);
      var u := SetInfo(t, id, t.mapInfo[id].(nLastSuccess := nTime, nLastTry := nTime, nAttempts := 0));
      if !u.mapInfo[id].fInTried {
        hide Inv, MakeTried, CanMakeTried, Survives;
        LastGoodKeeps(env, s, nTime);
        StatsKeep(env, t, id, u.mapInfo[id]);
        MakeTriedEffect(env, u, id);
        LastGoodMoved(env, u, MakeTried(env, u, id), id, s.nLastGood);
        LastGoodStays(env, u, id);
      }
    }
  }

  lemma LastGoodMoved(env: Env, u: Book, t: Book, id: int, last: int)
    requires id in u.mapInfo && MovedToTried(env, u, t, id)
    ensures MovedToTried(env, u.(nLastGood := last), t, id)
  {
  }

  lemma LastGoodStays(env: Env, s: Book, id: int)
    requires CanMakeTried(env, s, id)
    ensures MakeTried(env, s, id).nLastGood == s.nLastGood
  {
  }

  /** Which entries are given up first: not one tried in the last minute; else one with a time unset, older than 30
      days or more than ten minutes ahead, or one with three attempts and no success, or ten in a week without one. */
  lemma TerribleExact(info: AddrInfo, nNow: int)
    requires info.nLastSuccess >= 0
    ensures
      var age := nNow - info.address.nTime;
      info.IsTerrible(nNow) <==>
      && (info.nLastTry == 0 || nNow - info.nLastTry > 60)
      && (info.address.nTime == 0 || age < -600 || age > 2592000 || (info.nLastSuccess == 0 && info.nAttempts >= 3)
          || (info.nAttempts >= 10 && nNow - info.nLastSuccess > 604800))
  {
  }

  /** An attempt changes the entry's own statistics only. It is counted if that is asked for and none was counted
      since the last success of any address. */
  lemma AttemptEffect(env: Env, s: Book, service: Service, fCountFailure: bool, nTime: int)
    requires Consistent(env, s) && nTime >= 0
    ensures
      var t := Step(env, s, OpAttempt(service, fCountFailure, nTime));
      if !Exact(s, service) then t == s
      else
        var id := s.mapAddr[service.net];
        id in t.mapInfo &&
        var was, now := s.mapInfo[id], t.mapInfo[id];
        var counted := fCountFailure && was.nLastCountAttempt < s.nLastGood;
        && t == s.(mapInfo := s.mapInfo[id := now]) && now.nLastTry == nTime
        && now.nAttempts == was.nAttempts + (if counted then 1 else 0)
        && now.nLastCountAttempt == (if counted then nTime else was.nLastCountAttempt)
        && now == was.(nLastTry := now.nLastTry, nAttempts := now.nAttempts, nLastCountAttempt := now.nLastCountAttempt)
  {
  }

  /** Of two attempts without a success in between, the second is not counted after the first was. */
  lemma CountedOnce(env: Env, s: Book, service: Service, first: int, again: int)
    requires Consistent(env, s) && Exact(s, service) && again >= 0 && first >= 0 && first >= s.nLastGood
    ensures
      var t := Step(env, s, OpAttempt(service, true, first));
      && Consistent(env, t) && s.mapAddr[service.net] in t.mapInfo
      && var u := Step(env, t, OpAttempt(service, true, again));
         && s.mapAddr[service.net] in u.mapInfo
         && u.mapInfo[s.mapAddr[service.net]].nAttempts <= s.mapInfo[s.mapAddr[service.net]].nAttempts + 1
  {
    hide Inv;
    StepKeeps(env, s, OpAttempt(service, true, first));
    AttemptEffect(env, s, service, true, first);
    AttemptEffect(env, Step(env, s, OpAttempt(service, true, first)), service, true, again);
  }

  /** A connection renews a time that is more than twenty minutes old, and nothing else. */
  lemma ConnectedEffect(env: Env, s: Book, service: Service, nTime: int)
    requires Consistent(env, s)
    ensures
      var t := Step(env, s, OpConnected(service, nTime));
      if !Exact(s, service) then t == s
      else
        var id := s.mapAddr[service.net];
        id in t.mapInfo &&
        var was, now := s.mapInfo[id], t.mapInfo[id];
        && t == s.(mapInfo := s.mapInfo[id := now])
        && now == was.(address := was.address.(nTime := now.address.nTime))
        && now.address.nTime >= was.address.nTime && now.address.nTime >= nTime - 1200
        && (now.address.nTime == was.address.nTime || now.address.nTime == nTime)
        && (was.address.nTime >= nTime - 1200 ==> now == was)
  {
  }

  /** The services given replace those stored, for the entry known under exactly this address and port. */
  lemma ServicesEffect(env: Env, s: Book, service: Service, nServices: ServiceFlags)
    requires Consistent(env, s)
    ensures
      var t := Step(env, s, OpSetServices(service, nServices));
      if !Exact(s, service) then t == s
      else
        var id := s.mapAddr[service.net];
        id in t.mapInfo &&
        var was, now := s.mapInfo[id], t.mapInfo[id];
        && t == s.(mapInfo := s.mapInfo[id := now])
        && now == was.(address := now.address)
        && now.address.nServices == nServices
        && now.address.service == was.address.service && now.address.nTime == was.address.nTime
  {
  }

  /** The tried table and its entries are as before. */
  ghost predicate TriedUntouched(s: Book, t: Book) {
    t.vvTried == s.vvTried && TriedIds(t.mapInfo) == TriedIds(s.mapInfo)
  }

  lemma SurvivesUntouched(s: Book, t: Book, lost: set<int>)
    requires Survives(s, t, lost, {})
    requires forall id :: id in lost && id in s.mapInfo ==> !s.mapInfo[id].fInTried
    ensures TriedIds(t.mapInfo) == TriedIds(s.mapInfo)
  {
    forall id
      ensures id in TriedIds(t.mapInfo) <==> id in TriedIds(s.mapInfo)
    {
      assert id in s.mapInfo && id !in lost <==> id in t.mapInfo;
    }
  }

  lemma PlaceEffect(env: Env, s: Book, limbo: set<int>, id: int, source: NetAddr, nNow: int)
    requires Inv(env, s, limbo, 0) && id in s.mapInfo && limbo <= {id}
    requires !s.mapInfo[id].fInTried && s.mapInfo[id].nRefCount < NEW_BUCKETS_PER_ADDRESS
    ensures CanPlace(env, s, id, source) && TriedUntouched(s, Place(env, s, id, source, nNow))
  {
    hide Inv, TriedIds, ClearNew, Delete, CanDelete;
    PlaceKeeps(env, s, limbo, id, source, nNow);
    var sl := NewSlot(env, s.nKey, s.mapInfo[id], source);
    var t := Place(env, s, id, source, nNow);
    ClearNewLoses(env, s, limbo, 0, sl);
    VictimsAreNew(env, s, limbo, sl);
    hide Survives, Victim;
    if sl in s.vvNew && s.vvNew[sl] == id {
    } else if MayTake(s, id, sl, nNow) {
      SurvivesUntouched(s, ClearNew(s, sl), Victim(s, sl));
      SameMarks(ClearNew(s, sl).mapInfo, t.mapInfo);
    } else if s.mapInfo[id].nRefCount == 0 {
      DeleteUntouched(s, id);
    }
  }

  lemma DeleteUntouched(s: Book, id: int)
    requires CanDelete(s, id) && !s.mapInfo[id].fInTried
    ensures TriedUntouched(s, Delete(s, id))
  {
  }

  lemma VictimsAreNew(env: Env, s: Book, limbo: set<int>, sl: Slot)
    requires Inv(env, s, limbo, 0)
    ensures forall id :: id in Victim(s, sl) && id in s.mapInfo ==> !s.mapInfo[id].fInTried
  {
  }

  /** Apart from `id`, every entry survives in its table, except those in `lost`. */
  ghost predicate Rest(s: Book, t: Book, lost: set<int>, id: int) {
    && s.mapInfo.Keys - lost - {id} == t.mapInfo.Keys - {id}
    && forall j :: j in t.mapInfo && j != id ==>
         j in s.mapInfo && SameNode(s.mapInfo[j], t.mapInfo[j]) && s.mapInfo[j].fInTried == t.mapInfo[j].fInTried
  }

  /** The entry has the slot, which costs at most one other entry its place: one that had no other slot. */
  ghost predicate Takes(s: Book, t: Book, id: int, sl: Slot) {
    id in t.mapInfo && t.vvNew == s.vvNew[sl := id] && Rest(s, t, Victim(s, sl) - {id}, id)
  }

  ghost predicate Stays(s: Book, t: Book, id: int) {
    t.vvNew == s.vvNew && Rest(s, t, {}, id)
  }

  /** Whether a slot is free, or held by an entry that is terrible or, for an entry without any slot, has others. */
  ghost predicate Yields(s: Book, sl: Slot, nNow: int, homeless: bool) {
    sl in s.vvNew ==>
      s.vvNew[sl] in s.mapInfo && (s.mapInfo[s.vvNew[sl]].IsTerrible(nNow) || (homeless && s.mapInfo[s.vvNew[sl]].nRefCount > 1))
  }

  ghost predicate PlaceOutcome(s: Book, t: Book, id: int, sl: Slot, nNow: int)
    requires id in s.mapInfo
  {
    && (id in t.mapInfo ==> SameNode(s.mapInfo[id], t.mapInfo[id]))
    && if (sl in s.vvNew && s.vvNew[sl] == id) || Yields(s, sl, nNow, s.mapInfo[id].nRefCount == 0) then Takes(s, t, id, sl)
       else Stays(s, t, id) && (id in t.mapInfo <==> s.mapInfo[id].nRefCount != 0)
  }

  lemma ClearedTable(s: Book, sl: Slot)
    requires CanClear(s, sl)
    ensures ClearNew(s, sl).vvNew == s.vvNew - {sl}
  {
  }

  lemma EnteredRest(s: Book, c: Book, lost: set<int>, id: int, sl: Slot)
    requires Survives(s, c, lost, {}) && id in c.mapInfo && id !in lost && c.vvNew == s.vvNew - {sl}
    ensures Rest(s, EnterNew(c, id, sl), lost - {id}, id) && EnterNew(c, id, sl).vvNew == s.vvNew[sl := id]
    ensures id in s.mapInfo && id in EnterNew(c, id, sl).mapInfo
    ensures SameNode(s.mapInfo[id], EnterNew(c, id, sl).mapInfo[id])
  {
  }

  lemma DeletedRest(s: Book, id: int)
    requires CanDelete(s, id)
    ensures Stays(s, Delete(s, id), id) && id !in Delete(s, id).mapInfo
  {
  }

  lemma SlotHolder(env: Env, s: Book, limbo: set<int>, sl: Slot)
    requires Inv(env, s, limbo, 0)
    ensures sl in s.vvNew ==> s.vvNew[sl] in s.mapInfo
  {
  }

  lemma PlaceExact(env: Env, s: Book, limbo: set<int>, id: int, source: NetAddr, nNow: int)
    requires Inv(env, s, limbo, 0) && id in s.mapInfo && limbo <= {id}
    requires !s.mapInfo[id].fInTried && s.mapInfo[id].nRefCount < NEW_BUCKETS_PER_ADDRESS
    ensures CanPlace(env, s, id, source)
    ensures PlaceOutcome(s, Place(env, s, id, source, nNow), id, NewSlot(env, s.nKey, s.mapInfo[id], source), nNow)
  {
    hide Inv, ClearNew, Delete, CanDelete, Takes, Stays, Survives, EnterNew, Rest;
    PlaceKeeps(env, s, limbo, id, source, nNow);
    var sl := NewSlot(env, s.nKey, s.mapInfo[id], source);
    SlotHolder(env, s, limbo, sl);
    var t := Place(env, s, id, source, nNow);
    if sl in s.vvNew && s.vvNew[sl] == id {
      Unchanged(s, id, sl);
    } else if MayTake(s, id, sl, nNow) {
      ClearNewLoses(env, s, limbo, 0, sl);
      ClearedTable(s, sl);
      EnteredRest(s, ClearNew(s, sl), Victim(s, sl), id, sl);
      Taken(s, t, id, sl);
    } else if s.mapInfo[id].nRefCount == 0 {
      DeletedRest(s, id);
    } else {
      Unchanged(s, id, sl);
    }
  }

  lemma Taken(s: Book, t: Book, id: int, sl: Slot)
    requires id in t.mapInfo && t.vvNew == s.vvNew[sl := id] && Rest(s, t, Victim(s, sl) - {id}, id)
    ensures Takes(s, t, id, sl)
  {
  }

  lemma Unchanged(s: Book, id: int, sl: Slot)
    requires id in s.mapInfo
    ensures Stays(s, s, id)
    ensures sl in s.vvNew && s.vvNew[sl] == id ==> Takes(s, s, id, sl)
  {
    if sl in s.vvNew && s.vvNew[sl] == id {
      assert s.vvNew == s.vvNew[sl := id];
      assert Victim(s, sl) - {id} == {};
    }
  }

  /** What an announcement leaves in a known entry: the services of both, and the announced time less the penalty
      if the stored one was unset or is older by more than that and an interval; nothing else. */
  ghost predicate Refreshed(was: AddrInfo, now: AddrInfo, addr: Address, penalty: int, nNow: int) {
    var interval := if nNow - addr.nTime < 86400 then 3600 else 86400;
    && now.address.service == was.address.service
    && (forall bit :: bit in now.address.nServices <==> bit in was.address.nServices || bit in addr.nServices)
    && (if addr.nTime != 0 && (was.address.nTime == 0 || was.address.nTime + interval < addr.nTime - penalty)
        then now.address.nTime == Max(0, addr.nTime - penalty) else now.address.nTime == was.address.nTime)
    && now.source == was.source && now.nLastTry == was.nLastTry && now.nLastCountAttempt == was.nLastCountAttempt
    && now.nLastSuccess == was.nLastSuccess && now.nAttempts == was.nAttempts && now.fInTried == was.fInTried
  }

  /** The announced time is still newer than what is stored, the entry is only in the new table with room for one more
      slot, and the draw allows it. */
  ghost predicate MayGrow(was: AddrInfo, now: AddrInfo, addr: Address, roll: int) {
    && addr.nTime != 0 && (now.address.nTime == 0 || now.address.nTime < addr.nTime)
    && !was.fInTried && was.nRefCount < 8 && roll == 0
  }

  /** What an announcement stores of a new address. */
  ghost predicate Introduced(now: AddrInfo, addr: Address, source: NetAddr, penalty: int) {
    && now.address.service == addr.service && now.address.nServices == addr.nServices
    && now.address.nTime == Max(0, addr.nTime - penalty) && now.source == source
    && now.nLastTry == now.nLastCountAttempt == now.nLastSuccess == now.nAttempts == 0 && !now.fInTried
  }

  /** What an announcement does. An unroutable address changes nothing. A known one keeps its entry, and
      gets one more slot only if it may grow and that slot yields. An unknown one is stored if and only if
      its slot yields. */
  ghost predicate Announced(env: Env, s: Book, t: Book, addr: Address, source: NetAddr, penalty: int, nNow: int,
                            roll: int) {
    var net := addr.service.net;
    if !env.routable(addr.service) then t == s
    else if Known(s, net) then
      var id := s.mapAddr[net];
      var sl := NewSlot(env, s.nKey, s.mapInfo[id], source);
      && Known(t, net) && t.mapAddr[net] == id && Refreshed(s.mapInfo[id], t.mapInfo[id], addr, penalty, nNow)
      && if MayGrow(s.mapInfo[id], t.mapInfo[id], addr, roll)
            && ((sl in s.vvNew && s.vvNew[sl] == id) || Yields(s, sl, nNow, false)) then Takes(s, t, id, sl)
         else Stays(s, t, id)
    else
      var id, sl := s.nIdCount, NewSlot(env, s.nKey, NewInfo(addr, source), source);
      if Yields(s, sl, nNow, true) then
        && Known(t, net) && t.mapAddr[net] == id && Introduced(t.mapInfo[id], addr, source, penalty)
        && Takes(s, t, id, sl)
      else !Known(t, net) && Stays(s, t, id)
  }

  /** A stored time never goes back. */
  lemma TimeNeverBack(was: AddrInfo, now: AddrInfo, addr: Address, penalty: int, nNow: int)
    requires Refreshed(was, now, addr, penalty, nNow) && was.address.nTime >= 0
    ensures now.address.nTime >= was.address.nTime
  {
  }

  /** An address that announces itself and renews its time takes no further slot. */
  lemma RenewalTakesNothing(env: Env, s: Book, t: Book, addr: Address, nNow: int, roll: int)
    requires Consistent(env, s) && env.routable(addr.service) && Known(s, addr.service.net) && addr.nTime >= 0
    requires Announced(env, s, t, addr, addr.service.net, 0, nNow, roll)
    requires Known(t, addr.service.net) && t.mapInfo[t.mapAddr[addr.service.net]].address.nTime !=
             s.mapInfo[s.mapAddr[addr.service.net]].address.nTime
    ensures Stays(s, t, s.mapAddr[addr.service.net])
  {
  }

  /** Add never touches the tried table, nor any entry in it, and does exactly this to the new one. */
  lemma AddEffect(env: Env, s: Book, addr: Address, source: NetAddr, nTimePenalty: int, nNow: int, roll: int)
    requires Consistent(env, s)
    ensures
      var (t, fNew) := Add(env, s, addr, source, nTimePenalty, nNow, roll);
      var penalty := if addr.service.net == source then 0 else nTimePenalty;
      && TriedUntouched(s, t) && Announced(env, s, t, addr, source, penalty, nNow, roll)
      && (fNew <==> env.routable(addr.service) && !Known(s, addr.service.net))
  {
    var penalty := Penalty(addr, source, nTimePenalty);
    FindExact(env, s, addr.service.net);
    hide Inv, TriedIds, Place, CanPlace, PlaceOutcome, Takes, Stays, Introduce, Refresh, Welcome, Yields, SameNode;
    hide TriedUntouched;
    if env.routable(addr.service) {
      AddKeeps(env, s, addr, source, nTimePenalty, nNow, roll);
      if addr.service.net in s.mapAddr {
        KnownEffect(env, s, addr, source, penalty, nNow, roll);
      } else {
        UnknownEffect(env, s, addr, source, penalty, nNow);
      }
    } else {
      SameUntouched(s);
    }
  }

  lemma SameVictim(s: Book, u: Book, id: int, sl: Slot)
    requires u.vvNew == s.vvNew
    requires sl in s.vvNew && s.vvNew[sl] != id ==>
               var j := s.vvNew[sl];
               (j in s.mapInfo <==> j in u.mapInfo) && (j in s.mapInfo ==> s.mapInfo[j].nRefCount == u.mapInfo[j].nRefCount)
    ensures Victim(u, sl) - {id} == Victim(s, sl) - {id}
  {
    if sl in s.vvNew && s.vvNew[sl] == id {
      assert Victim(s, sl) <= {id} && Victim(u, sl) <= {id};
    } else {
      assert Victim(u, sl) == Victim(s, sl);
    }
  }

  /** Statistics do not matter to where an entry goes. */
  lemma StatsPlace(s: Book, u: Book, t: Book, id: int, sl: Slot, nNow: int)
    requires id in s.mapInfo && u.vvNew == s.vvNew && u.vvTried == s.vvTried && u.mapInfo.Keys == s.mapInfo.Keys
    requires s.mapInfo[id].nRefCount == u.mapInfo[id].nRefCount
    requires s.mapInfo[id].fInTried == u.mapInfo[id].fInTried
    requires forall j :: j in s.mapInfo && j != id ==> s.mapInfo[j] == u.mapInfo[j]
    ensures Takes(u, t, id, sl) ==> Takes(s, t, id, sl)
    ensures Stays(u, t, id) ==> Stays(s, t, id)
    ensures !(sl in s.vvNew && s.vvNew[sl] == id) ==> (Yields(u, sl, nNow, false) <==> Yields(s, sl, nNow, false))
  {
    SameVictim(s, u, id, sl);
  }

  lemma KnownEffect(env: Env, s: Book, addr: Address, source: NetAddr, penalty: int, nNow: int, roll: int)
    requires Consistent(env, s) && Known(s, addr.service.net) && env.routable(addr.service)
    requires s.mapInfo[s.mapAddr[addr.service.net]].Net() == addr.service.net
    ensures
      var id := s.mapAddr[addr.service.net];
      var info := Refresh(s.mapInfo[id], addr, penalty, nNow);
      var u := SetInfo(s, id, info);
      && Consistent(env, u)
      && if Welcome(info, addr, roll) then
           CanPlace(env, u, id, source)
           && TriedUntouched(s, Place(env, u, id, source, nNow))
           && (Consistent(env, Place(env, u, id, source, nNow)) ==> Announced(env, s, Place(env, u, id, source, nNow), addr, source, penalty, nNow, roll))
         else TriedUntouched(s, u) && Announced(env, s, u, addr, source, penalty, nNow, roll)
  {
    var id := s.mapAddr[addr.service.net];
    var info := Refresh(s.mapInfo[id], addr, penalty, nNow);
    var u := SetInfo(s, id, info);
    var sl := NewSlot(env, s.nKey, s.mapInfo[id], source);
    SameMarks(s.mapInfo, u.mapInfo);
    hide Inv, TriedIds, Place, CanPlace, Takes, Stays, Yields, Welcome, MayGrow, Refreshed, SameNode;
    StatsKeep(env, s, id, info);
    hide Refresh;
    ReferencesOk(env, s, id);
    SameSelf(info);
    RefreshIs(s.mapInfo[id], info, addr, penalty, nNow, roll);
    Unchanged(u, id, sl);
    if Welcome(info, addr, roll) {
      WelcomeTerms(info, addr, roll);
      WelcomeFits(env, u, id);
      PlaceEffect(env, u, {}, id, source, nNow);
      PlaceExact(env, u, {}, id, source, nNow);
      var t := Place(env, u, id, source, nNow);
      StatsPlace(s, u, t, id, sl, nNow);
      if Consistent(env, t) {
        StillThere(u, t, id, sl);
        StillKnown(env, t, id);
        StillNew(u, t, id);
        assert info.address == t.mapInfo[id].address by {
          SameAddress(info, t.mapInfo[id]);
        }
        RefreshIs(s.mapInfo[id], t.mapInfo[id], addr, penalty, nNow, roll);
      }
    } else {
      StatsPlace(s, u, u, id, sl, nNow);
    }
  }

  lemma SameSelf(a: AddrInfo)
    ensures SameNode(a, a)
  {
  }

  lemma SameAddress(a: AddrInfo, b: AddrInfo)
    requires SameNode(a, b)
    ensures a.address == b.address
  {
  }

  lemma StillNew(s: Book, t: Book, id: int)
    requires TriedUntouched(s, t) && id in s.mapInfo && id in t.mapInfo && !s.mapInfo[id].fInTried
    ensures !t.mapInfo[id].fInTried
  {
    assert id in TriedIds(t.mapInfo) <==> t.mapInfo[id].fInTried;
  }

  lemma WelcomeTerms(info: AddrInfo, addr: Address, roll: int)
    requires Welcome(info, addr, roll)
    ensures !info.fInTried && info.nRefCount != NEW_BUCKETS_PER_ADDRESS
  {
  }

  /** What the update and the test amount to, told from what is stored afterwards. */
  lemma RefreshIs(was: AddrInfo, now: AddrInfo, addr: Address, penalty: int, nNow: int, roll: int)
    requires SameNode(Refresh(was, addr, penalty, nNow), now) && now.fInTried == was.fInTried
    requires !was.fInTried ==> 1 <= was.nRefCount <= NEW_BUCKETS_PER_ADDRESS
    ensures Refreshed(was, now, addr, penalty, nNow)
    ensures Welcome(Refresh(was, addr, penalty, nNow), addr, roll) <==> MayGrow(was, now, addr, roll)
  {
  }

  lemma ReferencesOk(env: Env, s: Book, id: int)
    requires Consistent(env, s) && id in s.mapInfo
    ensures !s.mapInfo[id].fInTried ==> 1 <= s.mapInfo[id].nRefCount <= NEW_BUCKETS_PER_ADDRESS
  {
    assert EntryOk(s.mapInfo[id], id, s.vvNew, {});
  }

  lemma StillThere(s: Book, t: Book, id: int, sl: Slot)
    requires id in s.mapInfo && s.mapInfo[id].nRefCount > 0
    requires (Takes(s, t, id, sl) || (Stays(s, t, id) && id in t.mapInfo))
    ensures id in t.mapInfo
  {
  }

  lemma StillKnown(env: Env, t: Book, id: int)
    requires Consistent(env, t) && id in t.mapInfo
    ensures Known(t, t.mapInfo[id].Net()) && t.mapAddr[t.mapInfo[id].Net()] == id
  {
  }

  /** A fresh id, with the slots and the other entries as before. */
  lemma FreshPlace(env: Env, s: Book, u: Book, t: Book, sl: Slot, nNow: int)
    requires Consistent(env, s) && u.vvNew == s.vvNew && u.mapInfo.Keys == s.mapInfo.Keys + {s.nIdCount}
    requires forall j :: j in s.mapInfo ==> s.mapInfo[j] == u.mapInfo[j]
    ensures s.nIdCount !in s.mapInfo && !(sl in s.vvNew && s.vvNew[sl] == s.nIdCount)
    ensures Takes(u, t, s.nIdCount, sl) ==> Takes(s, t, s.nIdCount, sl)
    ensures Stays(u, t, s.nIdCount) ==> Stays(s, t, s.nIdCount)
    ensures Yields(u, sl, nNow, true) <==> Yields(s, sl, nNow, true)
  {
    SlotHolder(env, s, {}, sl);
    assert s.nIdCount !in s.mapInfo;
    hide Inv;
    SameVictim(s, u, s.nIdCount, sl);
    FreshRest(s, u, t, Victim(s, sl) - {s.nIdCount});
    FreshRest(s, u, t, {});
    hide Rest;
  }

  lemma FreshRest(s: Book, u: Book, t: Book, lost: set<int>)
    requires u.mapInfo.Keys == s.mapInfo.Keys + {s.nIdCount}
    requires forall j :: j in s.mapInfo ==> s.mapInfo[j] == u.mapInfo[j]
    ensures Rest(u, t, lost, s.nIdCount) ==> Rest(s, t, lost, s.nIdCount)
  {
    assert u.mapInfo.Keys - lost - {s.nIdCount} == s.mapInfo.Keys - lost - {s.nIdCount};
  }

  lemma UnknownEffect(env: Env, s: Book, addr: Address, source: NetAddr, penalty: int, nNow: int)
    requires Consistent(env, s) && !Known(s, addr.service.net) && addr.service.net !in s.mapAddr
    requires env.routable(addr.service)
    ensures
      var u := Introduce(s, addr, source, penalty);
      && CanPlace(env, u, s.nIdCount, source)
      && TriedUntouched(s, Place(env, u, s.nIdCount, source, nNow))
      && (Consistent(env, Place(env, u, s.nIdCount, source, nNow)) ==>
            forall roll :: Announced(env, s, Place(env, u, s.nIdCount, source, nNow), addr, source, penalty, nNow, roll))
  {
    IntroducedUntouched(env, s, addr, source, penalty);
    hide Inv, TriedIds, Place, CanPlace, Takes, Stays, Yields;
    var id, u := s.nIdCount, Introduce(s, addr, source, penalty);
    var sl := NewSlot(env, s.nKey, NewInfo(addr, source), source);
    IntroduceKeeps(env, s, addr, source, penalty);
    PlaceEffect(env, u, {id}, id, source, nNow);
    PlaceExact(env, u, {id}, id, source, nNow);
    var t := Place(env, u, id, source, nNow);
    FreshPlace(env, s, u, t, sl, nNow);
    if Consistent(env, t) {
      if id in t.mapInfo {
        StillKnown(env, t, id);
      } else {
        StillUnknown(env, s, t, addr.service.net, id);
      }
      if Takes(s, t, id, sl) {
        TakesHas(s, t, id, sl);
      }
    }
  }

  lemma IntroducedUntouched(env: Env, s: Book, addr: Address, source: NetAddr, penalty: int)
    requires Consistent(env, s)
    ensures TriedUntouched(s, Introduce(s, addr, source, penalty))
  {
  }

  lemma TakesHas(s: Book, t: Book, id: int, sl: Slot)
    requires Takes(s, t, id, sl)
    ensures id in t.mapInfo
  {
  }

  /** An address whose entry was dropped is not known. */
  lemma StillUnknown(env: Env, s: Book, t: Book, net: NetAddr, id: int)
    requires Consistent(env, s) && Consistent(env, t) && net !in s.mapAddr && id !in t.mapInfo && Stays(s, t, id)
    ensures !Known(t, net)
  {
    FindExact(env, t, net);
    if Known(t, net) {
      StillKnown(env, s, t.mapAddr[net]);
      assert false;
    }
  }

  lemma SameUntouched(s: Book)
    ensures TriedUntouched(s, s)
  {
  }
}
