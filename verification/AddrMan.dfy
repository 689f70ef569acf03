/** The address manager as the object it is: maps, a vector and two fixed tables updated in place,
    each method proved against the corresponding operation on values (src/addrman.cpp). */
module AddrMan {
  import opened AddrBook
  import opened Common
  import Ops = AddrOps

  /** The array holds the table, with -1 in every free slot. */
  ghost predicate Holds(a: array2<int>, t: Table)
    reads a
  {
    && (forall b, p :: 0 <= b < a.Length0 && 0 <= p < a.Length1 ==>
          a[b, p] == if (b, p) in t then t[(b, p)] else -1)
    && (forall sl :: sl in t ==> 0 <= sl.0 < a.Length0 && 0 <= sl.1 < a.Length1 && t[sl] != -1)
  }

  lemma Cell(a: array2<int>, t: Table, b: int, p: int)
    requires Holds(a, t) && 0 <= b < a.Length0 && 0 <= p < a.Length1
    ensures a[b, p] == if (b, p) in t then t[(b, p)] else -1
    ensures (b, p) in t ==> t[(b, p)] != -1
  {
  }

  method RandomInt(nMax: int) returns (r: int)
    requires nMax > 0
    ensures 0 <= r < nMax
  {
    r :| 0 <= r < nMax;
  }

  class AddrMan {
    const env: Env
    var nKey: Key
    var nIdCount: int
    var mapInfo: map<int, AddrInfo>
    var mapAddr: map<NetAddr, int>
    var vRandom: seq<int>
    var nTried: int
    const vvTried: array2<int>
    var nNew: int
    const vvNew: array2<int>
    var nLastGood: int
    ghost var triedSlots: Table
    ghost var newSlots: Table

    ghost predicate TablesHeld()
      reads this, vvTried, vvNew
    {
      && vvTried != vvNew
      && vvTried.Length0 == TRIED_BUCKET_COUNT && vvTried.Length1 == BUCKET_SIZE
      && vvNew.Length0 == NEW_BUCKET_COUNT && vvNew.Length1 == BUCKET_SIZE
      && Holds(vvTried, triedSlots) && Holds(vvNew, newSlots)
    }

    ghost function State(): Book
      reads this
    {
      Book(nKey, nIdCount, mapInfo, mapAddr, vRandom, nTried, triedSlots, nNew, newSlots, nLastGood)
    }

    ghost predicate Valid()
      reads this, vvTried, vvNew
    {
      TablesHeld() && Consistent(env, State())
    }

    constructor (env: Env, nKey: Key)
      ensures Valid() && State() == Ops.Fresh(nKey) && this.env == env
      ensures fresh(vvTried) && fresh(vvNew)
    {
      this.env := env;
      this.nKey := nKey;
      nIdCount, mapInfo, mapAddr, vRandom, nTried, nNew, nLastGood := 0, map[], map[], [], 0, 0, 1;
      triedSlots, newSlots := map[], map[];
      vvTried := new int[TRIED_BUCKET_COUNT, BUCKET_SIZE]((_, _) => -1);
      vvNew := new int[NEW_BUCKET_COUNT, BUCKET_SIZE]((_, _) => -1);
      new;
      Ops.FreshConsistent(env, nKey);
    }

    method SetNew(b: int, p: int, id: int)
      requires TablesHeld() && 0 <= b < NEW_BUCKET_COUNT && 0 <= p < BUCKET_SIZE && id != -1
      modifies vvNew, this`newSlots
      ensures TablesHeld() && newSlots == old(newSlots)[(b, p) := id]
    {
      vvNew[b, p] := id;
      newSlots := newSlots[(b, p) := id];
    }

    method FreeNew(b: int, p: int)
      requires TablesHeld() && 0 <= b < NEW_BUCKET_COUNT && 0 <= p < BUCKET_SIZE
      modifies vvNew, this`newSlots
      ensures TablesHeld() && newSlots == old(newSlots) - {(b, p)}
    {
      vvNew[b, p] := -1;
      newSlots := newSlots - {(b, p)};
    }

    method SetTried(b: int, p: int, id: int)
      requires TablesHeld() && 0 <= b < TRIED_BUCKET_COUNT && 0 <= p < BUCKET_SIZE && id != -1
      modifies vvTried, this`triedSlots
      ensures TablesHeld() && triedSlots == old(triedSlots)[(b, p) := id]
    {
      vvTried[b, p] := id;
      triedSlots := triedSlots[(b, p) := id];
    }

    method FreeTried(b: int, p: int)
      requires TablesHeld() && 0 <= b < TRIED_BUCKET_COUNT && 0 <= p < BUCKET_SIZE
      modifies vvTried, this`triedSlots
      ensures TablesHeld() && triedSlots == old(triedSlots) - {(b, p)}
    {
      vvTried[b, p] := -1;
      triedSlots := triedSlots - {(b, p)};
    }

    method Create(addr: Address, source: NetAddr) returns (nId: int)
      modifies this`nIdCount, this`mapInfo, this`mapAddr, this`vRandom
      ensures nId == old(nIdCount) && State() == AddrBook.Create(old(State()), addr, source)
    {
      nId := nIdCount;
      nIdCount := nIdCount + 1;
      mapInfo := mapInfo[nId := NewInfo(addr, source)];
      mapAddr := mapAddr[addr.service.net := nId];
      mapInfo := mapInfo[nId := mapInfo[nId].(nRandomPos := |vRandom|)];
      vRandom := vRandom + [nId];
    }

    method SwapRandom(nRndPos1: int, nRndPos2: int)
      requires 0 <= nRndPos1 < |vRandom| && 0 <= nRndPos2 < |vRandom|
      requires vRandom[nRndPos1] in mapInfo && vRandom[nRndPos2] in mapInfo
      modifies this`mapInfo, this`vRandom
      ensures State() == AddrBook.SwapRandom(old(State()), nRndPos1, nRndPos2)
    {
      if nRndPos1 == nRndPos2 {
        return;
      }
      var nId1, nId2 := vRandom[nRndPos1], vRandom[nRndPos2];
      mapInfo := mapInfo[nId1 := mapInfo[nId1].(nRandomPos := nRndPos2)];
      mapInfo := mapInfo[nId2 := mapInfo[nId2].(nRandomPos := nRndPos1)];
      vRandom := vRandom[nRndPos1 := nId2];
      vRandom := vRandom[nRndPos2 := nId1];
    }

    method Delete(nId: int)
      requires CanDelete(State(), nId)
      requires !mapInfo[nId].fInTried && mapInfo[nId].nRefCount == 0
      modifies this`mapInfo, this`mapAddr, this`vRandom, this`nNew
      ensures State() == AddrBook.Delete(old(State()), nId)
    {
      SwapRandom(mapInfo[nId].nRandomPos, |vRandom| - 1);
      vRandom := vRandom[..|vRandom| - 1];
      mapAddr := mapAddr - {mapInfo[nId].Net()};
      mapInfo := mapInfo - {nId};
      nNew := nNew - 1;
    }

    method ClearNew(nUBucket: int, nUBucketPos: int, ghost limbo: set<int>, ghost owed: int)
      requires TablesHeld() && Inv(env, State(), limbo, owed)
      requires 0 <= nUBucket < NEW_BUCKET_COUNT && 0 <= nUBucketPos < BUCKET_SIZE
      modifies vvNew, this`newSlots, this`mapInfo, this`mapAddr, this`vRandom, this`nNew
      ensures TablesHeld() && Inv(env, State(), limbo, owed)
      ensures CanClear(old(State()), (nUBucket, nUBucketPos))
      ensures State() == AddrBook.ClearNew(old(State()), (nUBucket, nUBucketPos))
    {
      hide Inv;
      ghost var sl := (nUBucket, nUBucketPos);
      ClearNewKeeps(env, State(), limbo, owed, sl);
      if vvNew[nUBucket, nUBucketPos] != -1 {
        DropSlotKeeps(env, State(), limbo, owed, sl);
        var nIdDelete := vvNew[nUBucket, nUBucketPos];
        assert mapInfo[nIdDelete].nRefCount > 0;
        mapInfo := mapInfo[nIdDelete := mapInfo[nIdDelete].(nRefCount := mapInfo[nIdDelete].nRefCount - 1)];
        FreeNew(nUBucket, nUBucketPos);
        assert State() == DropSlot(old(State()), sl);
        if mapInfo[nIdDelete].nRefCount == 0 {
          Delete(nIdDelete);
        }
      }
    }

    /** The loop over all new buckets that takes an entry out of them. */
    method LeaveNewBuckets(nId: int, service: Service, nRefCountIn: int) returns (nRefCount: int)
      requires TablesHeld() && nId >= 0
      requires forall sl :: sl in SlotsOf(newSlots, nId) ==>
                 (0 <= sl.0 < NEW_BUCKET_COUNT && sl.1 == env.position(nKey, true, sl.0, service))
      modifies vvNew, this`newSlots
      ensures TablesHeld() && newSlots == old(newSlots) - SlotsOf(old(newSlots), nId)
      ensures nRefCount == nRefCountIn - |SlotsOf(old(newSlots), nId)|
    {
      ghost var t, slots := newSlots, SlotsOf(newSlots, nId);
      InBucketsAll(slots);
      hide Holds, SlotsOf, InBuckets;
      nRefCount := nRefCountIn;
      for bucket := 0 to NEW_BUCKET_COUNT
        invariant TablesHeld() && newSlots == t - InBuckets(slots, bucket)
        invariant nRefCount == nRefCountIn - |InBuckets(slots, bucket)|
      {
        var pos := env.position(nKey, true, bucket, service);
        InBucketsStep(t, slots, bucket, pos);
        Cell(vvNew, newSlots, bucket, pos);
        SlotsAt(t, nId, (bucket, pos));
        if vvNew[bucket, pos] == nId {
          FreeNew(bucket, pos);
          nRefCount := nRefCount - 1;
        }
      }
    }

    method LeaveNewTable(nId: int)
      requires Valid() && nId in mapInfo && !mapInfo[nId].fInTried
      modifies vvNew, this`newSlots, this`mapInfo, this`nNew
      ensures TablesHeld() && State() == LeaveNew(old(State()), nId)
      ensures Inv(env, State(), {nId}, 1)
    {
      hide Inv, LeaveNew, Holds, SlotsOf;
      ghost var s := State();
      LeaveNewKeeps(env, s, nId);
      SlotsPlaced(env, s, nId);
      var nRefCount := LeaveNewBuckets(nId, mapInfo[nId].address.service, mapInfo[nId].nRefCount);
      mapInfo := mapInfo[nId := mapInfo[nId].(nRefCount := nRefCount)];
      nNew := nNew - 1;
      LeaveNewIs(s, nId, State());
    }

    method MakeTried(nId: int)
      requires Valid() && nId in mapInfo && !mapInfo[nId].fInTried && mapInfo[nId].nLastSuccess != 0
      modifies vvNew, vvTried, this`newSlots, this`triedSlots, this`mapInfo, this`mapAddr, this`vRandom, this`nNew, this`nTried
      ensures Valid() && CanMakeTried(env, old(State()), nId)
      ensures State() == AddrBook.MakeTried(env, old(State()), nId)
    {
      ghost var s0 := State();
      hide Inv, Holds, LeaveNew, Evict, CanEvict;
      MakeTriedKeeps(env, s0, nId);
      LeaveNewTable(nId);
      ghost var s := State();
      LimboCleared(env, s, {nId}, 1, nId);
      LeaveNewSame(s0, nId);
      assert mapInfo[nId].nRefCount == 0;
      var nKBucket := env.triedBucket(nKey, mapInfo[nId].address.service);
      var nKBucketPos := env.position(nKey, false, nKBucket, mapInfo[nId].address.service);
      EvictSlot(nKBucket, nKBucketPos, nId);
      Cell(vvTried, triedSlots, nKBucket, nKBucketPos);
      assert vvTried[nKBucket, nKBucketPos] == -1;
      LimboCleared(env, State(), {nId}, 1, nId);
      SetTried(nKBucket, nKBucketPos, nId);
      nTried := nTried + 1;
      mapInfo := mapInfo[nId := mapInfo[nId].(fInTried := true)];
    }

    /** Puts an entry that is in no table into a new slot. */
    method Register(b: int, p: int, id: int)
      requires TablesHeld() && 0 <= b < NEW_BUCKET_COUNT && 0 <= p < BUCKET_SIZE && id != -1 && id in mapInfo
      modifies vvNew, this`newSlots, this`mapInfo, this`nNew
      ensures TablesHeld()
      ensures State() == old(State()).(mapInfo := old(mapInfo)[id := old(mapInfo)[id].(nRefCount := 1)],
                                       vvNew := old(newSlots)[(b, p) := id], nNew := old(nNew) + 1)
    {
      mapInfo := mapInfo[id := mapInfo[id].(nRefCount := 1)];
      SetNew(b, p, id);
      nNew := nNew + 1;
    }

    /** Moves the tried entry in the slot, if any, back to the new table. */
    method EvictSlot(nKBucket: int, nKBucketPos: int, ghost nId: int)
      requires TablesHeld() && Inv(env, State(), {nId}, 1)
      requires 0 <= nKBucket < TRIED_BUCKET_COUNT && 0 <= nKBucketPos < BUCKET_SIZE
      modifies vvNew, vvTried, this`newSlots, this`triedSlots, this`mapInfo, this`mapAddr, this`vRandom, this`nNew, this`nTried
      ensures TablesHeld() && CanEvict(env, old(State()), (nKBucket, nKBucketPos))
      ensures State() == Evict(env, old(State()), (nKBucket, nKBucketPos))
      ensures Inv(env, State(), {nId}, 1) && (nKBucket, nKBucketPos) !in triedSlots
    {
      hide Inv, Holds, Evict, CanEvict, CanClear, AddrBook.ClearNew, LeaveTried;
      ghost var s, sl := State(), (nKBucket, nKBucketPos);
      EvictKeeps(env, s, {nId}, 1, sl);
      Cell(vvTried, triedSlots, nKBucket, nKBucketPos);
      if vvTried[nKBucket, nKBucketPos] != -1 {
        LeaveTriedKeeps(env, s, {nId}, 1, sl);
        var nIdEvict := vvTried[nKBucket, nKBucketPos];
        assert nIdEvict in mapInfo;
        var infoOld := mapInfo[nIdEvict];
        mapInfo := mapInfo[nIdEvict := infoOld.(fInTried := false)];
        FreeTried(nKBucket, nKBucketPos);
        nTried := nTried - 1;
        LeaveTriedIs(s, sl, State());
        ghost var s1 := State();
        var nUBucket := env.newBucket(nKey, infoOld.address.service, infoOld.source);
        var nUBucketPos := env.position(nKey, true, nUBucket, infoOld.address.service);
        ClearNewKeeps(env, s1, {nId} + {nIdEvict}, 2, (nUBucket, nUBucketPos));
        ClearNew(nUBucket, nUBucketPos, {nId} + {nIdEvict}, 2);
        ghost var s2 := State();
        Cell(vvNew, newSlots, nUBucket, nUBucketPos);
        assert vvNew[nUBucket, nUBucketPos] == -1;
        LimboCleared(env, s2, {nId} + {nIdEvict}, 2, nIdEvict);
        Register(nUBucket, nUBucketPos, nIdEvict);
        EvictIs(env, s, sl, (nUBucket, nUBucketPos), State());
      } else {
        EvictNothing(env, s, sl);
      }
    }

    /** Marks an entry good. The exit taken when no bucket holds the entry is unreachable. */
    method Good(addr: Service, nTime: int)
      requires Valid() && nTime > 0
      modifies this, vvNew, vvTried
      ensures Valid() && State() == Ops.Good(env, old(State()), addr, nTime)
    {
      hide Inv, Holds, AddrBook.MakeTried, CanMakeTried;
      ghost var s := State();
      Ops.GoodKeeps(env, s, addr, nTime);
      nLastGood := nTime;
      Ops.FindExact(env, s, addr.net);
      if addr.net !in mapAddr || mapAddr[addr.net] !in mapInfo {
        return;
      }
      var nId := mapAddr[addr.net];
      var info := mapInfo[nId];
      if info.address.service != addr {
        return;
      }
      info := info.(nLastSuccess := nTime, nLastTry := nTime, nAttempts := 0);
      mapInfo := mapInfo[nId := info];
      if info.fInTried {
        return;
      }
      Ops.LastGoodKeeps(env, s, nTime);
      Ops.StatsKeep(env, s.(nLastGood := nTime), nId, info);
      var nUBucket := FindBucket(nId);
      assert nUBucket != -1;
      MakeTried(nId);
    }

    /** The bucket search of Good, from a random start around all buckets. */
    method FindBucket(nId: int) returns (nUBucket: int)
      requires Valid() && nId in mapInfo && !mapInfo[nId].fInTried
      ensures 0 <= nUBucket < NEW_BUCKET_COUNT
      ensures
        var sl := (nUBucket, env.position(nKey, true, nUBucket, mapInfo[nId].address.service));
        sl in newSlots && newSlots[sl] == nId
    {
      hide Inv, Holds;
      Ops.BucketIsFound(env, State(), nId);
      var service := mapInfo[nId].address.service;
      ghost var b0 :| 0 <= b0 < NEW_BUCKET_COUNT
        && (b0, env.position(nKey, true, b0, service)) in newSlots
        && newSlots[(b0, env.position(nKey, true, b0, service))] == nId;
      Cell(vvNew, newSlots, b0, env.position(nKey, true, b0, service));
      var nRnd := RandomInt(NEW_BUCKET_COUNT);
      ghost var n0 := (b0 - nRnd + NEW_BUCKET_COUNT) % NEW_BUCKET_COUNT;
      for n := 0 to NEW_BUCKET_COUNT
        invariant n <= n0
      {
        var nB := (n + nRnd) % NEW_BUCKET_COUNT;
        var nBpos := env.position(nKey, true, nB, service);
        Cell(vvNew, newSlots, nB, nBpos);
        if vvNew[nB, nBpos] == nId {
          return nB;
        }
        assert n == n0 ==> nB == b0;
      }
      assert false;
    }

    /** Adds an announced address; `roll` is the random number drawn, if any was. */
    method Add(addr: Address, source: NetAddr, nTimePenaltyIn: int, nNow: int) returns (fNew: bool, ghost roll: int)
      requires Valid()
      modifies this, vvNew
      ensures Valid() && (State(), fNew) == Ops.Add(env, old(State()), addr, source, nTimePenaltyIn, nNow, roll)
    {
      hide Inv, Holds, Ops.Place, Ops.CanPlace, Ops.Introduce, Ops.Refresh;
      ghost var s := State();
      roll := 0;
      if !env.routable(addr.service) {
        return false, 0;
      }
      Ops.FindExact(env, s, addr.service.net);
      var nTimePenalty := if addr.service.net == source then 0 else nTimePenaltyIn;
      if addr.service.net in mapAddr {
        var nId := mapAddr[addr.service.net];
        RefreshEntry(nId, addr, nTimePenalty, nNow);
        var info := mapInfo[nId];
        Ops.StatsKeep(env, s, nId, info);
        if addr.nTime == 0 || (info.address.nTime != 0 && addr.nTime <= info.address.nTime) {
          return false, 0;
        }
        if info.fInTried {
          return false, 0;
        }
        if info.nRefCount == NEW_BUCKETS_PER_ADDRESS {
          return false, 0;
        }
        RefsCounted(env, State(), nId);
        var lucky;
        lucky, roll := Stochastic(info.nRefCount);
        if !lucky {
          return false, roll;
        }
        Ops.WelcomeFits(env, State(), nId);
        PlaceEntry(nId, source, nNow, {});
        fNew := false;
      } else {
        Ops.IntroduceKeeps(env, s, addr, source, nTimePenalty);
        var nId := NewEntry(addr, source, nTimePenalty);
        PlaceEntry(nId, source, nNow, {nId});
        fNew := true;
      }
    }

    /** Takes over the newer time and the services of an announcement. */
    method RefreshEntry(nId: int, addr: Address, nTimePenalty: int, nNow: int)
      requires nId in mapInfo
      modifies this`mapInfo
      ensures nId in mapInfo && mapInfo[nId] == Ops.Refresh(old(mapInfo[nId]), addr, nTimePenalty, nNow)
      ensures State() == SetInfo(old(State()), nId, mapInfo[nId])
      ensures Ops.StatsOnly(old(mapInfo[nId]), mapInfo[nId])
      ensures Ops.Refreshed(old(mapInfo[nId]), mapInfo[nId], addr, nTimePenalty, nNow)
    {
      var info := mapInfo[nId];
      var fCurrentlyOnline := nNow - addr.nTime < 24 * 60 * 60;
      var nUpdateInterval := if fCurrentlyOnline then 60 * 60 else 24 * 60 * 60;
      if addr.nTime != 0 && (info.address.nTime == 0 || info.address.nTime < addr.nTime - nUpdateInterval - nTimePenalty) {
        info := info.(address := info.address.(nTime := Max(0, addr.nTime - nTimePenalty)));
      }
      info := info.(address := info.address.(nServices := info.address.nServices + addr.nServices));
      mapInfo := mapInfo[nId := info];
    }

    method NewEntry(addr: Address, source: NetAddr, nTimePenalty: int) returns (nId: int)
      modifies this`nIdCount, this`mapInfo, this`mapAddr, this`vRandom, this`nNew
      ensures nId == old(nIdCount) && State() == Ops.Introduce(old(State()), addr, source, nTimePenalty)
      ensures nId in mapInfo && !mapInfo[nId].fInTried && mapInfo[nId].nRefCount == 0
      ensures Ops.Introduced(mapInfo[nId], addr, source, nTimePenalty)
    {
      nId := Create(addr, source);
      var info := mapInfo[nId];
      mapInfo := mapInfo[nId := info.(address := info.address.(nTime := Max(0, info.address.nTime - nTimePenalty)))];
      nNew := nNew + 1;
    }

    /** Puts the entry into the bucket for this source, unless a better one has the slot. */
    method PlaceEntry(nId: int, source: NetAddr, nNow: int, ghost limbo: set<int>)
      requires TablesHeld() && Inv(env, State(), limbo, 0) && nId in mapInfo && limbo <= {nId}
      requires !mapInfo[nId].fInTried && mapInfo[nId].nRefCount < NEW_BUCKETS_PER_ADDRESS
      modifies this, vvNew
      ensures Valid() && Ops.CanPlace(env, old(State()), nId, source)
      ensures State() == Ops.Place(env, old(State()), nId, source, nNow)
    {
      hide Inv, Holds, CanDelete, CanClear, AddrBook.ClearNew, AddrBook.Delete;
      ghost var s := State();
      Ops.PlaceKeeps(env, s, limbo, nId, source, nNow);
      KnownIds(env, s, limbo, nId);
      var nUBucket := env.newBucket(nKey, mapInfo[nId].address.service, source);
      var nUBucketPos := env.position(nKey, true, nUBucket, mapInfo[nId].address.service);
      Cell(vvNew, newSlots, nUBucket, nUBucketPos);
      if vvNew[nUBucket, nUBucketPos] != nId {
        var fInsert := vvNew[nUBucket, nUBucketPos] == -1;
        if !fInsert {
          var infoExisting := mapInfo[vvNew[nUBucket, nUBucketPos]];
          if infoExisting.IsTerrible(nNow) || (infoExisting.nRefCount > 1 && mapInfo[nId].nRefCount == 0) {
            fInsert := true;
          }
        }
        if fInsert {
          ClearNew(nUBucket, nUBucketPos, limbo, 0);
          mapInfo := mapInfo[nId := mapInfo[nId].(nRefCount := mapInfo[nId].nRefCount + 1)];
          SetNew(nUBucket, nUBucketPos, nId);
        } else if mapInfo[nId].nRefCount == 0 {
          Delete(nId);
        }
      }
    }

    method Attempt(addr: Service, fCountFailure: bool, nTime: int)
      requires Valid() && nTime >= 0
      modifies this`mapInfo
      ensures Valid() && State() == Ops.Step(env, old(State()), Ops.OpAttempt(addr, fCountFailure, nTime))
    {
      hide Inv, Holds;
      ghost var s := State();
      Ops.StepKeeps(env, s, Ops.OpAttempt(addr, fCountFailure, nTime));
      if addr.net in mapAddr && mapAddr[addr.net] in mapInfo {
        var nId := mapAddr[addr.net];
        var info := mapInfo[nId];
        if info.address.service == addr {
          info := info.(nLastTry := nTime);
          if fCountFailure && info.nLastCountAttempt < nLastGood {
            info := info.(nLastCountAttempt := nTime, nAttempts := info.nAttempts + 1);
          }
          mapInfo := mapInfo[nId := info];
        }
      }
    }

    method Connected(addr: Service, nTime: int)
      requires Valid()
      modifies this`mapInfo
      ensures Valid() && State() == Ops.Step(env, old(State()), Ops.OpConnected(addr, nTime))
    {
      hide Inv, Holds;
      ghost var s := State();
      Ops.StepKeeps(env, s, Ops.OpConnected(addr, nTime));
      if addr.net in mapAddr && mapAddr[addr.net] in mapInfo {
        var nId := mapAddr[addr.net];
        var info := mapInfo[nId];
        if info.address.service == addr {
          var nUpdateInterval := 20 * 60;
          if nTime - info.address.nTime > nUpdateInterval {
            info := info.(address := info.address.(nTime := nTime));
          }
          mapInfo := mapInfo[nId := info];
        }
      }
    }

    method SetServices(addr: Service, nServices: ServiceFlags)
      requires Valid()
      modifies this`mapInfo
      ensures Valid() && State() == Ops.Step(env, old(State()), Ops.OpSetServices(addr, nServices))
    {
      hide Inv, Holds;
      ghost var s := State();
      Ops.StepKeeps(env, s, Ops.OpSetServices(addr, nServices));
      if addr.net in mapAddr && mapAddr[addr.net] in mapInfo {
        var nId := mapAddr[addr.net];
        var info := mapInfo[nId];
        if info.address.service == addr {
          info := info.(address := info.address.(nServices := nServices));
          mapInfo := mapInfo[nId := info];
        }
      }
    }

    /** One random step of GetAddr. */
    method Shuffle(n: int)
      requires Valid() && 0 <= n < |vRandom|
      modifies this`mapInfo, this`vRandom
      ensures Valid() && |vRandom| == |old(vRandom)| && vRandom[..n] == old(vRandom)[..n]
      ensures SameNodes(old(mapInfo), mapInfo)
      ensures vRandom[n] in mapInfo && vRandom[n] !in vRandom[..n]
    {
      hide Inv, Holds;
      var nRndPos := RandomInt(|vRandom| - n);
      nRndPos := nRndPos + n;
      SwapRandomKeeps(env, State(), {}, 0, n, nRndPos);
      SwapRandom(n, nRndPos);
      OrderDistinct(env, State(), n);
    }

    /** A random choice of stored addresses: distinct entries of good quality, at most 23% of all and
        2500; fewer only when there are no more of good quality. */
    method GetAddr(nNow: int) returns (vAddr: seq<Address>, ghost ids: seq<int>)
      requires Valid()
      modifies this`mapInfo, this`vRandom
      ensures Valid() && SameNodes(old(mapInfo), mapInfo)
      ensures |ids| == |vAddr| <= 2500 && |vAddr| <= 23 * |old(vRandom)| / 100
      ensures forall i, j :: 0 <= i < j < |ids| ==> ids[i] != ids[j]
      ensures forall i :: 0 <= i < |ids| ==>
                ids[i] in mapInfo && vAddr[i] == mapInfo[ids[i]].address && !mapInfo[ids[i]].IsTerrible(nNow)
      ensures |vAddr| < 2500 && |vAddr| < 23 * |old(vRandom)| / 100 ==>
                forall id :: id in mapInfo && !mapInfo[id].IsTerrible(nNow) ==> id in ids
    {
      hide Valid, AddrInfo.IsTerrible;
      var nNodes := 23 * |vRandom| / 100;
      if nNodes > 2500 {
        nNodes := 2500;
      }
      vAddr, ids := [], [];
      ghost var m0 := mapInfo;
      var n := 0;
      while n < |vRandom|
        invariant 0 <= n <= |vRandom| == |old(vRandom)| && Valid()
        invariant SameNodes(m0, mapInfo) && |ids| == |vAddr| <= nNodes
        invariant Chosen(mapInfo, ids, vAddr, vRandom[..n], nNow)
      {
        if |vAddr| >= nNodes {
          break;
        }
        ghost var before, m := vRandom[..n], mapInfo;
        Shuffle(n);
        ChosenKept(m, mapInfo, ids, vAddr, before, nNow);
        ghost var ids0, v0 := ids, vAddr;
        assert vRandom[..n + 1] == before + [vRandom[n]];
        if !mapInfo[vRandom[n]].IsTerrible(nNow) {
          vAddr := vAddr + [mapInfo[vRandom[n]].address];
          ids := ids + [vRandom[n]];
        }
        ChosenNext(mapInfo, ids0, v0, before, vRandom[n], nNow);
        n := n + 1;
      }
      if n == |vRandom| {
        assert vRandom[..n] == vRandom;
        OrderComplete(this);
      }
    }
  }

  /** The entries are the same up to their place in vRandom. */
  ghost predicate SameNodes(a: map<int, AddrInfo>, b: map<int, AddrInfo>) {
    a.Keys == b.Keys && forall id :: id in a ==> SameFacts(b[id], a[id])
  }

  /** `ids` picks out of `seen` exactly the good entries, each once, and `vAddr` has their addresses. */
  ghost predicate Chosen(m: map<int, AddrInfo>, ids: seq<int>, vAddr: seq<Address>, seen: seq<int>, nNow: int) {
    && |ids| == |vAddr|
    && (forall i, j :: 0 <= i < j < |ids| ==> ids[i] != ids[j])
    && (forall i :: 0 <= i < |ids| ==>
          ids[i] in seen && ids[i] in m && vAddr[i] == m[ids[i]].address && !m[ids[i]].IsTerrible(nNow))
    && (forall id :: id in seen ==> id in m && (!m[id].IsTerrible(nNow) ==> id in ids))
  }

  lemma ChosenKept(m: map<int, AddrInfo>, m': map<int, AddrInfo>, ids: seq<int>, vAddr: seq<Address>, seen: seq<int>,
                   nNow: int)
    requires Chosen(m, ids, vAddr, seen, nNow) && SameNodes(m, m')
    ensures Chosen(m', ids, vAddr, seen, nNow)
  {
    forall id | id in m
      ensures id in m' && m'[id].address == m[id].address && m'[id].IsTerrible(nNow) == m[id].IsTerrible(nNow)
    {
      assert SameFacts(m'[id], m[id]);
    }
  }

  lemma ChosenNext(m: map<int, AddrInfo>, ids: seq<int>, vAddr: seq<Address>, seen: seq<int>, id: int, nNow: int)
    requires Chosen(m, ids, vAddr, seen, nNow) && id in m && id !in seen
    ensures if m[id].IsTerrible(nNow) then Chosen(m, ids, vAddr, seen + [id], nNow)
            else Chosen(m, ids + [id], vAddr + [m[id].address], seen + [id], nNow)
  {
    hide AddrInfo.IsTerrible;
  }

  lemma OrderDistinct(env: Env, s: Book, n: int)
    requires Consistent(env, s) && 0 <= n < |s.vRandom|
    ensures s.vRandom[n] in s.mapInfo && s.vRandom[n] !in s.vRandom[..n]
  {
    assert s.mapInfo[s.vRandom[n]].nRandomPos == n;
  }

  lemma OrderComplete(a: AddrMan)
    requires a.Valid()
    ensures forall id :: id in a.mapInfo ==> id in a.vRandom
  {
  }

  /** Every id a table or an index mentions is known. */
  lemma KnownIds(env: Env, s: Book, limbo: set<int>, id: int)
    requires Inv(env, s, limbo, 0) && id in s.mapInfo
    ensures id >= 0
    ensures forall sl :: sl in s.vvNew ==> s.vvNew[sl] in s.mapInfo
  {
  }

  lemma RefsCounted(env: Env, s: Book, id: int)
    requires Consistent(env, s) && id in s.mapInfo
    ensures s.mapInfo[id].nRefCount >= 0
  {
    assert EntryOk(s.mapInfo[id], id, s.vvNew, {});
  }

  /** An entry with N references is taken up again with probability 1 in 2^N. */
  method Stochastic(nRefCount: nat) returns (lucky: bool, roll: int)
    ensures 0 <= roll < Pow2(nRefCount) && (lucky <==> roll == 0)
  {
    var nFactor, n := 1, 0;
    while n < nRefCount
      invariant n <= nRefCount && nFactor == Pow2(n)
    {
      nFactor, n := nFactor * 2, n + 1;
    }
    roll := RandomInt(nFactor);
    lucky := !(nFactor > 1 && roll != 0);
  }

  lemma EvictNothing(env: Env, s: Book, sl: Slot)
    requires sl !in s.vvTried
    ensures CanEvict(env, s, sl) && Evict(env, s, sl) == s
  {
  }

  lemma EvictIs(env: Env, s: Book, sl: Slot, ns: Slot, t: Book)
    requires sl in s.vvTried && CanEvict(env, s, sl)
    requires var id := s.vvTried[sl]; ns == NewSlot(env, s.nKey, s.mapInfo[id], s.mapInfo[id].source)
    requires
      var u := ClearNew(LeaveTried(s, sl), ns);
      var id := s.vvTried[sl];
      u.mapInfo[id].nRefCount == 0
      && t == u.(mapInfo := u.mapInfo[id := u.mapInfo[id].(nRefCount := 1)], vvNew := u.vvNew[ns := id], nNew := u.nNew + 1)
    ensures t == Evict(env, s, sl)
  {
  }

  lemma LeaveTriedIs(s: Book, sl: Slot, t: Book)
    requires sl in s.vvTried && s.vvTried[sl] in s.mapInfo
    requires t.mapInfo == s.mapInfo[s.vvTried[sl] := s.mapInfo[s.vvTried[sl]].(fInTried := false)]
    requires t == s.(mapInfo := t.mapInfo, vvTried := s.vvTried - {sl}, nTried := s.nTried - 1)
    ensures t == LeaveTried(s, sl)
  {
  }

  lemma LeaveNewSame(s: Book, id: int)
    requires id in s.mapInfo
    ensures LeaveNew(s, id).nKey == s.nKey
    ensures LeaveNew(s, id).mapInfo[id].address == s.mapInfo[id].address
  {
  }

  ghost function InBuckets(slots: set<Slot>, n: int): set<Slot> {
    set sl | sl in slots && sl.0 < n
  }

  lemma InBucketsStep(t: Table, slots: set<Slot>, n: int, p: int)
    requires forall sl :: sl in slots && sl.0 == n ==> sl.1 == p
    ensures InBuckets(slots, n + 1) == if (n, p) in slots then InBuckets(slots, n) + {(n, p)} else InBuckets(slots, n)
    ensures (n, p) !in InBuckets(slots, n)
    ensures (n, p) in slots ==> |InBuckets(slots, n + 1)| == |InBuckets(slots, n)| + 1
    ensures (n, p) in slots ==> t - InBuckets(slots, n + 1) == t - InBuckets(slots, n) - {(n, p)}
    ensures (n, p) in t - InBuckets(slots, n) <==> (n, p) in t
  {
  }

  lemma InBucketsAll(slots: set<Slot>)
    requires forall sl :: sl in slots ==> 0 <= sl.0 < NEW_BUCKET_COUNT
    ensures InBuckets(slots, NEW_BUCKET_COUNT) == slots && InBuckets(slots, 0) == {}
  {
  }

  lemma SlotsPlaced(env: Env, s: Book, id: int)
    requires Consistent(env, s) && id in s.mapInfo
    ensures forall sl :: sl in SlotsOf(s.vvNew, id) ==>
              (0 <= sl.0 < NEW_BUCKET_COUNT && sl.1 == env.position(s.nKey, true, sl.0, s.mapInfo[id].address.service))
    ensures id >= 0
  {
  }

  lemma SlotsAt(t: Table, id: int, sl: Slot)
    ensures sl in SlotsOf(t, id) <==> sl in t && t[sl] == id
  {
  }

  lemma LeaveNewIs(s: Book, id: int, t: Book)
    requires id in s.mapInfo
    requires t.vvNew == s.vvNew - SlotsOf(s.vvNew, id)
    requires t.mapInfo == s.mapInfo[id := s.mapInfo[id].(nRefCount := s.mapInfo[id].nRefCount - |SlotsOf(s.vvNew, id)|)]
    requires t == s.(vvNew := t.vvNew, mapInfo := t.mapInfo, nNew := s.nNew - 1)
    ensures t == LeaveNew(s, id)
  {
  }
}
