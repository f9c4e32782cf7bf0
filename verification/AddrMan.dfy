/**
 CAddrMan: the peer address table with its two bucket arrays.  Every operation is proved to
 change the contents as the corresponding function of AddrBook says; the asserts of the
 source are asserts here.
 */
module AddrMan {
  import opened Arith
  import opened AddrBook

  const GETADDR_MAX_PCT := 23
  const GETADDR_MAX := 2500

  /** The occupied slots of a bucket array. */
  ghost predicate Holds(a: array2<int>, slots: map<Slot, int>)
    reads a
  {
    && (forall s | s in slots :: 0 <= s.0 < a.Length0 && 0 <= s.1 < a.Length1 && slots[s] != -1)
    && (forall b, p | 0 <= b < a.Length0 && 0 <= p < a.Length1 ::
          a[b, p] == if (b, p) in slots then slots[(b, p)] else -1)
  }

  class AddrMan {
    const h: Hashes
    const vvTried: array2<int>
    const vvNew: array2<int>
    ghost var triedSlots: map<Slot, int>
    ghost var newSlots: map<Slot, int>
    var nIdCount: int
    var mapInfo: map<int, AddrInfo>
    var mapAddr: map<NetAddr, int>
    var vRandom: seq<int>
    var nTried: int
    var nNew: int
    var nLastGood: int

    ghost function Contents(): Book
      reads this
    {
      Book(nIdCount, mapInfo, mapAddr, vRandom, nTried, triedSlots, nNew, newSlots, nLastGood)
    }

    /** The bucket arrays hold what the tables of the contents say. */
    ghost predicate Backed()
      reads this`triedSlots, this`newSlots, vvNew, vvTried
    {
      && vvTried != vvNew
      && vvTried.Length0 == TRIED_BUCKET_COUNT && vvTried.Length1 == BUCKET_SIZE
      && vvNew.Length0 == NEW_BUCKET_COUNT && vvNew.Length1 == BUCKET_SIZE
      && Holds(vvTried, triedSlots) && Holds(vvNew, newSlots)
    }

    ghost predicate Valid()
      reads this, vvNew, vvTried
    {
      Backed() && Inv(h, Contents())
    }

    constructor (h: Hashes)
      ensures Valid() && fresh(vvNew) && fresh(vvTried) && this.h == h
      ensures Contents() == EMPTY
    {
      this.h := h;
      vvTried := new int[TRIED_BUCKET_COUNT, BUCKET_SIZE]((i, j) => -1);
      vvNew := new int[NEW_BUCKET_COUNT, BUCKET_SIZE]((i, j) => -1);
      triedSlots, newSlots := map[], map[];
      nIdCount, mapInfo, mapAddr, vRandom := 0, map[], map[], [];
      nTried, nNew, nLastGood := 0, 0, 1;
      new;
      EmptyInv(h);
    }

    function NewAt(b: int, p: int): (n: int)
      requires Backed() && 0 <= b < NEW_BUCKET_COUNT && 0 <= p < BUCKET_SIZE
      reads this, vvNew, vvTried
      ensures n != -1 <==> (b, p) in newSlots
      ensures n != -1 ==> n == newSlots[(b, p)]
    {
      vvNew[b, p]
    }

    method SetNew(b: int, p: int, n: int)
      requires Backed() && 0 <= b < NEW_BUCKET_COUNT && 0 <= p < BUCKET_SIZE
      modifies vvNew, this`newSlots
      ensures Backed()
      ensures newSlots == if n == -1 then old(newSlots) - {(b, p)} else old(newSlots)[(b, p) := n]
    {
      vvNew[b, p] := n;
      newSlots := if n == -1 then newSlots - {(b, p)} else newSlots[(b, p) := n];
    }

    function TriedAt(b: int, p: int): (n: int)
      requires Backed() && 0 <= b < TRIED_BUCKET_COUNT && 0 <= p < BUCKET_SIZE
      reads this, vvNew, vvTried
      ensures n != -1 <==> (b, p) in triedSlots
      ensures n != -1 ==> n == triedSlots[(b, p)]
    {
      vvTried[b, p]
    }

    method SetTriedSlot(b: int, p: int, n: int)
      requires Backed() && 0 <= b < TRIED_BUCKET_COUNT && 0 <= p < BUCKET_SIZE
      modifies vvTried, this`triedSlots
      ensures Backed()
      ensures triedSlots == if n == -1 then old(triedSlots) - {(b, p)} else old(triedSlots)[(b, p) := n]
    {
      vvTried[b, p] := n;
      triedSlots := if n == -1 then triedSlots - {(b, p)} else triedSlots[(b, p) := n];
    }

    /** Find: the id and entry for a network address. */
    method Find(ip: NetAddr) returns (found: bool, nId: int)
      requires AddrsOk(Contents())
      ensures found <==> ip in mapAddr
      ensures found ==> nId == mapAddr[ip] && nId in mapInfo && mapInfo[nId].service.ip == ip
    {
      found, nId := false, -1;
      if ip in mapAddr {
        nId := mapAddr[ip];
        assert Names(Contents(), ip, nId);
        found := nId in mapInfo;
      }
    }

    method Create(addr: Address, source: NetAddr) returns (nId: int)
      modifies this`nIdCount, this`mapInfo, this`mapAddr, this`vRandom
      ensures nId == old(nIdCount) && Contents() == AddrBook.Create(old(Contents()), addr, source)
    {
      nId := nIdCount;
      nIdCount := nIdCount + 1;
      mapInfo := mapInfo[nId := AddrInfo(addr.service, addr.time, addr.services, source, 0, 0, 0, 0, 0, false, -1)];
      mapAddr := mapAddr[addr.service.ip := nId];
      mapInfo := mapInfo[nId := mapInfo[nId].(randomPos := |vRandom|)];
      vRandom := vRandom + [nId];
    }

    method SwapRandom(i: int, j: int)
      requires RandomOk(Contents()) && (i != j ==> 0 <= i < |vRandom| && 0 <= j < |vRandom|)
      modifies this`mapInfo, this`vRandom
      ensures i == j ==> Contents() == old(Contents())
      ensures i != j ==>
        && old(vRandom[i] in mapInfo && vRandom[j] in mapInfo)
        && Contents() == AddrBook.SwapRandom(old(Contents()), i, j)
    {
      if i == j {
        return;
      }
      var nId1, nId2 := vRandom[i], vRandom[j];
      assert KnowsPlace(Contents(), nId1, i) && KnowsPlace(Contents(), nId2, j);
      mapInfo := mapInfo[nId1 := mapInfo[nId1].(randomPos := j)];
      mapInfo := mapInfo[nId2 := mapInfo[nId2].(randomPos := i)];
      vRandom := vRandom[i := nId2][j := nId1];
    }

    method Delete(nId: int)
      requires RandomOk(Contents()) && nId in mapInfo && !mapInfo[nId].inTried && mapInfo[nId].refCount == 0
      modifies this`mapInfo, this`mapAddr, this`vRandom, this`nNew
      ensures Contents() == AddrBook.Delete(old(Contents()), nId)
    {
      assert ListedAt(Contents(), nId, mapInfo[nId].randomPos);
      assert KnowsPlace(Contents(), vRandom[|vRandom| - 1], |vRandom| - 1);
      SwapRandom(mapInfo[nId].randomPos, |vRandom| - 1);
      vRandom := vRandom[..|vRandom| - 1];
      mapAddr := mapAddr - {mapInfo[nId].service.ip};
      mapInfo := mapInfo - {nId};
      nNew := nNew - 1;
    }

    method ClearNew(b: int, p: int, ghost uncounted: set<int>, ghost loose: set<int>)
      requires Backed() && Inside(h, Contents(), uncounted, loose)
      requires 0 <= b < NEW_BUCKET_COUNT && 0 <= p < BUCKET_SIZE
      requires forall n | n in uncounted && n in mapInfo :: mapInfo[n].refCount == 0
      modifies this, vvNew
      ensures old(RandomOk(Contents()) && ((b, p) in newSlots ==> newSlots[(b, p)] in mapInfo))
      ensures Backed() && Contents() == AddrBook.ClearNew(old(Contents()), (b, p))
    {
      hide AddrsOk, RandomOk, TriedOk, NewOk, RefsOk, CountsOk, Holds;
      ghost var bk := Contents();
      var nIdDelete := NewAt(b, p);
      if nIdDelete != -1 {
        DetachKeeps(h, bk, (b, p), uncounted, loose);
        assert mapInfo[nIdDelete].refCount > 0;
        mapInfo := mapInfo[nIdDelete := mapInfo[nIdDelete].(refCount := mapInfo[nIdDelete].refCount - 1)];
        SetNew(b, p, -1);
        if mapInfo[nIdDelete].refCount == 0 {
          Delete(nIdDelete);
        }
      }
    }

    /** The first loop of MakeTried: every new bucket that holds `nId` lets it go. */
    method LeaveNewBuckets(nId: int)
      requires Valid() && nId in mapInfo && !mapInfo[nId].inTried
      modifies this, vvNew
      ensures Backed() && Contents() == DetachAll(old(Contents()), nId)
      ensures nId in mapInfo && mapInfo[nId].refCount == 0 && mapInfo[nId].service == old(mapInfo[nId].service)
    {
      hide AddrsOk, RandomOk, TriedOk, NewOk, RefsOk, CountsOk, Holds, Leaving;
      ghost var bk := Contents();
      LeavingEnds(h, bk, nId);
      var bucket := 0;
      while bucket < NEW_BUCKET_COUNT
        invariant 0 <= bucket <= NEW_BUCKET_COUNT
        invariant Backed() && Contents() == Leaving(bk, nId, bucket)
      {
        LeavingNext(h, bk, nId, bucket);
        var pos := h.Position(true, bucket, mapInfo[nId].service);
        var occupant := NewAt(bucket, pos);
        if occupant == nId {
          SetNew(bucket, pos, -1);
          mapInfo := mapInfo[nId := mapInfo[nId].(refCount := mapInfo[nId].refCount - 1)];
        }
        bucket := bucket + 1;
      }
      nNew := nNew - 1;
      assert mapInfo[nId].refCount == 0;
    }

    /** The eviction inside MakeTried; `nId` is the entry that is about to be tried. */
    method EvictTried(kb: int, kp: int, nIdEvict: int, ghost nId: int)
      requires Backed() && Inside(h, Contents(), {nId}, {nId}) && nId in mapInfo && mapInfo[nId].refCount == 0
      requires 0 <= kb < TRIED_BUCKET_COUNT && 0 <= kp < BUCKET_SIZE
      requires (kb, kp) in triedSlots && triedSlots[(kb, kp)] == nIdEvict && nIdEvict != -1
      modifies this, vvNew, vvTried
      ensures Backed() && Contents() == Evict(h, old(Contents()), (kb, kp))
    {
      hide AddrsOk, RandomOk, TriedOk, NewOk, RefsOk, CountsOk, Holds;
      ghost var bk := Contents();
      EvictUntries(h, bk, (kb, kp), nId);
      assert nIdEvict in mapInfo;
      mapInfo := mapInfo[nIdEvict := mapInfo[nIdEvict].(inTried := false)];
      SetTriedSlot(kb, kp, -1);
      nTried := nTried - 1;
      ghost var bk1 := Contents();
      var ub := h.NewBucket(mapInfo[nIdEvict].service, mapInfo[nIdEvict].source);
      var up := h.Position(true, ub, mapInfo[nIdEvict].service);
      EvictClears(h, bk1, nIdEvict, (ub, up), nId);
      ClearNew(ub, up, {nId} + {nIdEvict}, {nId} + {nIdEvict});
      var occupant := NewAt(ub, up);
      assert occupant == -1;
      mapInfo := mapInfo[nIdEvict := mapInfo[nIdEvict].(refCount := 1)];
      SetNew(ub, up, nIdEvict);
      nNew := nNew + 1;
    }

    method MakeTried(nId: int)
      requires Valid() && nId in mapInfo && !mapInfo[nId].inTried
      modifies this, vvNew, vvTried
      ensures Valid() && Contents() == AddrBook.MakeTried(h, old(Contents()), nId)
    {
      ghost var bk := Contents();
      assert Named(bk, nId);
      hide AddrsOk, RandomOk, TriedOk, NewOk, RefsOk, CountsOk, Holds, FreeTried, DetachAll, SetTried;
      MakeTriedKeeps(h, bk, nId);
      DetachAllKeeps(h, bk, nId);
      LeaveNewBuckets(nId);
      var kb := h.TriedBucket(mapInfo[nId].service);
      var kp := h.Position(false, kb, mapInfo[nId].service);
      FreeTriedSlot(kb, kp, nId);
      TakeTriedSlot(kb, kp, nId);
    }

    method FreeTriedSlot(kb: int, kp: int, ghost nId: int)
      requires Backed() && Inside(h, Contents(), {nId}, {nId}) && nId in mapInfo && mapInfo[nId].refCount == 0
      requires 0 <= kb < TRIED_BUCKET_COUNT && 0 <= kp < BUCKET_SIZE
      modifies this, vvNew, vvTried
      ensures Backed() && Contents() == FreeTried(h, old(Contents()), (kb, kp))
      ensures nId in mapInfo && (kb, kp) !in triedSlots
    {
      hide AddrsOk, RandomOk, TriedOk, NewOk, RefsOk, CountsOk, Holds, Evict;
      FreeTriedKeeps(h, Contents(), (kb, kp), nId);
      var nIdEvict := TriedAt(kb, kp);
      if nIdEvict != -1 {
        EvictTried(kb, kp, nIdEvict, nId);
      }
    }

    /** The tail of MakeTried. */
    method TakeTriedSlot(kb: int, kp: int, nId: int)
      requires Backed() && nId in mapInfo && nId != -1
      requires 0 <= kb < TRIED_BUCKET_COUNT && 0 <= kp < BUCKET_SIZE && (kb, kp) !in triedSlots
      modifies this, vvTried
      ensures Backed() && Contents() == SetTried(old(Contents()), (kb, kp), nId)
    {
      hide Holds;
      var occupant := TriedAt(kb, kp);
      assert occupant == -1;
      SetTriedSlot(kb, kp, nId);
      nTried := nTried + 1;
      mapInfo := mapInfo[nId := mapInfo[nId].(inTried := true)];
    }

    /** The search of Good_ for a new bucket that holds `nId`, from a random bucket on.  It
        always succeeds: an entry that is not tried has a slot. */
    method FindNewBucket(nId: int, nRnd: nat) returns (nUBucket: int)
      requires Valid() && nId in mapInfo && !mapInfo[nId].inTried
      ensures nUBucket != -1
      ensures (nUBucket, h.Position(true, nUBucket, mapInfo[nId].service)) in newSlots
      ensures newSlots[(nUBucket, h.Position(true, nUBucket, mapInfo[nId].service))] == nId
    {
      hide TriedOk, RandomOk, CountsOk, Holds;
      ghost var home := SomeBucket(h, Contents(), nId);
      ghost var reached := CyclicSearch(home, nRnd);
      nUBucket := -1;
      var n := 0;
      while n < NEW_BUCKET_COUNT
        invariant 0 <= n <= reached
      {
        var nB := (n + nRnd) % NEW_BUCKET_COUNT;
        var occupant := NewAt(nB, h.Position(true, nB, mapInfo[nId].service));
        if occupant == nId {
          assert Named(Contents(), nId);
          return nB;
        }
        n := n + 1;
      }
    }

    method Good(addr: Service, nTime: int, nRnd: nat)
      requires Valid()
      modifies this, vvNew, vvTried
      ensures Valid() && Contents() == AddrBook.Good(h, old(Contents()), addr, nTime)
    {
      hide AddrsOk, RandomOk, TriedOk, NewOk, RefsOk, CountsOk, Holds;
      ghost var bk := Contents();
      GoodKeeps(h, bk, addr, nTime);
      LastGoodKeeps(h, bk, nTime);
      nLastGood := nTime;
      var found, nId := Find(addr.ip);
      if !found || mapInfo[nId].service != addr {
        return;
      }
      var info := mapInfo[nId].(lastSuccess := nTime, lastTry := nTime, attempts := 0);
      WithInfoKeeps(h, Contents(), nId, info, {}, {});
      mapInfo := mapInfo[nId := info];
      if mapInfo[nId].inTried {
        return;
      }
      var nUBucket := FindNewBucket(nId, nRnd);
      if nUBucket == -1 {
        return;
      }
      MakeTried(nId);
    }

    method TakeNewSlot(b: int, p: int, nId: int)
      requires Backed() && Inside(h, Contents(), {}, {nId}) && nId in mapInfo && nId != -1
      requires 0 <= b < NEW_BUCKET_COUNT && 0 <= p < BUCKET_SIZE && ((b, p) in newSlots ==> newSlots[(b, p)] != nId)
      modifies this, vvNew
      ensures Backed() && Contents() == TakeSlot(h, old(Contents()), (b, p), nId)
    {
      hide AddrsOk, RandomOk, TriedOk, NewOk, RefsOk, CountsOk, Holds, AddrBook.ClearNew;
      ClearNewSpares(h, Contents(), (b, p), nId);
      ClearNew(b, p, {}, {nId});
      mapInfo := mapInfo[nId := mapInfo[nId].(refCount := mapInfo[nId].refCount + 1)];
      SetNew(b, p, nId);
    }

    /** The slot logic at the end of Add_. */
    method PlaceNew(nId: int, source: NetAddr, now: int)
      requires Backed() && Inside(h, Contents(), {}, {nId}) && nId in mapInfo && nId != -1
      requires !mapInfo[nId].inTried && mapInfo[nId].refCount < NEW_BUCKETS_PER_ADDRESS
      modifies this, vvNew
      ensures Valid() && Contents() == Place(h, old(Contents()), nId, source, now)
    {
      hide AddrsOk, RandomOk, TriedOk, NewOk, RefsOk, CountsOk, Holds, TakeSlot, AddrBook.Delete, IsTerrible;
      ghost var bk := Contents();
      PlaceKeeps(h, bk, nId, source, now);
      var b := h.NewBucket(mapInfo[nId].service, source);
      var p := h.Position(true, b, mapInfo[nId].service);
      var occupant := NewAt(b, p);
      if occupant != nId {
        var fInsert := occupant == -1;
        if !fInsert {
          OccupantKnown(h, bk, (b, p));
          var infoExisting := mapInfo[occupant];
          if IsTerrible(infoExisting, now) || (infoExisting.refCount > 1 && mapInfo[nId].refCount == 0) {
            fInsert := true;
          }
        }
        assert fInsert == Inserts(bk, (b, p), nId, now);
        if fInsert {
          TakeNewSlot(b, p, nId);
        } else {
          if mapInfo[nId].refCount == 0 {
            Delete(nId);
          }
        }
      }
    }

    method Factor(refCount: int) returns (nFactor: nat)
      requires refCount >= 0
      ensures nFactor == Pow2(refCount)
    {
      nFactor := 1;
      var n := 0;
      while n < refCount
        invariant 0 <= n <= refCount && nFactor == Pow2(n)
      {
        nFactor := nFactor * 2;
        n := n + 1;
      }
    }

    method Refresh(nId: int, addr: Address, penalty: int, now: int)
      requires nId in mapInfo
      modifies this`mapInfo
      ensures Contents() == WithInfo(old(Contents()), nId, Refreshed(old(mapInfo[nId]), addr, penalty, now))
    {
      var info := mapInfo[nId];
      var fCurrentlyOnline := now - addr.time < 24 * 60 * 60;
      var nUpdateInterval := if fCurrentlyOnline then 60 * 60 else 24 * 60 * 60;
      if addr.time != 0 && (info.time == 0 || info.time < addr.time - nUpdateInterval - penalty) {
        info := info.(time := Max(0, addr.time - penalty));
      }
      info := info.(services := Or(info.services, addr.services));
      mapInfo := mapInfo[nId := info];
    }

    method StopsAfterRefresh(info: AddrInfo, addr: Address, draw: nat) returns (stop: bool)
      requires info.refCount >= 0
      ensures stop <==> Declines(info, addr, draw)
    {
      if addr.time == 0 || (info.time != 0 && addr.time <= info.time) {
        return true;
      }
      if info.inTried {
        return true;
      }
      if info.refCount == NEW_BUCKETS_PER_ADDRESS {
        return true;
      }
      var nFactor := Factor(info.refCount);
      return nFactor > 1 && draw % nFactor != 0;
    }

    /** What Add_ does for an address it knows: refresh it, and unless there is reason to stop,
        give it one more slot. */
    method AddKnown(nId: int, addr: Address, source: NetAddr, penalty: int, now: int, draw: nat)
      requires Valid() && nId in mapInfo && nId != -1
      modifies this, vvNew
      ensures Valid() && Contents() == AddrBook.AddKnown(h, old(Contents()), nId, addr, source, penalty, now, draw)
    {
      hide AddrsOk, RandomOk, TriedOk, NewOk, RefsOk, CountsOk, Holds, Place, Refreshed;
      RefreshedKeeps(h, Contents(), nId, addr, penalty, now);
      Refresh(nId, addr, penalty, now);
      var stop := StopsAfterRefresh(mapInfo[nId], addr, draw);
      if !stop {
        PlaceNew(nId, source, now);
      }
    }

    method Add(addr: Address, routable: bool, source: NetAddr, nTimePenalty: int, now: int, draw: nat)
      returns (fNew: bool)
      requires Valid()
      modifies this, vvNew
      ensures Valid()
      ensures (Contents(), fNew) == AddrBook.Add(h, old(Contents()), addr, routable, source, nTimePenalty, now, draw)
    {
      hide RandomOk, TriedOk, NewOk, RefsOk, CountsOk, Holds, Place, AddrBook.AddKnown;
      if !routable {
        return false;
      }
      var penalty := nTimePenalty;
      if addr.service.ip == source {
        penalty := 0;
      }
      ghost var bk := Contents();
      var found, nId := Find(addr.service.ip);
      if found {
        assert Named(bk, nId);
        AddKnown(nId, addr, source, penalty, now, draw);
        return false;
      }
      CreatedKeeps(h, bk, addr, source, penalty);
      nId := Create(addr, source);
      mapInfo := mapInfo[nId := mapInfo[nId].(time := Max(0, mapInfo[nId].time - penalty))];
      nNew := nNew + 1;
      PlaceNew(nId, source, now);
      return true;
    }

    method Attempt(addr: Service, fCountFailure: bool, nTime: int)
      requires Valid()
      modifies this`mapInfo
      ensures Valid() && Contents() == AddrBook.Attempt(old(Contents()), addr, fCountFailure, nTime)
    {
      hide RandomOk, TriedOk, NewOk, RefsOk, CountsOk, Holds;
      AttemptKeeps(h, Contents(), addr, fCountFailure, nTime);
      var found, nId := Find(addr.ip);
      if !found || mapInfo[nId].service != addr {
        return;
      }
      var info := mapInfo[nId].(lastTry := nTime);
      if fCountFailure && info.lastCountAttempt < nLastGood {
        info := info.(lastCountAttempt := nTime, attempts := info.attempts + 1);
      }
      mapInfo := mapInfo[nId := info];
    }

    method Connected(addr: Service, nTime: int)
      requires Valid()
      modifies this`mapInfo
      ensures Valid() && Contents() == AddrBook.Connected(old(Contents()), addr, nTime)
    {
      hide RandomOk, TriedOk, NewOk, RefsOk, CountsOk, Holds;
      ConnectedKeeps(h, Contents(), addr, nTime);
      var found, nId := Find(addr.ip);
      if !found || mapInfo[nId].service != addr {
        return;
      }
      if nTime - mapInfo[nId].time > 20 * 60 {
        mapInfo := mapInfo[nId := mapInfo[nId].(time := nTime)];
      }
    }

    method SetServices(addr: Service, nServices: Services)
      requires Valid()
      modifies this`mapInfo
      ensures Valid() && Contents() == AddrBook.SetServices(old(Contents()), addr, nServices)
    {
      hide RandomOk, TriedOk, NewOk, RefsOk, CountsOk, Holds;
      SetServicesKeeps(h, Contents(), addr, nServices);
      var found, nId := Find(addr.ip);
      if !found || mapInfo[nId].service != addr {
        return;
      }
      mapInfo := mapInfo[nId := mapInfo[nId].(services := nServices)];
    }

    /** The first `n` places of the shuffled vector have been looked at. */
    ghost predicate Examined(bk: Book, n: nat, vAddr: seq<Address>, now: int)
      reads this
    {
      && Reshuffled(bk, Contents()) && n <= |vRandom| == |bk.random|
      && (forall i | 0 <= i < n :: vRandom[i] in mapInfo)
      && vAddr == Listing(mapInfo, vRandom[..n], now)
    }

    /** GetAddr_. `draw` gives the random numbers. The result lists the entries in the first
        `examined` places that are not terrible, and stops early only when it is long enough. */
    method GetAddr(now: int, draw: nat -> nat) returns (vAddr: seq<Address>, ghost examined: nat)
      requires Valid()
      modifies this`mapInfo, this`vRandom
      ensures Valid() && Examined(old(Contents()), examined, vAddr, now)
      ensures |vAddr| <= MaxListed(|vRandom|) && (examined < |vRandom| ==> |vAddr| == MaxListed(|vRandom|))
    {
      hide AddrsOk, RandomOk, TriedOk, NewOk, RefsOk, CountsOk, Holds;
      var nNodes := GETADDR_MAX_PCT * |vRandom| / 100;
      if nNodes > GETADDR_MAX {
        nNodes := GETADDR_MAX;
      }
      ghost var bk := Contents();
      vAddr := [];
      var n := 0;
      assert Examined(bk, 0, [], now);
      hide Examined;
      while n < |vRandom|
        invariant 0 <= n <= |vRandom| == |bk.random|
        invariant Valid() && Examined(bk, n, vAddr, now) && |vAddr| <= nNodes
      {
        if |vAddr| >= nNodes {
          break;
        }
        var nRndPos := draw(n) % (|vRandom| - n) + n;
        vAddr := ExamineNext(n, nRndPos, vAddr, now, bk);
        n := n + 1;
      }
      examined := n;
    }

    method ExamineNext(n: nat, nRndPos: nat, vAddr: seq<Address>, now: int, ghost bk: Book)
      returns (vAddr': seq<Address>)
      requires Valid() && n <= nRndPos < |vRandom| && Examined(bk, n, vAddr, now)
      modifies this`mapInfo, this`vRandom
      ensures Valid() && Examined(bk, n + 1, vAddr', now) && |vRandom| == old(|vRandom|)
      ensures |vAddr'| <= |vAddr| + 1
    {
      hide AddrsOk, RandomOk, TriedOk, NewOk, RefsOk, CountsOk, Holds, Reshuffled;
      ghost var before := Contents();
      SwapRandomKeeps(h, before, n, nRndPos, {}, {});
      SwapReshuffles(bk, before, n, nRndPos);
      SwapRandom(n, nRndPos);
      PrefixKept(before, Contents(), n, nRndPos, now);
      var ai := mapInfo[vRandom[n]];
      assert vRandom[..n + 1][..n] == vRandom[..n];
      vAddr' := vAddr;
      if !IsTerrible(ai, now) {
        vAddr' := vAddr + [ToAddress(ai)];
      }
    }
  }

  ghost function SomeBucket(h: Hashes, bk: Book, n: int): (b: int)
    requires NewOk(h, bk) && RefsOk(bk, {}) && n in bk.infos && !bk.infos[n].inTried
    ensures 0 <= b < NEW_BUCKET_COUNT
    ensures (b, h.Position(true, b, bk.infos[n].service)) in bk.newSlots
    ensures bk.newSlots[(b, h.Position(true, b, bk.infos[n].service))] == n
  {
    assert RefOk(bk, {}, n);
    assert SlotsOf(bk.newSlots, n) != {};
    var s :| s in SlotsOf(bk.newSlots, n);
    assert NewHolds(h, bk, s, n);
    assert s == (s.0, s.1);
    s.0
  }

  /** Counting up from any start modulo the number of buckets reaches every bucket. */
  lemma CyclicSearch(home: int, start: nat) returns (m: int)
    requires 0 <= home < NEW_BUCKET_COUNT
    ensures 0 <= m < NEW_BUCKET_COUNT && (m + start) % NEW_BUCKET_COUNT == home
  {
    m := (home - start) % NEW_BUCKET_COUNT;
  }

  /** The slots of `n` in the first buckets. */
  ghost function SlotsBelow(bk: Book, n: int, bucket: int): set<Slot>
  {
    set s | s in SlotsOf(bk.newSlots, n) && s.0 < bucket
  }

  /** The contents when `n` has left its slots in the first buckets. */
  ghost function Leaving(bk: Book, n: int, bucket: int): Book
    requires n in bk.infos
  {
    Without(bk, n, SlotsBelow(bk, n, bucket))
  }

  ghost function Without(bk: Book, n: int, left: set<Slot>): Book
    requires n in bk.infos
  {
    bk.(newSlots := bk.newSlots - left,
        infos := bk.infos[n := bk.infos[n].(refCount := bk.infos[n].refCount - |left|)])
  }

  /** One more bucket: the only slot in it that can hold `n` is the one at the position of `n`. */
  lemma LeavingNext(h: Hashes, bk: Book, n: int, bucket: int)
    requires AddrsOk(bk) && NewOk(h, bk) && n in bk.infos && 0 <= bucket
    ensures var before := Leaving(bk, n, bucket);
      && n != -1 && n in before.infos
      && var s := (bucket, h.Position(true, bucket, before.infos[n].service));
      && Leaving(bk, n, bucket + 1) ==
           if s in before.newSlots && before.newSlots[s] == n then Detach(before, s, n) else before
  {
    assert Named(bk, n);
    var s := (bucket, h.Position(true, bucket, bk.infos[n].service));
    forall t | t in SlotsOf(bk.newSlots, n) && t.0 == bucket ensures t == s {
      assert NewHolds(h, bk, t, bk.newSlots[t]);
    }
    if s in bk.newSlots && bk.newSlots[s] == n {
      var left := SlotsBelow(bk, n, bucket);
      assert SlotsBelow(bk, n, bucket + 1) == left + {s};
      DetachOneMore(bk, n, left, s);
    } else {
      assert SlotsBelow(bk, n, bucket + 1) == SlotsBelow(bk, n, bucket);
    }
  }

  lemma DetachOneMore(bk: Book, n: int, left: set<Slot>, s: Slot)
    requires n in bk.infos && s !in left
    ensures Detach(Without(bk, n, left), s, n) == Without(bk, n, left + {s})
  {
    assert bk.newSlots - left - {s} == bk.newSlots - (left + {s});
  }

  /** Before the first bucket nothing has changed, after the last `n` has no slot left. */
  lemma LeavingEnds(h: Hashes, bk: Book, n: int)
    requires NewOk(h, bk) && RefsOk(bk, {}) && n in bk.infos
    ensures Leaving(bk, n, 0) == bk
    ensures var after := Leaving(bk, n, NEW_BUCKET_COUNT); after.(nNew := after.nNew - 1) == DetachAll(bk, n)
  {
    assert RefOk(bk, {}, n);
    forall s | s in SlotsOf(bk.newSlots, n) ensures 0 <= s.0 < NEW_BUCKET_COUNT {
      assert NewHolds(h, bk, s, bk.newSlots[s]);
    }
    assert SlotsBelow(bk, n, 0) == {};
    assert SlotsBelow(bk, n, NEW_BUCKET_COUNT) == SlotsOf(bk.newSlots, n);
  }

  function MaxListed(size: nat): nat
  {
    var nNodes := GETADDR_MAX_PCT * size / 100;
    if nNodes > GETADDR_MAX then GETADDR_MAX else nNodes
  }

  /** Swapping places from `n` on does not change what the first `n` places list. */
  lemma PrefixKept(bk: Book, bk': Book, n: nat, j: nat, now: int)
    requires RandomOk(bk) && n <= j < |bk.random|
    requires bk.random[n] in bk.infos && bk.random[j] in bk.infos && bk' == SwapRandom(bk, n, j)
    ensures |bk'.random| == |bk.random| && (forall i | 0 <= i <= n :: bk'.random[i] in bk'.infos)
    ensures forall i | 0 <= i < n :: bk.random[i] in bk.infos
    ensures Listing(bk'.infos, bk'.random[..n], now) == Listing(bk.infos, bk.random[..n], now)
  {
    assert bk'.random[..n] == bk.random[..n];
    forall i | 0 <= i < n
      ensures bk.random[i] in bk.infos && bk'.random[i] in bk'.infos
        && bk'.infos[bk.random[i]] == bk.infos[bk.random[i]]
    {
      assert KnowsPlace(bk, bk.random[i], i) && KnowsPlace(bk, bk.random[n], n) && KnowsPlace(bk, bk.random[j], j);
    }
    ListingDepends(bk.infos, bk'.infos, bk.random[..n], now);
  }

  lemma {:induction false} ListingDepends(infos: map<int, AddrInfo>, infos': map<int, AddrInfo>, ids: seq<int>,
    now: int)
    requires forall i | 0 <= i < |ids| :: ids[i] in infos && ids[i] in infos' && infos'[ids[i]] == infos[ids[i]]
    ensures Listing(infos', ids, now) == Listing(infos, ids, now)
  {
    if ids != [] {
      ListingDepends(infos, infos', ids[..|ids| - 1], now);
    }
  }
}
