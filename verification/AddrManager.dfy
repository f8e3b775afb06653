/**
 * The address manager object: the same structures as mutable fields, changed step by step as in the
 * source. Every method is proved to turn the state into the value given by its function in AddrMan.
 */
module AddrManager {
  import opened Prelude
  import opened AddrMan

  class Manager {
    const h: Hashes
    var nKey: uint256
    var nIdCount: Id
    var mapInfo: map<Id, Info>
    var mapAddr: map<NetAddr, Id>
    var vRandom: seq<Id>
    var nTried: int
    var vvTried: Table
    var nNew: int
    var vvNew: Table
    var nLastGood: int

    ghost function Value(): State
      reads this
    {
      State(nKey, nIdCount, mapInfo, mapAddr, vRandom, nTried, vvTried, nNew, vvNew, nLastGood)
    }

    /** What holds between public calls. */
    ghost predicate Valid()
      reads this
    {
      Inv(h, Value(), {}, 0)
    }

    constructor (h: Hashes, nKey: uint256)
      ensures Valid() && Value() == Init(nKey) && this.h == h
    {
      this.h, this.nKey := h, nKey;
      nIdCount, mapInfo, mapAddr, vRandom := 0, map[], map[], [];
      nTried, vvTried, nNew, vvNew, nLastGood := 0, map[], 0, map[], 1;
      new;
      InitInv(h, nKey);
    }

    method CreateEntry(svc: Service, nServices: set<nat>, nTime: int, source: NetAddr) returns (nId: Id)
      modifies this
      ensures Value() == Create(old(Value()), svc, nServices, nTime, source) && nId == old(nIdCount)
    {
      nId := nIdCount;
      nIdCount := nIdCount + 1;
      mapInfo := mapInfo[nId := Info(svc, nServices, nTime, source, 0, 0, 0, 0, 0, false, |vRandom|)];
      mapAddr := mapAddr[svc.addr := nId];
      vRandom := vRandom + [nId];
    }

    method SwapRandomPlaces(i: nat, j: nat)
      requires SwapRandom.requires(Value(), i, j)
      modifies this
      ensures Value() == SwapRandom(old(Value()), i, j)
    {
      if i == j {
        return;
      }
      var nId1, nId2 := vRandom[i], vRandom[j];
      mapInfo := mapInfo[nId1 := mapInfo[nId1].(nRandomPos := j)];
      mapInfo := mapInfo[nId2 := mapInfo[nId2].(nRandomPos := i)];
      vRandom := vRandom[i := nId2];
      vRandom := vRandom[j := nId1];
    }

    method DeleteEntry(nId: Id)
      requires CanDelete(Value(), nId)
      modifies this
      ensures Value() == Delete(old(Value()), nId)
    {
      var info := mapInfo[nId];
      SwapRandomPlaces(info.nRandomPos, |vRandom| - 1);
      ghost var s1 := Value();
      assert s1 == MoveLast(old(Value()), nId);
      SwapRandomCores(old(Value()), info.nRandomPos, |old(vRandom)| - 1);
      assert Core(mapInfo[nId]) == Core(info);
      vRandom := vRandom[..|vRandom| - 1];
      mapAddr := mapAddr - {info.service.addr};
      mapInfo := mapInfo - {nId};
      nNew := nNew - 1;
      assert Value() == DropLast(s1, nId);
    }

    method ClearNewSlot(pos: Pos)
      requires ClearNew.requires(Value(), pos)
      modifies this
      ensures Value() == ClearNew(old(Value()), pos)
    {
      if pos in vvNew {
        var nIdDelete := vvNew[pos];
        assert mapInfo[nIdDelete].nRefCount > 0;
        var nRefCount := mapInfo[nIdDelete].nRefCount - 1;
        mapInfo := mapInfo[nIdDelete := mapInfo[nIdDelete].(nRefCount := nRefCount)];
        vvNew := vvNew - {pos};
        assert Value() == Unref(old(Value()), pos);
        if nRefCount == 0 {
          DeleteEntry(nIdDelete);
        }
      }
    }

    /** The loop of `MakeTried` that takes an entry out of all new buckets; returns how many slots it held. */
    method ClearOwnSlots(nId: Id) returns (cleared: nat)
      requires nId in mapInfo
      modifies this`vvNew
      ensures vvNew == old(vvNew) - OwnSlots(h, old(Value()), nId) && cleared == |OwnSlots(h, old(Value()), nId)|
    {
      ghost var s := Value();
      var svc := mapInfo[nId].service;
      cleared := 0;
      for bucket: nat := 0 to NEW_BUCKET_COUNT
        invariant vvNew == s.news - SlotsBelow(h, s, nId, bucket)
        invariant cleared == |SlotsBelow(h, s, nId, bucket)|
      {
        var pos := NewPosIn(h, nKey, svc, bucket);
        SlotsBelowNext(h, s, nId, bucket, vvNew);
        if pos in vvNew && vvNew[pos] == nId {
          vvNew := vvNew - {pos};
          cleared := cleared + 1;
        }
      }
      assert SlotsBelow(h, s, nId, NEW_BUCKET_COUNT) == OwnSlots(h, s, nId);
    }

    method RemoveFromNew(nId: Id)
      requires nId in mapInfo
      modifies this
      ensures Value() == DropRefs(h, old(Value()), nId)
    {
      var cleared := ClearOwnSlots(nId);
      mapInfo := mapInfo[nId := mapInfo[nId].(nRefCount := mapInfo[nId].nRefCount - cleared)];
      nNew := nNew - 1;
    }

    /** Take the occupant of a tried slot out of the tried table. */
    method LeaveTried(pos: Pos) returns (nIdEvict: Id)
      requires pos in vvTried && vvTried[pos] in mapInfo
      modifies this
      ensures Value() == EvictOut(old(Value()), pos) && nIdEvict == old(vvTried[pos])
    {
      nIdEvict := vvTried[pos];
      mapInfo := mapInfo[nIdEvict := mapInfo[nIdEvict].(fInTried := false)];
      vvTried := vvTried - {pos};
      nTried := nTried - 1;
    }

    method ReturnToNew(nId: Id, pos: Pos)
      requires nId in mapInfo
      modifies this
      ensures Value() == EvictIn(old(Value()), nId, pos)
    {
      mapInfo := mapInfo[nId := mapInfo[nId].(nRefCount := 1)];
      vvNew := vvNew[pos := nId];
      nNew := nNew + 1;
    }

    method EnterTried(nId: Id, pos: Pos)
      requires nId in mapInfo
      modifies this
      ensures Value() == Settle(old(Value()), nId, pos)
    {
      vvTried := vvTried[pos := nId];
      nTried := nTried + 1;
      mapInfo := mapInfo[nId := mapInfo[nId].(fInTried := true)];
    }

    /** Evict the occupant of a tried slot, if any, back into the new table. */
    method MakeRoom(ghost nId: Id, pos: Pos)
      requires Leaving(h, Value(), nId, 1)
      modifies this
      ensures Value() == Evict(h, old(Value()), nId, pos)
    {
      if pos in vvTried {
        EvictSteps(h, Value(), nId, pos);
        var nIdEvict := LeaveTried(pos);
        var up := NewPos(h, nKey, mapInfo[nIdEvict].service, mapInfo[nIdEvict].source);
        ClearNewSlot(up);
        assert up !in vvNew;
        ReturnToNew(nIdEvict, up);
      }
    }

    /** Move an entry from the new to the tried table. */
    method MoveToTried(nId: Id)
      requires Valid() && nId in mapInfo && !mapInfo[nId].fInTried && mapInfo[nId].nLastSuccess != 0
      modifies this
      ensures Value() == MakeTried(h, old(Value()), nId)
    {
      ghost var s := Value();
      DropRefsKeeps(h, s, nId);
      RemoveFromNew(nId);
      assert mapInfo[nId].nRefCount == 0;
      var pos := TriedPos(h, nKey, mapInfo[nId].service);
      MakeRoom(nId, pos);
      assert pos !in vvTried;
      EnterTried(nId, pos);
    }

    /** Mark an address good; `nRnd` is where the search for its bucket starts. */
    method MarkGood(svc: Service, nTime: int, nRnd: nat)
      requires Valid() && nTime > 0
      modifies this
      ensures Valid() && Value() == Good(h, old(Value()), svc, nTime)
    {
      if svc.addr !in mapAddr {
        return;
      }
      KnownEntry(h, Value(), svc.addr);
      var nId := mapAddr[svc.addr];
      if mapInfo[nId].service != svc {
        return;
      }
      SetInfoKeeps(h, Value(), {}, 0, nId, Worked(mapInfo[nId], nTime));
      mapInfo := mapInfo[nId := mapInfo[nId].(nLastSuccess := nTime, nLastTry := nTime, nAttempts := 0)];
      if mapInfo[nId].fInTried {
        return;
      }
      var nUBucket := FindBucket(nId, nRnd);
      if nUBucket == -1 {
        return;
      }
      MoveToTried(nId);
    }

    /** Step `k` of a search from bucket `nRnd` does not find the entry. */
    ghost predicate NotAt(k: nat, nRnd: nat, svc: Service, nId: Id)
      reads this
    {
      Get(vvNew, NewPosIn(h, nKey, svc, Wrap(k + nRnd))) != Some(nId)
    }

    /** Look for a bucket that holds the entry, starting at `nRnd`; -1 if there is none. */
    method FindBucket(nId: Id, nRnd: nat) returns (nUBucket: int)
      requires nId in mapInfo
      ensures nUBucket == -1 <==> OwnSlots(h, Value(), nId) == {}
    {
      var svc := mapInfo[nId].service;
      nUBucket := -1;
      var n := 0;
      while n < NEW_BUCKET_COUNT
        invariant 0 <= n <= NEW_BUCKET_COUNT && nUBucket == -1
        invariant forall k: nat | k < n :: NotAt(k, nRnd, svc, nId)
      {
        var nB := Wrap(n + nRnd);
        var pos := NewPosIn(h, nKey, svc, nB);
        if pos in vvNew && vvNew[pos] == nId {
          assert pos in OwnSlots(h, Value(), nId);
          return nB;
        }
        n := n + 1;
      }
      forall pos: Pos
        ensures pos !in OwnSlots(h, Value(), nId)
      {
        if pos.bucket < NEW_BUCKET_COUNT {
          assert NotAt(Unwrap(pos.bucket, nRnd), nRnd, svc, nId);
        }
      }
    }

    /** Learn about an address; `draw` is the random number of the stochastic test. */
    method AddAddress(addr: Address, source: NetAddr, nTimePenalty: int, nNow: int, draw: nat) returns (fNew: bool)
      requires Valid()
      modifies this
      ensures Valid() && (fNew, Value()) == Add(h, old(Value()), addr, source, nTimePenalty, nNow, draw)
    {
      if !addr.isRoutable {
        return false;
      }
      fNew := addr.service.addr !in mapAddr;
      if fNew {
        LearnUnknown(addr, source, nTimePenalty, nNow);
      } else {
        LearnKnown(addr, source, nTimePenalty, nNow, draw);
      }
    }

    method LearnUnknown(addr: Address, source: NetAddr, nTimePenalty: int, nNow: int)
      requires Valid() && addr.service.addr !in mapAddr
      modifies this
      ensures Value() == AddUnknown(h, old(Value()), addr, source, nTimePenalty, nNow)
    {
      ghost var s := Value();
      var nTime := Max(0, addr.nTime - nTimePenalty);
      assert Learnt(h, s, addr, source, nTimePenalty) == CountNew(Create(s, addr.service, addr.nServices, nTime, source));
      var nId := CreateNew(addr.service, addr.nServices, nTime, source);
      EnterSlot(nId, source, nNow);
    }

    method CreateNew(svc: Service, nServices: set<nat>, nTime: int, source: NetAddr) returns (nId: Id)
      modifies this
      ensures Value() == CountNew(Create(old(Value()), svc, nServices, nTime, source)) && nId == old(nIdCount)
    {
      nId := CreateEntry(svc, nServices, nTime, source);
      nNew := nNew + 1;
    }

    method LearnKnown(addr: Address, source: NetAddr, nTimePenalty: int, nNow: int, draw: nat)
      requires Valid() && addr.service.addr in mapAddr
      modifies this
      ensures Value() == AddKnown(h, old(Value()), old(mapAddr[addr.service.addr]), addr, source, nTimePenalty, nNow, draw)
    {
      KnownEntry(h, Value(), addr.service.addr);
      var nId := mapAddr[addr.service.addr];
      RefreshKeeps(h, Value(), nId, addr, nTimePenalty, nNow);
      assert EntryCounted(Value(), {}, nId);
      mapInfo := mapInfo[nId := Refresh(mapInfo[nId], addr, nTimePenalty, nNow)];
      var info := mapInfo[nId];
      if addr.nTime == 0 || (info.nTime != 0 && addr.nTime <= info.nTime) {
        return;
      }
      if info.fInTried || info.nRefCount == NEW_BUCKETS_PER_ADDRESS {
        return;
      }
      var nFactor := Factor(info.nRefCount);
      if nFactor > 1 && draw % nFactor != 0 {
        return;
      }
      Reloose(h, Value(), {}, {nId}, 0);
      EnterSlot(nId, source, nNow);
    }

    /** The shared tail of `Add_`: take the slot, or drop an entry that is left without one. */
    method EnterSlot(nId: Id, source: NetAddr, nNow: int)
      requires Inv(h, Value(), {nId}, 0) && nId in mapInfo && !mapInfo[nId].fInTried
      modifies this
      ensures Value() == Enter(h, old(Value()), nId, source, nNow)
    {
      ghost var s := Value();
      var pos := NewPos(h, nKey, mapInfo[nId].service, source);
      assert pos in vvNew ==> NewSlotOk(h, s, pos);
      if pos in vvNew && vvNew[pos] == nId {
        return;
      }
      var fInsert := pos !in vvNew;
      if !fInsert {
        var infoExisting := mapInfo[vvNew[pos]];
        fInsert := IsTerrible(infoExisting, nNow) || (infoExisting.nRefCount > 1 && mapInfo[nId].nRefCount == 0);
      }
      if fInsert {
        ClearNewKeeps(h, s, {nId}, 0, pos);
        ClearNewClears(s, pos);
        ClearNewSlot(pos);
        TakeSlot(nId, pos);
      } else if mapInfo[nId].nRefCount == 0 {
        DeleteKeeps(h, s, {nId}, 0, nId);
        DeleteEntry(nId);
      }
    }

    method TakeSlot(nId: Id, pos: Pos)
      requires nId in mapInfo
      modifies this
      ensures Value() == AddRef(old(Value()), nId, pos)
    {
      mapInfo := mapInfo[nId := mapInfo[nId].(nRefCount := mapInfo[nId].nRefCount + 1)];
      vvNew := vvNew[pos := nId];
    }

    /** Record a connection attempt. */
    method RecordAttempt(svc: Service, fCountFailure: bool, nTime: int)
      requires Valid() && nTime >= 0
      modifies this
      ensures Valid() && Value() == Attempt(h, old(Value()), svc, fCountFailure, nTime)
    {
      ghost var r := Attempt(h, Value(), svc, fCountFailure, nTime);
      if svc.addr !in mapAddr {
        return;
      }
      KnownEntry(h, Value(), svc.addr);
      var nId := mapAddr[svc.addr];
      var info := mapInfo[nId];
      if info.service != svc {
        return;
      }
      info := info.(nLastTry := nTime);
      if fCountFailure && info.nLastCountAttempt < nLastGood {
        info := info.(nLastCountAttempt := nTime, nAttempts := info.nAttempts + 1);
      }
      mapInfo := mapInfo[nId := info];
      assert Value() == r;
    }

    /** Record that a peer is connected. */
    method RecordConnected(svc: Service, nTime: int)
      requires Valid()
      modifies this
      ensures Valid() && Value() == Connected(h, old(Value()), svc, nTime)
    {
      ghost var r := Connected(h, Value(), svc, nTime);
      if svc.addr !in mapAddr {
        return;
      }
      KnownEntry(h, Value(), svc.addr);
      var nId := mapAddr[svc.addr];
      var info := mapInfo[nId];
      if info.service != svc {
        return;
      }
      if nTime - info.nTime > 20 * 60 {
        mapInfo := mapInfo[nId := info.(nTime := nTime)];
      }
      assert Value() == r;
    }

    /** Draw the entry of round `n` and move it to place `n`. */
    method DrawNext(n: nat, ghost nNodes: nat, draw: nat -> nat, nNow: int) returns (ai: Info)
      requires Valid() && n < |vRandom| && (forall id | id in vRandom :: id in mapInfo)
      requires |Decent(mapInfo, vRandom[..n], nNow)| < nNodes
      modifies this
      ensures Valid() && |vRandom| == |old(vRandom)| && (forall id | id in vRandom :: id in mapInfo) && ai == mapInfo[vRandom[n]]
      ensures Decent(mapInfo, vRandom[..n + 1], nNow) ==
                old(Decent(mapInfo, vRandom[..n], nNow)) + (if IsTerrible(ai, nNow) then [] else [Core(ai)])
      ensures GetAddrFrom(h, Value(), n + 1, nNodes, draw, nNow) == old(GetAddrFrom(h, Value(), n, nNodes, draw, nNow))
    {
      ghost var s := Value();
      var nRndPos := Drawn(draw, n, |vRandom|);
      SwapRandomKeeps(h, s, {}, 0, n, nRndPos);
      DecentNext(h, s, n, nRndPos, nNow);
      SwapRandomPlaces(n, nRndPos);
      ai := mapInfo[vRandom[n]];
    }

    /** Gather random addresses to share; `draw(n)` is the random number drawn in round `n`. */
    method GetAddr(draw: nat -> nat, nNow: int) returns (vAddr: seq<Info>)
      requires Valid()
      modifies this
      ensures Valid()
      ensures var (r, k) := GetAddrFrom(h, old(Value()), 0, GetAddrLimit(|old(vRandom)|), draw, nNow);
              && Value() == r
              && (forall id | id in vRandom[..k] :: id in mapInfo) && vAddr == Decent(mapInfo, vRandom[..k], nNow)
    {
      var nNodes := GetAddrLimit(|vRandom|);
      ghost var all := GetAddrFrom(h, Value(), 0, nNodes, draw, nNow);
      vAddr := [];
      var n := 0;
      AllKnown(Value());
      while n < |vRandom| && |vAddr| < nNodes
        invariant Valid() && n <= |vRandom|
        invariant forall id | id in vRandom :: id in mapInfo
        invariant vAddr == Decent(mapInfo, vRandom[..n], nNow)
        invariant GetAddrFrom(h, Value(), n, nNodes, draw, nNow) == all
        decreases |vRandom| - n
      {
        var ai := DrawNext(n, nNodes, draw, nNow);
        if !IsTerrible(ai, nNow) {
          vAddr := vAddr + [Core(ai)];
        }
        n := n + 1;
      }
    }
  }

  /** The stochastic test's factor, doubled once per reference. */
  method Factor(nRefCount: nat) returns (nFactor: nat)
    ensures nFactor == Arithmetic.Pow2(nRefCount)
  {
    nFactor := 1;
    for n := 0 to nRefCount
      invariant nFactor == Arithmetic.Pow2(n)
    {
      nFactor := nFactor * 2;
    }
  }

  /** One round of gathering extends the answer by the entry drawn, unless that entry is terrible. */
  lemma DecentNext(h: Hashes, s: State, k: nat, j: nat, nNow: int)
    requires Inv(h, s, {}, 0) && k <= j < |s.vRandom| && (forall id | id in s.vRandom :: id in s.mapInfo)
    ensures SwapRandom.requires(s, k, j)
    ensures var s1 := SwapRandom(s, k, j);
            && (forall id | id in s1.vRandom :: id in s1.mapInfo)
            && Decent(s1.mapInfo, s1.vRandom[..k + 1], nNow) ==
                 Decent(s.mapInfo, s.vRandom[..k], nNow) +
                   (if IsTerrible(s1.mapInfo[s1.vRandom[k]], nNow) then [] else [Core(s1.mapInfo[s1.vRandom[k]])])
  {
    SwapRandomKeeps(h, s, {}, 0, k, j);
    var s1 := SwapRandom(s, k, j);
    AllKnown(s1);
    assert s1.vRandom[..k + 1][..k] == s.vRandom[..k];
    DecentSame(s.mapInfo, s1.mapInfo, s.vRandom[..k], nNow);
  }

  /** Making room in a tried slot, in the steps the source takes. */
  lemma EvictSteps(h: Hashes, s: State, id: Id, pos: Pos)
    requires Leaving(h, s, id, 1) && pos in s.tried
    ensures s.tried[pos] in s.mapInfo
    ensures var s1, up := EvictOut(s, pos), FallbackPos(h, s, pos);
            && ClearNew.requires(s1, up) && up !in ClearNew(s1, up).news
            && s.tried[pos] in ClearNew(s1, up).mapInfo
            && Evict(h, s, id, pos) == EvictIn(ClearNew(s1, up), s.tried[pos], up)
  {
    var r := EvictClear(h, s, id, pos);
    EvictOutKeeps(h, s, {id}, 1, pos);
    var s1 := EvictOut(s, pos);
    ClearNewKeeps(h, s1, {id} + {s.tried[pos]}, 2, FallbackPos(h, s, pos));
    assert r == ClearNew(s1, FallbackPos(h, s, pos));
  }

  function Wrap(n: nat): (r: nat)
    ensures r < NEW_BUCKET_COUNT
  {
    n % NEW_BUCKET_COUNT
  }

  /** The step at which a search starting at `start` reaches a bucket. */
  function Unwrap(bucket: nat, start: nat): (k: nat)
    requires bucket < NEW_BUCKET_COUNT
    ensures k < NEW_BUCKET_COUNT && Wrap(k + start) == bucket
  {
    (bucket + NEW_BUCKET_COUNT - start % NEW_BUCKET_COUNT) % NEW_BUCKET_COUNT
  }

  /** The slots of an entry in the buckets before `n`. */
  ghost function SlotsBelow(h: Hashes, s: State, id: Id, n: nat): set<Pos>
    requires id in s.mapInfo
  {
    set pos | pos in OwnSlots(h, s, id) && pos.bucket < n
  }

  lemma SlotsBelowNext(h: Hashes, s: State, id: Id, n: nat, news: Table)
    requires id in s.mapInfo && n < NEW_BUCKET_COUNT && news == s.news - SlotsBelow(h, s, id, n)
    ensures var pos := NewPosIn(h, s.nKey, s.mapInfo[id].service, n);
            if Get(news, pos) == Some(id) then
              news - {pos} == s.news - SlotsBelow(h, s, id, n + 1) && |SlotsBelow(h, s, id, n + 1)| == |SlotsBelow(h, s, id, n)| + 1
            else
              news == s.news - SlotsBelow(h, s, id, n + 1) && |SlotsBelow(h, s, id, n + 1)| == |SlotsBelow(h, s, id, n)|
  {
    var pos := NewPosIn(h, s.nKey, s.mapInfo[id].service, n);
    var below := SlotsBelow(h, s, id, n);
    if Get(news, pos) == Some(id) {
      assert SlotsBelow(h, s, id, n + 1) == below + {pos};
    } else {
      assert SlotsBelow(h, s, id, n + 1) == below;
    }
  }
}
