/**
 * What the operations of the address manager do, told by the resulting entries and tables alone. Together
 * with the invariant, which ties reference counts, the address map and the random order to them, this fixes
 * the new state up to the order of the permutation.
 */
module AddrManLaws {
  import opened Prelude
  import opened Arithmetic
  import opened AddrMan

  /** Everything known about an address, apart from where the manager keeps it. */
  predicate SameFacts(a: Info, b: Info) {
    && a.service == b.service && a.nServices == b.nServices && a.nTime == b.nTime && a.source == b.source
    && a.nLastTry == b.nLastTry && a.nLastCountAttempt == b.nLastCountAttempt
    && a.nLastSuccess == b.nLastSuccess && a.nAttempts == b.nAttempts
  }

  lemma CoreFacts(a: Info, b: Info)
    requires Core(a) == Core(b)
    ensures SameFacts(a, b) && a.nRefCount == b.nRefCount && a.fInTried == b.fInTried
  {
    assert Core(a).service == Core(b).service && Core(a).nServices == Core(b).nServices && Core(a).nTime == Core(b).nTime;
    assert Core(a).source == Core(b).source && Core(a).nLastTry == Core(b).nLastTry && Core(a).nAttempts == Core(b).nAttempts;
    assert Core(a).nLastCountAttempt == Core(b).nLastCountAttempt && Core(a).nLastSuccess == Core(b).nLastSuccess;
    assert Core(a).nRefCount == Core(b).nRefCount && Core(a).fInTried == Core(b).fInTried;
  }

  /** Every entry that is left was there before, and what is known of it is the same. */
  ghost predicate FactsKept(s: State, r: State) {
    forall x | x in r.mapInfo :: x in s.mapInfo && SameFacts(r.mapInfo[x], s.mapInfo[x])
  }

  /** Only entries whose last slot was `pos` are forgotten. */
  ghost predicate LosesOnly(s: State, r: State, pos: Pos) {
    forall x | x in s.mapInfo && x !in r.mapInfo :: Refs(s.news, x) == {pos}
  }

  lemma PutBack(m: Table, pos: Pos, id: Id)
    ensures (m - {pos})[pos := id] == m[pos := id]
  {
  }

  lemma FactsKeptTrans(a: State, b: State, c: State)
    requires FactsKept(a, b) && FactsKept(b, c)
    ensures FactsKept(a, c)
  {
  }

  /* ---- Slots and bad entries ---- */

  /** The slots an address hashes to: 1024 new buckets, 256 tried ones, 64 places in each. */
  lemma SlotsAre(h: Hashes, nKey: uint256, svc: Service, source: NetAddr)
    ensures var bucket := h.newHash(nKey, svc, source) % 1024;
            NewPos(h, nKey, svc, source) == Pos(bucket, h.indexHash(nKey, true, bucket, svc) % 64)
    ensures var bucket := h.triedHash(nKey, svc) % 256;
            TriedPos(h, nKey, svc) == Pos(bucket, h.indexHash(nKey, false, bucket, svc) % 64)
  {
  }

  /** Terrible are, unless tried in the last minute: times in the future, not seen for a month, three failures and no success, ten failures in a week. */
  lemma TerribleIff(info: Info, nNow: int)
    ensures IsTerrible(info, nNow) <==>
              && (info.nLastTry == 0 || nNow - info.nLastTry > 60)
              && (|| info.nTime == 0 || info.nTime - nNow > 600 || nNow - info.nTime > 2592000
                  || (info.nAttempts >= 3 && info.nLastSuccess == 0)
                  || (info.nAttempts >= 10 && nNow - info.nLastSuccess > 604800))
  {
  }

  /* ---- Entering a slot ---- */

  /** A slot is had if it is free, if its holder is terrible, or if it is the only hope of the entry and not of the holder. */
  predicate Wins(s: State, id: Id, pos: Pos, nNow: int)
    requires id in s.mapInfo
  {
    pos in s.news ==>
      && s.news[pos] != id && s.news[pos] in s.mapInfo
      && (IsTerrible(s.mapInfo[s.news[pos]], nNow) || (s.mapInfo[id].nRefCount == 0 && s.mapInfo[s.news[pos]].nRefCount > 1))
  }

  lemma EnterIs(h: Hashes, s: State, id: Id, source: NetAddr, nNow: int)
    requires Inv(h, s, {id}, 0) && id in s.mapInfo && !s.mapInfo[id].fInTried
    ensures var pos, r := NewPos(h, s.nKey, s.mapInfo[id].service, source), Enter(h, s, id, source, nNow);
            && r.tried == s.tried
            && r.news == (if Wins(s, id, pos, nNow) then s.news[pos := id] else s.news)
            && (id in r.mapInfo <==> s.mapInfo[id].nRefCount > 0 || Wins(s, id, pos, nNow))
            && (forall x | x in r.mapInfo :: x in s.mapInfo && SameFacts(r.mapInfo[x], s.mapInfo[x]))
            && (forall x | x in s.mapInfo && x != id && x !in r.mapInfo :: Wins(s, id, pos, nNow) && Refs(s.news, x) == {pos})
  {
    var pos, r := NewPos(h, s.nKey, s.mapInfo[id].service, source), Enter(h, s, id, source, nNow);
    assert pos in s.news ==> NewSlotOk(h, s, pos);
    assert EntryCounted(s, {id}, id);
    if Get(s.news, pos) == Some(id) {
      assert pos in Refs(s.news, id);
    } else if MayTake(s, id, pos, nNow) {
      ClearNewKeeps(h, s, {id}, 0, pos);
      var s1 := ClearedIs(s, {id}, pos);
      assert r == AddRef(s1, id, pos);
      PutBack(s.news, pos, id);
    } else if s.mapInfo[id].nRefCount == 0 {
      DeleteKeeps(h, s, {id}, 0, id);
      DeletedIs(s, id, r);
    }
  }

  /** What is left when a slot is cleared. */
  lemma ClearedIs(s: State, loose: set<Id>, pos: Pos) returns (r: State)
    requires Counted(s, loose) && ClearNew.requires(s, pos)
    ensures r == ClearNew(s, pos) && r.tried == s.tried && r.news == s.news - {pos}
    ensures FactsKept(s, r) && LosesOnly(s, r, pos)
    ensures forall x | x in s.mapInfo && Get(s.news, pos) != Some(x) :: x in r.mapInfo
  {
    ClearNewClears(s, pos);
    r := ClearNew(s, pos);
    forall x | x in r.mapInfo
      ensures x in s.mapInfo && SameFacts(r.mapInfo[x], s.mapInfo[x])
    {
      ClearedFacts(s, pos, x);
    }
    forall x | x in s.mapInfo && x !in r.mapInfo
      ensures Refs(s.news, x) == {pos}
    {
      assert EntryCounted(s, loose, x);
      SingleRef(s, x, pos);
    }
  }

  lemma ClearedFacts(s: State, pos: Pos, x: Id)
    requires ClearNew.requires(s, pos) && x in ClearNew(s, pos).mapInfo
    ensures x in s.mapInfo && SameFacts(ClearNew(s, pos).mapInfo[x], s.mapInfo[x])
  {
    ClearNewClears(s, pos);
    if pos in s.news && s.news[pos] == x {
      CoreFacts(ClearNew(s, pos).mapInfo[x], s.mapInfo[x].(nRefCount := s.mapInfo[x].nRefCount - 1));
    } else {
      CoreFacts(ClearNew(s, pos).mapInfo[x], s.mapInfo[x]);
    }
  }

  lemma DeletedIs(s: State, id: Id, r: State)
    requires CanDelete(s, id) && r == Delete(s, id)
    ensures r.tried == s.tried && r.news == s.news && r.mapInfo.Keys == s.mapInfo.Keys - {id}
    ensures forall x | x in r.mapInfo :: SameFacts(r.mapInfo[x], s.mapInfo[x])
  {
    DeleteRemoves(s, id);
    forall x | x in r.mapInfo
      ensures SameFacts(r.mapInfo[x], s.mapInfo[x])
    {
      assert Core(r.mapInfo[x]) == Core((s.mapInfo - {id})[x]);
      CoreFacts(r.mapInfo[x], s.mapInfo[x]);
    }
  }

  /* ---- Adding ---- */

  /** What is not routable is ignored. */
  lemma AddIgnores(h: Hashes, s: State, addr: Address, source: NetAddr, nTimePenalty: int, nNow: int, draw: nat)
    requires Inv(h, s, {}, 0) && !addr.isRoutable
    ensures Add(h, s, addr, source, nTimePenalty, nNow, draw) == (false, s)
  {
  }

  /** The time stamp of a known address after it was heard of again: renewed at most once an hour, or once a day if it is old. */
  function HeardAt(time: int, heard: int, nTimePenalty: int, nNow: int): int {
    if heard == 0 || (time != 0 && heard - time <= nTimePenalty + (if nNow - heard < 86400 then 3600 else 86400)) then time
    else if heard > nTimePenalty then heard - nTimePenalty else 0
  }

  /** Whether a known address may compete for one more slot: it is heard of newly, not tried, in fewer than eight slots, and lucky. */
  predicate MayGrow(was: Info, time: int, heard: int, draw: nat) {
    && heard != 0 && (time == 0 || heard > time) && !was.fInTried && 0 <= was.nRefCount < 8
    && draw % Pow2(was.nRefCount) == 0
  }

  lemma RefreshIs(h: Hashes, s: State, id: Id, addr: Address, nTimePenalty: int, nNow: int, draw: nat)
    requires Inv(h, s, {}, 0) && id in s.mapInfo
    ensures var was, info := s.mapInfo[id], Refresh(s.mapInfo[id], addr, nTimePenalty, nNow);
            && SameFacts(info, was.(nServices := was.nServices + addr.nServices, nTime := HeardAt(was.nTime, addr.nTime, nTimePenalty, nNow)))
            && (MayMultiply(info, addr, draw) <==> MayGrow(was, info.nTime, addr.nTime, draw))
  {
    assert EntryCounted(s, {}, id);
  }

  /**
   * Adding an address that is known: its services and time are brought up to date, and it gets the slot for the new
   * source exactly if it may grow and the slot is free or its holder terrible. No other entry changes, except that a
   * terrible one may lose the slot, and is forgotten if it had no other.
   */
  lemma AddKnownIs(h: Hashes, s: State, addr: Address, source: NetAddr, nTimePenalty: int, nNow: int, draw: nat)
    requires Inv(h, s, {}, 0) && addr.isRoutable && addr.service.addr in s.mapAddr
    ensures s.mapAddr[addr.service.addr] in s.mapInfo
    ensures var id := s.mapAddr[addr.service.addr];
            var was, a := s.mapInfo[id], Add(h, s, addr, source, nTimePenalty, nNow, draw);
            var r, pos := a.1, NewPos(h, s.nKey, was.service, source);
            var time := HeardAt(was.nTime, addr.nTime, nTimePenalty, nNow);
            && !a.0 && id in r.mapInfo && r.tried == s.tried
            && SameFacts(r.mapInfo[id], was.(nServices := was.nServices + addr.nServices, nTime := time))
            && r.news == (if MayGrow(was, time, addr.nTime, draw)
                             && (pos in s.news ==> s.news[pos] != id && s.news[pos] in s.mapInfo && IsTerrible(s.mapInfo[s.news[pos]], nNow))
                          then s.news[pos := id] else s.news)
            && (forall x | x in r.mapInfo && x != id :: x in s.mapInfo && SameFacts(r.mapInfo[x], s.mapInfo[x]))
            && (forall x | x in s.mapInfo && x !in r.mapInfo :: Refs(s.news, x) == {pos})
  {
    KnownEntry(h, s, addr.service.addr);
    var id := s.mapAddr[addr.service.addr];
    var info := Refresh(s.mapInfo[id], addr, nTimePenalty, nNow);
    var s1 := SetInfo(s, id, info);
    RefreshKeeps(h, s, id, addr, nTimePenalty, nNow);
    RefreshIs(h, s, id, addr, nTimePenalty, nNow, draw);
    var r := AddKnown(h, s, id, addr, source, nTimePenalty, nNow, draw);
    assert Add(h, s, addr, source, nTimePenalty, nNow, draw) == (false, r);
    if MayMultiply(info, addr, draw) {
      assert EntryCounted(s1, {}, id);
      Reloose(h, s1, {}, {id}, 0);
      EnterIs(h, s1, id, source, nNow);
      assert r == Enter(h, s1, id, source, nNow);
    } else {
      assert r == s1;
    }
  }

  /**
   * Adding an address that is not known: it is reported as added, and entered with what was heard exactly if its slot
   * is free, or held by an entry that is terrible or has other slots.
   */
  lemma AddUnknownIs(h: Hashes, s: State, addr: Address, source: NetAddr, nTimePenalty: int, nNow: int, draw: nat)
    requires Inv(h, s, {}, 0) && addr.isRoutable && addr.service.addr !in s.mapAddr
    ensures var id, a := s.nIdCount, Add(h, s, addr, source, nTimePenalty, nNow, draw);
            var r, pos := a.1, NewPos(h, s.nKey, addr.service, source);
            var wins := pos in s.news ==> s.news[pos] in s.mapInfo && (IsTerrible(s.mapInfo[s.news[pos]], nNow) || s.mapInfo[s.news[pos]].nRefCount > 1);
            && a.0 && id !in s.mapInfo && r.tried == s.tried
            && r.news == (if wins then s.news[pos := id] else s.news)
            && (id in r.mapInfo <==> wins)
            && (wins ==> SameFacts(r.mapInfo[id], Info(addr.service, addr.nServices, Max(0, addr.nTime - nTimePenalty), source, 0, 0, 0, 0, 1, false, 0)))
            && (forall x | x in r.mapInfo && x != id :: x in s.mapInfo && SameFacts(r.mapInfo[x], s.mapInfo[x]))
            && (forall x | x in s.mapInfo && x !in r.mapInfo :: Refs(s.news, x) == {pos})
  {
    var id, s1 := s.nIdCount, Learnt(h, s, addr, source, nTimePenalty);
    var pos := NewPos(h, s.nKey, addr.service, source);
    assert pos in s.news ==> NewSlotOk(h, s, pos);
    LearntTables(h, s, addr, source, nTimePenalty);
    EnterIs(h, s1, id, source, nNow);
    UnknownEnters(h, s, addr, source, nTimePenalty, nNow);
    assert Add(h, s, addr, source, nTimePenalty, nNow, draw) == (true, Enter(h, s1, id, source, nNow));
  }

  lemma LearntTables(h: Hashes, s: State, addr: Address, source: NetAddr, nTimePenalty: int)
    requires Inv(h, s, {}, 0) && addr.service.addr !in s.mapAddr
    ensures var r, id := Learnt(h, s, addr, source, nTimePenalty), s.nIdCount;
            && r.news == s.news && r.tried == s.tried && r.nKey == s.nKey && r.mapInfo.Keys == s.mapInfo.Keys + {id}
            && SameFacts(r.mapInfo[id], Info(addr.service, addr.nServices, Max(0, addr.nTime - nTimePenalty), source, 0, 0, 0, 0, 1, false, 0))
            && (forall x | x in s.mapInfo :: r.mapInfo[x] == s.mapInfo[x])
  {
  }

  /* ---- Recording attempts, connections and successes ---- */

  /** The entry an operation on a service is about: the one with its address, if the port is the same. */
  predicate Names(s: State, svc: Service) {
    svc.addr in s.mapAddr && s.mapAddr[svc.addr] in s.mapInfo && s.mapInfo[s.mapAddr[svc.addr]].service == svc
  }

  /** An attempt is dated; it counts as a failure if that is asked for and none was counted since the last success of anyone. */
  lemma AttemptIs(h: Hashes, s: State, svc: Service, fCountFailure: bool, nTime: int)
    requires Inv(h, s, {}, 0) && nTime >= 0
    ensures !Names(s, svc) ==> Attempt(h, s, svc, fCountFailure, nTime) == s
    ensures Names(s, svc) ==>
              var id, r := s.mapAddr[svc.addr], Attempt(h, s, svc, fCountFailure, nTime);
              var was, counts := s.mapInfo[id], fCountFailure && s.mapInfo[id].nLastCountAttempt < s.nLastGood;
              && r == s.(mapInfo := r.mapInfo) && r.mapInfo == s.mapInfo[id := r.mapInfo[id]]
              && r.mapInfo[id].nLastTry == nTime
              && r.mapInfo[id].nAttempts - was.nAttempts == (if counts then 1 else 0)
              && r.mapInfo[id].nLastCountAttempt == (if counts then nTime else was.nLastCountAttempt)
              && r.mapInfo[id].(nLastTry := was.nLastTry, nAttempts := was.nAttempts, nLastCountAttempt := was.nLastCountAttempt) == was
  {
    if svc.addr in s.mapAddr {
      KnownEntry(h, s, svc.addr);
    }
  }

  /** A connection renews the time stamp if it is more than twenty minutes old. */
  lemma ConnectedIs(h: Hashes, s: State, svc: Service, nTime: int)
    requires Inv(h, s, {}, 0)
    ensures !Names(s, svc) ==> Connected(h, s, svc, nTime) == s
    ensures Names(s, svc) ==>
              var id, r := s.mapAddr[svc.addr], Connected(h, s, svc, nTime);
              var was := s.mapInfo[id];
              && r == s.(mapInfo := r.mapInfo) && r.mapInfo == s.mapInfo[id := r.mapInfo[id]]
              && r.mapInfo[id].nTime == (if nTime > was.nTime + 1200 then nTime else was.nTime)
              && r.mapInfo[id].(nTime := was.nTime) == was
  {
    if svc.addr in s.mapAddr {
      KnownEntry(h, s, svc.addr);
    }
    if Names(s, svc) {
      var id, r := s.mapAddr[svc.addr], Connected(h, s, svc, nTime);
      assert s.mapInfo[id := s.mapInfo[id]] == s.mapInfo;
    }
  }

  /** What marking an address good makes of its entry. */
  predicate Succeeded(info: Info, was: Info, nTime: int) {
    SameFacts(info, was.(nLastSuccess := nTime, nLastTry := nTime, nAttempts := 0))
  }

  /** Marking an entry good that is tried already only updates it; what is not known under this port is ignored. */
  lemma GoodAgainIs(h: Hashes, s: State, svc: Service, nTime: int)
    requires Inv(h, s, {}, 0) && nTime > 0
    ensures !Names(s, svc) ==> Good(h, s, svc, nTime) == s
    ensures Names(s, svc) && s.mapInfo[s.mapAddr[svc.addr]].fInTried ==>
              var id, r := s.mapAddr[svc.addr], Good(h, s, svc, nTime);
              && r == s.(mapInfo := r.mapInfo) && r.mapInfo == s.mapInfo[id := r.mapInfo[id]]
              && Succeeded(r.mapInfo[id], s.mapInfo[id], nTime)
  {
    if svc.addr in s.mapAddr {
      KnownEntry(h, s, svc.addr);
    }
  }

  /** The tables after an entry was moved from the new table to a tried slot. */
  ghost predicate Moved(h: Hashes, s: State, r: State, id: Id, pos: Pos) {
    && r.tried == s.tried[pos := id]
    && if pos in s.tried then
         && s.tried[pos] in s.mapInfo && LosesOnly(s, r, FallbackPos(h, s, pos))
         && r.news == (s.news - Refs(s.news, id))[FallbackPos(h, s, pos) := s.tried[pos]]
       else s.mapInfo.Keys <= r.mapInfo.Keys && r.news == s.news - Refs(s.news, id)
  }

  lemma MakeTriedIs(h: Hashes, s: State, id: Id) returns (r: State)
    requires Inv(h, s, {}, 0) && id in s.mapInfo && !s.mapInfo[id].fInTried && s.mapInfo[id].nLastSuccess != 0
    ensures r == MakeTried(h, s, id) && id in r.mapInfo && FactsKept(s, r)
    ensures Moved(h, s, r, id, TriedPos(h, s.nKey, s.mapInfo[id].service))
  {
    DropRefsKeeps(h, s, id);
    OwnSlotsAreRefs(h, s, id);
    var s1, pos := DropRefs(h, s, id), TriedPos(h, s.nKey, s.mapInfo[id].service);
    var s2 := EvictIs(h, s1, id, pos);
    r := Settle(s2, id, pos);
    assert r == MakeTried(h, s, id);
    SettledIs(h, s, s1, s2, id, pos);
  }

  lemma SettledIs(h: Hashes, s: State, s1: State, s2: State, id: Id, pos: Pos)
    requires id in s.mapInfo && OwnSlots(h, s, id) == Refs(s.news, id) && s1 == DropRefs(h, s, id)
    requires id in s2.mapInfo && FactsKept(s1, s2) && s2.tried == s1.tried - {pos}
    requires if pos in s1.tried then
               s1.tried[pos] in s1.mapInfo && LosesOnly(s1, s2, FallbackPos(h, s1, pos)) && s2.news == s1.news[FallbackPos(h, s1, pos) := s1.tried[pos]]
             else s2 == s1
    ensures FactsKept(s, Settle(s2, id, pos)) && Moved(h, s, Settle(s2, id, pos), id, pos)
  {
    DropRefsFacts(h, s, id);
    FactsKeptTrans(s, s1, s2);
    SettleFacts(s2, id, pos);
    FactsKeptTrans(s, s2, Settle(s2, id, pos));
    PutBack(s.tried, pos, id);
    if pos in s.tried {
      RefsElsewhere(s, s1, Settle(s2, id, pos), id, FallbackPos(h, s, pos));
    }
  }

  lemma DropRefsFacts(h: Hashes, s: State, id: Id)
    requires id in s.mapInfo
    ensures FactsKept(s, DropRefs(h, s, id)) && DropRefs(h, s, id).mapInfo.Keys == s.mapInfo.Keys
  {
  }

  lemma SettleFacts(s: State, id: Id, pos: Pos)
    requires id in s.mapInfo
    ensures FactsKept(s, Settle(s, id, pos)) && Settle(s, id, pos).mapInfo.Keys == s.mapInfo.Keys
  {
  }

  lemma EvictOutFacts(s: State, pos: Pos)
    requires pos in s.tried && s.tried[pos] in s.mapInfo
    ensures FactsKept(s, EvictOut(s, pos)) && EvictOut(s, pos).mapInfo.Keys == s.mapInfo.Keys
  {
  }

  lemma RefsElsewhere(s: State, s1: State, r: State, id: Id, up: Pos)
    requires s1.news == s.news - Refs(s.news, id) && s1.mapInfo.Keys == s.mapInfo.Keys && id in r.mapInfo && LosesOnly(s1, r, up)
    ensures LosesOnly(s, r, up)
  {
    forall x | x in s.mapInfo && x !in r.mapInfo
      ensures Refs(s.news, x) == {up}
    {
      assert Refs(s1.news, x) == Refs(s.news, x);
    }
  }

  lemma EvictIs(h: Hashes, s: State, id: Id, pos: Pos) returns (r: State)
    requires Leaving(h, s, id, 1)
    ensures r == Evict(h, s, id, pos) && r.tried == s.tried - {pos} && id in r.mapInfo && FactsKept(s, r)
    ensures if pos in s.tried then
              s.tried[pos] in s.mapInfo && LosesOnly(s, r, FallbackPos(h, s, pos)) && r.news == s.news[FallbackPos(h, s, pos) := s.tried[pos]]
            else r == s
  {
    r := Evict(h, s, id, pos);
    if pos in s.tried {
      EvictOutKeeps(h, s, {id}, 1, pos);
      var evicted, up := s.tried[pos], FallbackPos(h, s, pos);
      var s1 := EvictOut(s, pos);
      Reloose(h, s1, {id} + {evicted}, {id, evicted}, 2);
      ClearNewKeeps(h, s1, {id, evicted}, 2, up);
      var s2 := ClearedIs(s1, {id, evicted}, up);
      assert r == EvictIn(s2, evicted, up);
      EvictOutFacts(s, pos);
      EvictedBack(s, s1, s2, r, evicted, up);
    } else {
      assert s.tried - {pos} == s.tried;
    }
  }

  lemma EvictedBack(s: State, s1: State, s2: State, r: State, evicted: Id, up: Pos)
    requires s1.news == s.news && s1.mapInfo.Keys == s.mapInfo.Keys && FactsKept(s, s1) && FactsKept(s1, s2) && LosesOnly(s1, s2, up)
    requires evicted in s2.mapInfo && s2.news == s.news - {up} && r == EvictIn(s2, evicted, up)
    ensures FactsKept(s, r) && LosesOnly(s, r, up) && r.news == s.news[up := evicted]
  {
    FactsKeptTrans(s, s1, s2);
    PutBack(s.news, up, evicted);
  }

  /**
   * Marking a new entry good: it leaves all its slots of the new table for its tried slot; an occupant of that slot takes
   * the slot of its own source in the new table, from whoever holds it. No other slot and no other entry changes.
   */
  lemma GoodNewIs(h: Hashes, s: State, svc: Service, nTime: int)
    requires Inv(h, s, {}, 0) && nTime > 0 && Names(s, svc) && !s.mapInfo[s.mapAddr[svc.addr]].fInTried
    ensures var id, r := s.mapAddr[svc.addr], Good(h, s, svc, nTime);
            && Moved(h, s, r, id, TriedPos(h, s.nKey, svc))
            && id in r.mapInfo && Succeeded(r.mapInfo[id], s.mapInfo[id], nTime)
            && (forall x | x in r.mapInfo && x != id :: x in s.mapInfo && SameFacts(r.mapInfo[x], s.mapInfo[x]))
  {
    var id, pos := s.mapAddr[svc.addr], TriedPos(h, s.nKey, svc);
    var s1 := SetInfo(s, id, Worked(s.mapInfo[id], nTime));
    SetInfoKeeps(h, s, {}, 0, id, Worked(s.mapInfo[id], nTime));
    GoodFindsABucket(h, s1, id);
    assert pos in s.tried ==> TriedSlotOk(h, s, pos);
    var r := MakeTriedIs(h, s1, id);
    assert Good(h, s, svc, nTime) == r;
    UpdatedMoved(h, s, r, id, pos, Worked(s.mapInfo[id], nTime));
  }

  /** Updating an entry first does not change where it is moved. */
  lemma UpdatedMoved(h: Hashes, s: State, r: State, id: Id, pos: Pos, info: Info)
    requires id in s.mapInfo && info.service == s.mapInfo[id].service && info.source == s.mapInfo[id].source
    requires FactsKept(SetInfo(s, id, info), r) && Moved(h, SetInfo(s, id, info), r, id, pos) && id in r.mapInfo
    ensures Moved(h, s, r, id, pos) && SameFacts(r.mapInfo[id], info)
    ensures forall x | x in r.mapInfo && x != id :: x in s.mapInfo && SameFacts(r.mapInfo[x], s.mapInfo[x])
  {
    var s1 := SetInfo(s, id, info);
    assert s1.mapInfo.Keys == s.mapInfo.Keys;
    assert forall x | x in r.mapInfo :: x in s1.mapInfo && SameFacts(r.mapInfo[x], s1.mapInfo[x]);
    if pos in s.tried {
      assert LosesOnly(s1, r, FallbackPos(h, s, pos));
    }
  }
}
