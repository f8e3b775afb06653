/**
 * The stochastic address manager as a value: an id map, an address map, a random permutation with
 * back-pointers, and the "new" and "tried" bucket tables. Hash functions are arbitrary parameters.
 * A bucket table is the partial map of its occupied positions.
 */
module AddrMan {
  import opened Prelude
  import Arithmetic

  const NEW_BUCKET_COUNT: nat := 1024
  const TRIED_BUCKET_COUNT: nat := 256
  const BUCKET_SIZE: nat := 64
  const NEW_BUCKETS_PER_ADDRESS := 8
  const HORIZON_DAYS := 30
  const RETRIES := 3
  const MAX_FAILURES := 10
  const MIN_FAIL_DAYS := 7
  const GETADDR_MAX_PCT := 23
  const GETADDR_MAX := 2500

  /** Ids count up from 0; -1 marks an empty slot. */
  newtype Id = x: int | -1 <= x

  datatype NetAddr = NetAddr(ip: nat)
  datatype Service = Service(addr: NetAddr, port: nat)

  datatype Info = Info(
    service: Service,
    nServices: set<nat>,
    nTime: int,
    source: NetAddr,
    nLastTry: int,
    nLastCountAttempt: int,
    nLastSuccess: int,
    nAttempts: int,
    nRefCount: int,
    fInTried: bool,
    nRandomPos: int)

  datatype Pos = Pos(bucket: nat, index: nat)
  type Table = map<Pos, Id>

  /** The keyed hashes; the source reduces their values modulo the table sizes. */
  datatype Hashes = Hashes(
    triedHash: (uint256, Service) -> nat,
    newHash: (uint256, Service, NetAddr) -> nat,
    indexHash: (uint256, bool, nat, Service) -> nat)

  datatype State = State(
    nKey: uint256,
    nIdCount: Id,
    mapInfo: map<Id, Info>,
    mapAddr: map<NetAddr, Id>,
    vRandom: seq<Id>,
    nTried: int,
    tried: Table,
    nNew: int,
    news: Table,
    nLastGood: int)

  function Init(nKey: uint256): State {
    State(nKey, 0, map[], map[], [], 0, map[], 0, map[], 1)
  }

  function TriedPos(h: Hashes, nKey: uint256, svc: Service): Pos {
    var bucket := h.triedHash(nKey, svc) % TRIED_BUCKET_COUNT;
    Pos(bucket, h.indexHash(nKey, false, bucket, svc) % BUCKET_SIZE)
  }

  function NewPosIn(h: Hashes, nKey: uint256, svc: Service, bucket: nat): Pos {
    Pos(bucket, h.indexHash(nKey, true, bucket, svc) % BUCKET_SIZE)
  }

  function NewPos(h: Hashes, nKey: uint256, svc: Service, source: NetAddr): Pos {
    NewPosIn(h, nKey, svc, h.newHash(nKey, svc, source) % NEW_BUCKET_COUNT)
  }

  /** Bad enough to be overwritten without regret. */
  predicate IsTerrible(info: Info, nNow: int) {
    if info.nLastTry != 0 && info.nLastTry >= nNow - 60 then false
    else if info.nTime > nNow + 10 * 60 then true
    else if info.nTime == 0 || nNow - info.nTime > HORIZON_DAYS * 24 * 60 * 60 then true
    else if info.nLastSuccess == 0 && info.nAttempts >= RETRIES then true
    else nNow - info.nLastSuccess > MIN_FAIL_DAYS * 24 * 60 * 60 && info.nAttempts >= MAX_FAILURES
  }

  /* ---- The primitive operations ---- */

  /** Enter an entry under the next id, at the end of the permutation. */
  function Insert(s: State, info: Info): State {
    s.(nIdCount := s.nIdCount + 1,
       mapInfo := s.mapInfo[s.nIdCount := info.(nRandomPos := |s.vRandom|)],
       mapAddr := s.mapAddr[info.service.addr := s.nIdCount],
       vRandom := s.vRandom + [s.nIdCount])
  }

  function Create(s: State, svc: Service, nServices: set<nat>, nTime: int, source: NetAddr): State {
    Insert(s, Info(svc, nServices, nTime, source, 0, 0, 0, 0, 0, false, -1))
  }

  function SwapRandom(s: State, i: nat, j: nat): State
    requires i < |s.vRandom| && j < |s.vRandom| && s.vRandom[i] in s.mapInfo && s.vRandom[j] in s.mapInfo
  {
    if i == j then s
    else
      var a, b := s.vRandom[i], s.vRandom[j];
      var m := s.mapInfo[a := s.mapInfo[a].(nRandomPos := j)];
      s.(mapInfo := m[b := m[b].(nRandomPos := i)], vRandom := s.vRandom[i := b][j := a])
  }

  /** An entry can be deleted when it has its place in the permutation and no table refers to it. */
  predicate CanDelete(s: State, id: Id) {
    && id in s.mapInfo && !s.mapInfo[id].fInTried && s.mapInfo[id].nRefCount == 0
    && 0 <= s.mapInfo[id].nRandomPos < |s.vRandom|
    && s.vRandom[s.mapInfo[id].nRandomPos] == id && s.vRandom[|s.vRandom| - 1] in s.mapInfo
  }

  function MoveLast(s: State, id: Id): (r: State)
    requires CanDelete(s, id)
    ensures id in r.mapInfo && r.vRandom != []
  {
    SwapRandom(s, s.mapInfo[id].nRandomPos, |s.vRandom| - 1)
  }

  function DropLast(s: State, id: Id): State
    requires id in s.mapInfo && s.vRandom != []
  {
    s.(vRandom := s.vRandom[..|s.vRandom| - 1], mapAddr := s.mapAddr - {s.mapInfo[id].service.addr},
       mapInfo := s.mapInfo - {id}, nNew := s.nNew - 1)
  }

  function Delete(s: State, id: Id): State
    requires CanDelete(s, id)
  {
    DropLast(MoveLast(s, id), id)
  }

  /** Take away the reference at `pos`, if any. */
  function Unref(s: State, pos: Pos): State {
    if pos in s.news && s.news[pos] in s.mapInfo then
      var id := s.news[pos];
      s.(mapInfo := s.mapInfo[id := s.mapInfo[id].(nRefCount := s.mapInfo[id].nRefCount - 1)], news := s.news - {pos})
    else s
  }

  function ClearNew(s: State, pos: Pos): State
    requires pos in s.news ==>
      && s.news[pos] in s.mapInfo && s.mapInfo[s.news[pos]].nRefCount >= 1
      && (s.mapInfo[s.news[pos]].nRefCount == 1 ==> CanDelete(Unref(s, pos), s.news[pos]))
  {
    if pos !in s.news then s
    else
      var s1 := Unref(s, pos);
      if s1.mapInfo[s.news[pos]].nRefCount == 0 then Delete(s1, s.news[pos]) else s1
  }

  /* ---- The invariant ---- */

  /** The slots of the new table that refer to an entry. */
  function Refs(news: Table, id: Id): set<Pos> {
    set pos | pos in news && news[pos] == id
  }

  function TriedIds(m: map<Id, Info>): set<Id> {
    set id | id in m && m[id].fInTried
  }

  function NewIds(m: map<Id, Info>): set<Id> {
    set id | id in m && !m[id].fInTried
  }

  ghost predicate EntryLinked(s: State, id: Id)
    requires id in s.mapInfo
  {
    && 0 <= id < s.nIdCount
    && Get(s.mapAddr, s.mapInfo[id].service.addr) == Some(id)
    && 0 <= s.mapInfo[id].nRandomPos < |s.vRandom| && s.vRandom[s.mapInfo[id].nRandomPos] == id
  }

  ghost predicate AddrLinked(s: State, a: NetAddr)
    requires a in s.mapAddr
  {
    s.mapAddr[a] in s.mapInfo && s.mapInfo[s.mapAddr[a]].service.addr == a
  }

  ghost predicate PlaceLinked(s: State, k: int)
    requires 0 <= k < |s.vRandom|
  {
    s.vRandom[k] in s.mapInfo && s.mapInfo[s.vRandom[k]].nRandomPos == k
  }

  /** The address map and the permutation are inverse to what the entries say. */
  ghost predicate Linked(s: State) {
    && s.nIdCount >= 0
    && |s.vRandom| == |s.mapInfo|
    && (forall id {:trigger EntryLinked(s, id)} | id in s.mapInfo :: EntryLinked(s, id))
    && (forall a {:trigger AddrLinked(s, a)} | a in s.mapAddr :: AddrLinked(s, a))
    && (forall k {:trigger PlaceLinked(s, k)} | 0 <= k < |s.vRandom| :: PlaceLinked(s, k))
  }

  ghost predicate NewSlotOk(h: Hashes, s: State, pos: Pos)
    requires pos in s.news
  {
    && pos.bucket < NEW_BUCKET_COUNT
    && s.news[pos] in s.mapInfo && !s.mapInfo[s.news[pos]].fInTried
    && pos == NewPosIn(h, s.nKey, s.mapInfo[s.news[pos]].service, pos.bucket)
  }

  ghost predicate TriedSlotOk(h: Hashes, s: State, pos: Pos)
    requires pos in s.tried
  {
    && s.tried[pos] in s.mapInfo && s.mapInfo[s.tried[pos]].fInTried
    && pos == TriedPos(h, s.nKey, s.mapInfo[s.tried[pos]].service)
  }

  ghost predicate HasTriedSlot(h: Hashes, s: State, id: Id)
    requires id in s.mapInfo
  {
    s.mapInfo[id].fInTried ==> Get(s.tried, TriedPos(h, s.nKey, s.mapInfo[id].service)) == Some(id)
  }

  /** Every occupied slot is the one its entry hashes to, and every tried entry has its slot. */
  ghost predicate Placed(h: Hashes, s: State) {
    && (forall pos {:trigger NewSlotOk(h, s, pos)} | pos in s.news :: NewSlotOk(h, s, pos))
    && (forall pos {:trigger TriedSlotOk(h, s, pos)} | pos in s.tried :: TriedSlotOk(h, s, pos))
    && (forall id {:trigger HasTriedSlot(h, s, id)} | id in s.mapInfo :: HasTriedSlot(h, s, id))
  }

  ghost predicate EntryCounted(s: State, loose: set<Id>, id: Id)
    requires id in s.mapInfo
  {
    var info := s.mapInfo[id];
    && info.nRefCount == |Refs(s.news, id)| <= NEW_BUCKETS_PER_ADDRESS
    && (!info.fInTried && id !in loose ==> info.nRefCount >= 1)
    && (info.fInTried ==> info.nLastSuccess != 0)
    && info.nLastTry >= 0 && info.nLastSuccess >= 0
  }

  /** Reference counts are exact; only the entries in `loose` may be new without any reference. */
  ghost predicate Counted(s: State, loose: set<Id>) {
    forall id {:trigger EntryCounted(s, loose, id)} | id in s.mapInfo :: EntryCounted(s, loose, id)
  }

  /** The counters, with `uncounted` new entries that `nNew` does not include. */
  ghost predicate Sized(s: State, uncounted: int) {
    && s.nTried == |TriedIds(s.mapInfo)|
    && s.nNew + uncounted == |NewIds(s.mapInfo)|
  }

  ghost predicate Inv(h: Hashes, s: State, loose: set<Id>, uncounted: int) {
    Linked(s) && Placed(h, s) && Counted(s, loose) && Sized(s, uncounted)
  }

  /* ---- Changes that only touch part of the structure ---- */

  /** The entries are the same as far as addresses and places go. */
  ghost predicate SameLinks(m: map<Id, Info>, m': map<Id, Info>) {
    && m'.Keys == m.Keys
    && forall id | id in m :: m'[id].service == m[id].service && m'[id].nRandomPos == m[id].nRandomPos
  }

  /** The entries are the same as far as the tables go. */
  ghost predicate SameSpots(m: map<Id, Info>, m': map<Id, Info>) {
    && m'.Keys == m.Keys
    && forall id | id in m :: m'[id].service == m[id].service && m'[id].fInTried == m[id].fInTried
  }

  lemma LinkedFrame(s: State, s': State)
    requires Linked(s) && SameLinks(s.mapInfo, s'.mapInfo)
    requires s'.nIdCount == s.nIdCount && s'.mapAddr == s.mapAddr && s'.vRandom == s.vRandom
    ensures Linked(s')
  {
    assert |s'.mapInfo| == |s'.mapInfo.Keys| && |s.mapInfo| == |s.mapInfo.Keys|;
    forall id | id in s'.mapInfo
      ensures EntryLinked(s', id)
    {
      assert EntryLinked(s, id);
    }
    forall a | a in s'.mapAddr
      ensures AddrLinked(s', a)
    {
      assert AddrLinked(s, a);
    }
    forall k | 0 <= k < |s'.vRandom|
      ensures PlaceLinked(s', k)
    {
      assert PlaceLinked(s, k);
    }
  }

  lemma PlacedFrame(h: Hashes, s: State, s': State)
    requires Placed(h, s) && SameSpots(s.mapInfo, s'.mapInfo)
    requires s'.nKey == s.nKey && s'.news == s.news && s'.tried == s.tried
    ensures Placed(h, s')
  {
    forall pos | pos in s'.news
      ensures NewSlotOk(h, s', pos)
    {
      assert NewSlotOk(h, s, pos);
    }
    forall pos | pos in s'.tried
      ensures TriedSlotOk(h, s', pos)
    {
      assert TriedSlotOk(h, s, pos);
    }
    forall id | id in s'.mapInfo
      ensures HasTriedSlot(h, s', id)
    {
      assert HasTriedSlot(h, s, id);
    }
  }

  lemma SizedFrame(s: State, s': State, uncounted: int)
    requires Sized(s, uncounted) && SameSpots(s.mapInfo, s'.mapInfo) && s'.nTried == s.nTried && s'.nNew == s.nNew
    ensures Sized(s', uncounted)
  {
    assert TriedIds(s'.mapInfo) == TriedIds(s.mapInfo);
    assert NewIds(s'.mapInfo) == NewIds(s.mapInfo);
  }

  function One(b: bool): int { if b then 1 else 0 }

  /** The sizes after one entry is written. */
  lemma PutSizes(m: map<Id, Info>, id: Id, info: Info)
    ensures |TriedIds(m[id := info])| == |TriedIds(m)| - One(id in m && m[id].fInTried) + One(info.fInTried)
    ensures |NewIds(m[id := info])| == |NewIds(m)| - One(id in m && !m[id].fInTried) + One(!info.fInTried)
    ensures |m[id := info]| == |m| + One(id !in m)
  {
    var rest := m - {id};
    RemoveSizes(m, id);
    RemoveSizes(m[id := info], id);
    assert m[id := info] - {id} == rest;
  }

  lemma RemoveSizes(m: map<Id, Info>, id: Id)
    ensures |TriedIds(m - {id})| == |TriedIds(m)| - One(id in m && m[id].fInTried)
    ensures |NewIds(m - {id})| == |NewIds(m)| - One(id in m && !m[id].fInTried)
    ensures |m - {id}| == |m| - One(id in m)
  {
    if id in m {
      RemoveTried(m, id);
      RemoveNew(m, id);
      assert (m - {id}).Keys == m.Keys - {id};
    } else {
      assert m - {id} == m;
    }
  }

  lemma RemoveTried(m: map<Id, Info>, id: Id)
    requires id in m
    ensures |TriedIds(m - {id})| == |TriedIds(m)| - One(m[id].fInTried)
  {
    if m[id].fInTried {
      assert TriedIds(m) == TriedIds(m - {id}) + {id};
    } else {
      assert TriedIds(m) == TriedIds(m - {id});
    }
  }

  lemma RemoveNew(m: map<Id, Info>, id: Id)
    requires id in m
    ensures |NewIds(m - {id})| == |NewIds(m)| - One(!m[id].fInTried)
  {
    if m[id].fInTried {
      assert NewIds(m) == NewIds(m - {id});
    } else {
      assert NewIds(m) == NewIds(m - {id}) + {id};
    }
  }

  /* ---- Each primitive operation ---- */

  /** Everything about an entry except its place in the permutation. */
  function Core(info: Info): Info {
    info.(nRandomPos := 0)
  }

  ghost predicate SameCores(m: map<Id, Info>, m': map<Id, Info>) {
    && m'.Keys == m.Keys
    && forall id | id in m :: Core(m'[id]) == Core(m[id])
  }

  lemma SwapRandomKeeps(h: Hashes, s: State, loose: set<Id>, uncounted: int, i: nat, j: nat)
    requires Inv(h, s, loose, uncounted) && i < |s.vRandom| && j < |s.vRandom|
    ensures SwapRandom.requires(s, i, j)
    ensures Inv(h, SwapRandom(s, i, j), loose, uncounted)
    ensures SameCores(s.mapInfo, SwapRandom(s, i, j).mapInfo)
    ensures SwapRandom(s, i, j).vRandom == s.vRandom[i := s.vRandom[j]][j := s.vRandom[i]]
  {
    assert PlaceLinked(s, i) && PlaceLinked(s, j);
    if i != j {
      var s' := SwapRandom(s, i, j);
      SwapRandomLinks(s, i, j);
      forall id | id in s'.mapInfo
        ensures EntryCounted(s', loose, id)
      {
        assert EntryCounted(s, loose, id);
      }
      PlacedFrame(h, s, s');
      SizedFrame(s, s', uncounted);
    }
  }

  lemma SwapRandomLinks(s: State, i: nat, j: nat)
    requires Linked(s) && i < |s.vRandom| && j < |s.vRandom| && i != j && SwapRandom.requires(s, i, j)
    ensures Linked(SwapRandom(s, i, j)) && SameCores(s.mapInfo, SwapRandom(s, i, j).mapInfo)
  {
    var s' := SwapRandom(s, i, j);
    SwapRandomCores(s, i, j);
    assert |s'.mapInfo| == |s'.mapInfo.Keys| && |s.mapInfo| == |s.mapInfo.Keys|;
    forall id | id in s'.mapInfo
      ensures EntryLinked(s', id)
    {
      SwapRandomEntry(s, i, j, id);
    }
    forall a | a in s'.mapAddr
      ensures AddrLinked(s', a)
    {
      assert AddrLinked(s, a);
    }
    forall k | 0 <= k < |s'.vRandom|
      ensures PlaceLinked(s', k)
    {
      SwapRandomPlace(s, i, j, k);
    }
  }

  lemma SwapRandomEntry(s: State, i: nat, j: nat, id: Id)
    requires Linked(s) && i < |s.vRandom| && j < |s.vRandom| && i != j && SwapRandom.requires(s, i, j) && id in s.mapInfo
    ensures EntryLinked(SwapRandom(s, i, j), id)
  {
    assert EntryLinked(s, id);
    assert PlaceLinked(s, i) && PlaceLinked(s, j);
  }

  lemma SwapRandomPlace(s: State, i: nat, j: nat, k: nat)
    requires Linked(s) && i < |s.vRandom| && j < |s.vRandom| && i != j && SwapRandom.requires(s, i, j) && k < |s.vRandom|
    ensures PlaceLinked(SwapRandom(s, i, j), k)
  {
    assert PlaceLinked(s, i) && PlaceLinked(s, j) && PlaceLinked(s, k);
  }

  /** An entry as it is before any table refers to it. */
  predicate Unplaced(info: Info) {
    info.nRefCount == 0 && !info.fInTried && info.nLastTry >= 0 && info.nLastSuccess >= 0
  }

  /** A freshly inserted entry is loose and not yet counted. */
  lemma InsertKeeps(h: Hashes, s: State, loose: set<Id>, uncounted: int, info: Info)
    requires Inv(h, s, loose, uncounted) && info.service.addr !in s.mapAddr && Unplaced(info)
    ensures s.nIdCount !in s.mapInfo
    ensures Inv(h, Insert(s, info), loose + {s.nIdCount}, uncounted + 1)
  {
    var s' := Insert(s, info);
    var id := s.nIdCount;
    assert id in s.mapInfo ==> EntryLinked(s, id);
    InsertLinks(s, info);
    InsertPlaced(h, s, info);
    InsertCounted(h, s, loose, info);
    PutSizes(s.mapInfo, id, s'.mapInfo[id]);
  }

  lemma InsertCounted(h: Hashes, s: State, loose: set<Id>, info: Info)
    requires Counted(s, loose) && Placed(h, s) && s.nIdCount !in s.mapInfo && Unplaced(info)
    ensures Counted(Insert(s, info), loose + {s.nIdCount})
  {
    var s' := Insert(s, info);
    forall x | x in s'.mapInfo
      ensures EntryCounted(s', loose + {s.nIdCount}, x)
    {
      if x == s.nIdCount {
        NotReferenced(h, s, x);
      } else {
        assert EntryCounted(s, loose, x);
      }
    }
  }

  lemma NotReferenced(h: Hashes, s: State, id: Id)
    requires Placed(h, s) && id !in s.mapInfo
    ensures Refs(s.news, id) == {}
  {
    forall pos | pos in s.news
      ensures s.news[pos] != id
    {
      assert NewSlotOk(h, s, pos);
    }
  }

  lemma InsertLinks(s: State, info: Info)
    requires Linked(s) && info.service.addr !in s.mapAddr && s.nIdCount !in s.mapInfo
    ensures Linked(Insert(s, info))
  {
    var s' := Insert(s, info);
    PutSizes(s.mapInfo, s.nIdCount, s'.mapInfo[s.nIdCount]);
    forall x | x in s'.mapInfo
      ensures EntryLinked(s', x)
    {
      if x != s.nIdCount {
        assert EntryLinked(s, x);
      }
    }
    forall a | a in s'.mapAddr
      ensures AddrLinked(s', a)
    {
      if a != info.service.addr {
        assert AddrLinked(s, a);
      }
    }
    forall k | 0 <= k < |s'.vRandom|
      ensures PlaceLinked(s', k)
    {
      if k < |s.vRandom| {
        assert PlaceLinked(s, k);
      }
    }
  }

  lemma InsertPlaced(h: Hashes, s: State, info: Info)
    requires Placed(h, s) && s.nIdCount !in s.mapInfo && !info.fInTried
    ensures Placed(h, Insert(s, info))
  {
    var s' := Insert(s, info);
    forall pos | pos in s'.news
      ensures NewSlotOk(h, s', pos)
    {
      assert NewSlotOk(h, s, pos);
    }
    forall pos | pos in s'.tried
      ensures TriedSlotOk(h, s', pos)
    {
      assert TriedSlotOk(h, s, pos);
    }
    forall id | id in s'.mapInfo
      ensures HasTriedSlot(h, s', id)
    {
      if id != s.nIdCount {
        assert HasTriedSlot(h, s, id);
      }
    }
  }

  lemma LinkedCanDelete(s: State, id: Id)
    requires Linked(s) && id in s.mapInfo && !s.mapInfo[id].fInTried && s.mapInfo[id].nRefCount == 0
    ensures CanDelete(s, id)
  {
    assert EntryLinked(s, id) && PlaceLinked(s, |s.vRandom| - 1);
  }

  /** The first half of a deletion: the entry is moved to the end of the permutation. */
  lemma MoveLastKeeps(h: Hashes, s: State, loose: set<Id>, uncounted: int, id: Id) returns (s1: State)
    requires Inv(h, s, loose, uncounted) && CanDelete(s, id)
    ensures s1 == MoveLast(s, id)
    ensures Inv(h, s1, loose, uncounted)
    ensures s1.vRandom != [] && s1.vRandom[|s1.vRandom| - 1] == id
    ensures id in s1.mapInfo && Core(s1.mapInfo[id]) == Core(s.mapInfo[id])
  {
    SwapRandomKeeps(h, s, loose, uncounted, s.mapInfo[id].nRandomPos, |s.vRandom| - 1);
    s1 := SwapRandom(s, s.mapInfo[id].nRandomPos, |s.vRandom| - 1);
  }

  /** A new entry without references can be deleted. */
  lemma DeleteKeeps(h: Hashes, s: State, loose: set<Id>, uncounted: int, id: Id)
    requires Inv(h, s, loose, uncounted) && id in s.mapInfo && !s.mapInfo[id].fInTried && s.mapInfo[id].nRefCount == 0
    ensures CanDelete(s, id)
    ensures Inv(h, Delete(s, id), loose - {id}, uncounted)
  {
    LinkedCanDelete(s, id);
    var s1 := MoveLastKeeps(h, s, loose, uncounted, id);
    DropLastKeeps(h, s1, loose, uncounted, id);
  }

  lemma SwapRandomCores(s: State, i: nat, j: nat)
    requires SwapRandom.requires(s, i, j)
    ensures SameCores(s.mapInfo, SwapRandom(s, i, j).mapInfo)
    ensures SwapRandom(s, i, j) == s.(mapInfo := SwapRandom(s, i, j).mapInfo, vRandom := SwapRandom(s, i, j).vRandom)
  {
    assert SwapRandom(s, i, j).mapInfo.Keys == s.mapInfo.Keys;
  }

  /** Deleting removes exactly one entry, its address and its place. */
  lemma DeleteRemoves(s: State, id: Id)
    requires CanDelete(s, id)
    ensures SameCores(s.mapInfo - {id}, Delete(s, id).mapInfo)
    ensures Delete(s, id).mapAddr == s.mapAddr - {s.mapInfo[id].service.addr}
    ensures Delete(s, id) == s.(mapInfo := Delete(s, id).mapInfo, mapAddr := Delete(s, id).mapAddr,
                                vRandom := Delete(s, id).vRandom, nNew := s.nNew - 1)
  {
    SwapRandomCores(s, s.mapInfo[id].nRandomPos, |s.vRandom| - 1);
    DropLastCores(s, MoveLast(s, id), id);
  }

  lemma DropLastCores(s: State, s1: State, id: Id)
    requires SameCores(s.mapInfo, s1.mapInfo) && id in s.mapInfo && s1.vRandom != []
    requires s1 == s.(mapInfo := s1.mapInfo, vRandom := s1.vRandom)
    ensures var s' := DropLast(s1, id);
            && SameCores(s.mapInfo - {id}, s'.mapInfo)
            && s'.mapAddr == s.mapAddr - {s.mapInfo[id].service.addr}
            && s' == s.(mapInfo := s'.mapInfo, mapAddr := s'.mapAddr, vRandom := s'.vRandom, nNew := s.nNew - 1)
  {
    assert Core(s1.mapInfo[id]) == Core(s.mapInfo[id]);
  }

  lemma DropLastLinks(s: State, id: Id)
    requires Linked(s) && id in s.mapInfo && s.vRandom != [] && s.vRandom[|s.vRandom| - 1] == id
    ensures Linked(DropLast(s, id))
  {
    var s' := DropLast(s, id);
    RemoveSizes(s.mapInfo, id);
    assert EntryLinked(s, id) && PlaceLinked(s, |s.vRandom| - 1);
    forall x | x in s'.mapInfo
      ensures EntryLinked(s', x)
    {
      assert EntryLinked(s, x);
    }
    forall a | a in s'.mapAddr
      ensures AddrLinked(s', a)
    {
      assert AddrLinked(s, a);
      assert EntryLinked(s, s.mapAddr[a]);
    }
    forall k | 0 <= k < |s'.vRandom|
      ensures PlaceLinked(s', k)
    {
      assert PlaceLinked(s, k);
    }
  }

  lemma DropLastKeeps(h: Hashes, s: State, loose: set<Id>, uncounted: int, id: Id)
    requires Inv(h, s, loose, uncounted) && id in s.mapInfo && !s.mapInfo[id].fInTried && s.mapInfo[id].nRefCount == 0
    requires s.vRandom != [] && s.vRandom[|s.vRandom| - 1] == id
    ensures Inv(h, DropLast(s, id), loose - {id}, uncounted)
  {
    var s' := DropLast(s, id);
    DropLastLinks(s, id);
    assert EntryCounted(s, loose, id);
    DropPlaced(h, s, s', id);
    forall x | x in s'.mapInfo
      ensures EntryCounted(s', loose - {id}, x)
    {
      assert EntryCounted(s, loose, x);
    }
    RemoveSizes(s.mapInfo, id);
  }

  lemma DropPlaced(h: Hashes, s: State, s': State, id: Id)
    requires Placed(h, s) && id in s.mapInfo && !s.mapInfo[id].fInTried && |Refs(s.news, id)| == 0
    requires s'.nKey == s.nKey && s'.news == s.news && s'.tried == s.tried && s'.mapInfo == s.mapInfo - {id}
    ensures Placed(h, s')
  {
    forall pos | pos in s'.news
      ensures NewSlotOk(h, s', pos)
    {
      assert NewSlotOk(h, s, pos);
      assert pos !in Refs(s.news, id);
    }
    forall pos | pos in s'.tried
      ensures TriedSlotOk(h, s', pos)
    {
      assert TriedSlotOk(h, s, pos);
    }
    forall x | x in s'.mapInfo
      ensures HasTriedSlot(h, s', x)
    {
      assert HasTriedSlot(h, s, x);
    }
  }

  /** Losing one reference lowers exactly one count. */
  lemma UnrefKeeps(h: Hashes, s: State, loose: set<Id>, uncounted: int, pos: Pos)
    requires Inv(h, s, loose, uncounted) && pos in s.news
    ensures s.news[pos] in s.mapInfo && s.mapInfo[s.news[pos]].nRefCount >= 1
    ensures Inv(h, Unref(s, pos), loose + {s.news[pos]}, uncounted)
  {
    assert NewSlotOk(h, s, pos);
    var id := s.news[pos];
    var s' := Unref(s, pos);
    LinkedFrame(s, s');
    SizedFrame(s, s', uncounted);
    UnrefPlaced(h, s, pos);
    UnrefCounted(s, loose, pos);
  }

  lemma UnrefCounted(s: State, loose: set<Id>, pos: Pos)
    requires Counted(s, loose) && pos in s.news && s.news[pos] in s.mapInfo
    ensures s.mapInfo[s.news[pos]].nRefCount >= 1
    ensures Counted(Unref(s, pos), loose + {s.news[pos]})
  {
    var id := s.news[pos];
    var s' := Unref(s, pos);
    forall x | x in s'.mapInfo
      ensures EntryCounted(s', loose + {id}, x)
    {
      assert EntryCounted(s, loose, x);
      RefsRemove(s.news, pos, x);
    }
    assert EntryCounted(s, loose, id);
    RefsRemove(s.news, pos, id);
  }

  lemma UnrefPlaced(h: Hashes, s: State, pos: Pos)
    requires Placed(h, s) && pos in s.news && s.news[pos] in s.mapInfo
    ensures Placed(h, Unref(s, pos))
  {
    var s' := Unref(s, pos);
    forall x | x in s'.news
      ensures NewSlotOk(h, s', x)
    {
      assert NewSlotOk(h, s, x);
    }
    forall x | x in s'.tried
      ensures TriedSlotOk(h, s', x)
    {
      assert TriedSlotOk(h, s, x);
    }
    forall x | x in s'.mapInfo
      ensures HasTriedSlot(h, s', x)
    {
      assert HasTriedSlot(h, s, x);
    }
  }

  /** Which entries are allowed to be without reference may change if those taken out have one. */
  lemma Reloose(h: Hashes, s: State, before: set<Id>, after: set<Id>, uncounted: int)
    requires Inv(h, s, before, uncounted)
    requires forall x | x in s.mapInfo && x in before && x !in after :: s.mapInfo[x].nRefCount >= 1 || s.mapInfo[x].fInTried
    ensures Inv(h, s, after, uncounted)
  {
    forall x | x in s.mapInfo
      ensures EntryCounted(s, after, x)
    {
      assert EntryCounted(s, before, x);
    }
  }

  lemma ClearNewKeeps(h: Hashes, s: State, loose: set<Id>, uncounted: int, pos: Pos)
    requires Inv(h, s, loose, uncounted)
    ensures ClearNew.requires(s, pos)
    ensures pos in s.news ==> s.mapInfo[s.news[pos]].nRefCount >= 1
    ensures Inv(h, ClearNew(s, pos), loose, uncounted)
  {
    if pos in s.news {
      var id := s.news[pos];
      UnrefKeeps(h, s, loose, uncounted, pos);
      var s1 := Unref(s, pos);
      assert NewSlotOk(h, s, pos);
      if s1.mapInfo[id].nRefCount == 0 {
        DeleteKeeps(h, s1, loose + {id}, uncounted, id);
        Reloose(h, Delete(s1, id), loose + {id} - {id}, loose, uncounted);
      } else {
        Reloose(h, s1, loose + {id}, loose, uncounted);
      }
    }
  }

  /** Clearing a slot empties it and changes no other slot; only its own entry is touched or removed. */
  lemma ClearNewClears(s: State, pos: Pos)
    requires ClearNew.requires(s, pos)
    ensures var s' := ClearNew(s, pos);
            && s'.news == s.news - {pos} && s'.tried == s.tried && s'.nTried == s.nTried
            && s'.nKey == s.nKey && s'.nIdCount == s.nIdCount && s'.nLastGood == s.nLastGood
            && s'.mapInfo.Keys <= s.mapInfo.Keys
            && (forall id | id in s.mapInfo && (pos in s.news ==> s.news[pos] != id) ::
                  id in s'.mapInfo && Core(s'.mapInfo[id]) == Core(s.mapInfo[id]))
            && (pos in s.news ==>
                  var x := s.news[pos];
                  && (x in s'.mapInfo <==> s.mapInfo[x].nRefCount != 1)
                  && (x in s'.mapInfo ==> Core(s'.mapInfo[x]) == Core(s.mapInfo[x].(nRefCount := s.mapInfo[x].nRefCount - 1))))
  {
    if pos in s.news {
      var id := s.news[pos];
      var s1 := Unref(s, pos);
      assert s1.mapInfo.Keys == s.mapInfo.Keys;
      if s1.mapInfo[id].nRefCount == 0 {
        DeleteRemoves(s1, id);
      }
    } else {
      assert s.news - {pos} == s.news;
    }
  }

  /* ---- Adding an address ---- */

  /** Give an entry one more slot of the new table. */
  function AddRef(s: State, id: Id, pos: Pos): State
    requires id in s.mapInfo
  {
    s.(mapInfo := s.mapInfo[id := s.mapInfo[id].(nRefCount := s.mapInfo[id].nRefCount + 1)], news := s.news[pos := id])
  }

  lemma AddRefPlaced(h: Hashes, s: State, id: Id, pos: Pos)
    requires Placed(h, s) && id in s.mapInfo && !s.mapInfo[id].fInTried && pos !in s.news
    requires pos.bucket < NEW_BUCKET_COUNT && pos == NewPosIn(h, s.nKey, s.mapInfo[id].service, pos.bucket)
    ensures Placed(h, AddRef(s, id, pos))
  {
    var s' := AddRef(s, id, pos);
    forall x | x in s'.news
      ensures NewSlotOk(h, s', x)
    {
      if x != pos {
        assert NewSlotOk(h, s, x);
      }
    }
    forall x | x in s'.tried
      ensures TriedSlotOk(h, s', x)
    {
      assert TriedSlotOk(h, s, x);
    }
    forall x | x in s'.mapInfo
      ensures HasTriedSlot(h, s', x)
    {
      assert HasTriedSlot(h, s, x);
    }
  }

  lemma AddRefKeeps(h: Hashes, s: State, loose: set<Id>, uncounted: int, id: Id, pos: Pos)
    requires Inv(h, s, loose, uncounted) && id in s.mapInfo && !s.mapInfo[id].fInTried && pos !in s.news
    requires s.mapInfo[id].nRefCount < NEW_BUCKETS_PER_ADDRESS
    requires pos.bucket < NEW_BUCKET_COUNT && pos == NewPosIn(h, s.nKey, s.mapInfo[id].service, pos.bucket)
    ensures Inv(h, AddRef(s, id, pos), loose, uncounted)
    ensures AddRef(s, id, pos).mapInfo[id].nRefCount >= 1
  {
    var s' := AddRef(s, id, pos);
    LinkedFrame(s, s');
    SizedFrame(s, s', uncounted);
    AddRefPlaced(h, s, id, pos);
    AddRefCounted(s, loose, id, pos);
  }

  lemma AddRefCounted(s: State, loose: set<Id>, id: Id, pos: Pos)
    requires Counted(s, loose) && id in s.mapInfo && pos !in s.news && s.mapInfo[id].nRefCount < NEW_BUCKETS_PER_ADDRESS
    ensures Counted(AddRef(s, id, pos), loose)
    ensures AddRef(s, id, pos).mapInfo[id].nRefCount >= 1
  {
    var s' := AddRef(s, id, pos);
    forall x | x in s'.mapInfo
      ensures EntryCounted(s', loose, x)
    {
      assert EntryCounted(s, loose, x);
      RefsPut(s.news, pos, id, x);
    }
    assert EntryCounted(s, loose, id);
  }

  lemma RefsPut(news: Table, pos: Pos, id: Id, x: Id)
    requires pos !in news
    ensures |Refs(news[pos := id], x)| == |Refs(news, x)| + (if x == id then 1 else 0)
  {
    if x == id {
      assert Refs(news[pos := id], x) == Refs(news, x) + {pos};
    } else {
      assert Refs(news[pos := id], x) == Refs(news, x);
    }
  }

  lemma RefsRemove(news: Table, pos: Pos, x: Id)
    requires pos in news
    ensures |Refs(news, x)| == |Refs(news - {pos}, x)| + (if x == news[pos] then 1 else 0)
  {
    if x == news[pos] {
      assert Refs(news, x) == Refs(news - {pos}, x) + {pos};
    } else {
      assert Refs(news, x) == Refs(news - {pos}, x);
    }
  }

  /** Whether the slot is free or may be taken from the entry that holds it. */
  predicate MayTake(s: State, id: Id, pos: Pos, nNow: int)
    requires id in s.mapInfo && (pos in s.news ==> s.news[pos] in s.mapInfo)
  {
    pos in s.news ==>
      || IsTerrible(s.mapInfo[s.news[pos]], nNow)
      || (s.mapInfo[s.news[pos]].nRefCount > 1 && s.mapInfo[id].nRefCount == 0)
  }

  /** The last part of adding: enter the entry into its slot, or give up on an entry that got none. */
  ghost function Enter(h: Hashes, s: State, id: Id, source: NetAddr, nNow: int): (r: State)
    requires Inv(h, s, {id}, 0) && id in s.mapInfo && !s.mapInfo[id].fInTried
    ensures r.nKey == s.nKey
  {
    var pos := NewPos(h, s.nKey, s.mapInfo[id].service, source);
    assert pos in s.news ==> NewSlotOk(h, s, pos);
    if Get(s.news, pos) == Some(id) then s
    else if MayTake(s, id, pos, nNow) then
      ClearNewKeeps(h, s, {id}, 0, pos);
      ClearNewClears(s, pos);
      AddRef(ClearNew(s, pos), id, pos)
    else if s.mapInfo[id].nRefCount == 0 then
      DeleteKeeps(h, s, {id}, 0, id);
      DeleteRemoves(s, id);
      Delete(s, id)
    else s
  }

  lemma EnterKeeps(h: Hashes, s: State, id: Id, source: NetAddr, nNow: int)
    requires Inv(h, s, {id}, 0) && id in s.mapInfo && !s.mapInfo[id].fInTried
    requires s.mapInfo[id].nRefCount < NEW_BUCKETS_PER_ADDRESS
    ensures Inv(h, Enter(h, s, id, source, nNow), {}, 0)
  {
    var pos := NewPos(h, s.nKey, s.mapInfo[id].service, source);
    assert pos in s.news ==> NewSlotOk(h, s, pos);
    assert EntryCounted(s, {id}, id);
    if Get(s.news, pos) == Some(id) {
      assert pos in Refs(s.news, id);
      Reloose(h, s, {id}, {}, 0);
    } else if MayTake(s, id, pos, nNow) {
      ClearNewKeeps(h, s, {id}, 0, pos);
      ClearNewClears(s, pos);
      var s1 := ClearNew(s, pos);
      assert Core(s1.mapInfo[id]) == Core(s.mapInfo[id]);
      AddRefKeeps(h, s1, {id}, 0, id, pos);
      Reloose(h, AddRef(s1, id, pos), {id}, {}, 0);
    } else if s.mapInfo[id].nRefCount == 0 {
      DeleteKeeps(h, s, {id}, 0, id);
      Reloose(h, Delete(s, id), {id} - {id}, {}, 0);
    } else {
      Reloose(h, s, {id}, {}, 0);
    }
  }

  /** The address as received: its service, flags and time stamp. */
  datatype Address = Address(service: Service, nServices: set<nat>, nTime: int, isRoutable: bool)

  /** News about a known address may refresh its time stamp and flags. */
  function Refresh(info: Info, addr: Address, nTimePenalty: int, nNow: int): Info {
    var online := nNow - addr.nTime < 24 * 60 * 60;
    var interval := if online then 60 * 60 else 24 * 60 * 60;
    var time :=
      if addr.nTime != 0 && (info.nTime == 0 || info.nTime < addr.nTime - interval - nTimePenalty)
      then Max(0, addr.nTime - nTimePenalty) else info.nTime;
    info.(nTime := time, nServices := info.nServices + addr.nServices)
  }

  /** Replace an entry by one that differs only in its statistics. */
  function SetInfo(s: State, id: Id, info: Info): State {
    s.(mapInfo := s.mapInfo[id := info])
  }

  predicate OnlyStatistics(a: Info, b: Info) {
    && a.service == b.service && a.fInTried == b.fInTried && a.nRefCount == b.nRefCount && a.nRandomPos == b.nRandomPos
  }

  lemma SetInfoKeeps(h: Hashes, s: State, loose: set<Id>, uncounted: int, id: Id, info: Info)
    requires Inv(h, s, loose, uncounted) && id in s.mapInfo && OnlyStatistics(s.mapInfo[id], info)
    requires info.nLastTry >= 0 && info.nLastSuccess >= 0 && (info.fInTried ==> info.nLastSuccess != 0)
    ensures Inv(h, SetInfo(s, id, info), loose, uncounted)
  {
    var s' := SetInfo(s, id, info);
    LinkedFrame(s, s');
    PlacedFrame(h, s, s');
    SizedFrame(s, s', uncounted);
    forall x | x in s'.mapInfo
      ensures EntryCounted(s', loose, x)
    {
      assert EntryCounted(s, loose, x);
    }
  }

  lemma RefreshKeepsStatistics(info: Info, addr: Address, nTimePenalty: int, nNow: int)
    ensures OnlyStatistics(info, Refresh(info, addr, nTimePenalty, nNow))
    ensures Refresh(info, addr, nTimePenalty, nNow).nLastTry == info.nLastTry
    ensures Refresh(info, addr, nTimePenalty, nNow).nLastSuccess == info.nLastSuccess
  {
  }

  /** A known address is refreshed; whether it may then compete for one more slot. */
  predicate MayMultiply(info: Info, addr: Address, draw: nat) {
    && !(addr.nTime == 0 || (info.nTime != 0 && addr.nTime <= info.nTime))
    && !info.fInTried
    && 0 <= info.nRefCount != NEW_BUCKETS_PER_ADDRESS
    && (Arithmetic.Pow2(info.nRefCount) > 1 ==> draw % Arithmetic.Pow2(info.nRefCount) == 0)
  }

  /** The source's `Add_`; `draw` is the random number drawn when the address is already known. */
  ghost function Add(h: Hashes, s: State, addr: Address, source: NetAddr, nTimePenalty: int, nNow: int, draw: nat): (r: (bool, State))
    requires Inv(h, s, {}, 0)
    ensures Inv(h, r.1, {}, 0) && r.1.nKey == s.nKey
  {
    if !addr.isRoutable then (false, s)
    else if addr.service.addr in s.mapAddr then
      (false, AddKnown(h, s, s.mapAddr[addr.service.addr], addr, source, nTimePenalty, nNow, draw))
    else
      (true, AddUnknown(h, s, addr, source, nTimePenalty, nNow))
  }

  ghost function AddKnown(h: Hashes, s: State, id: Id, addr: Address, source: NetAddr, nTimePenalty: int, nNow: int, draw: nat): (r: State)
    requires Inv(h, s, {}, 0) && addr.service.addr in s.mapAddr && s.mapAddr[addr.service.addr] == id
    ensures Inv(h, r, {}, 0) && r.nKey == s.nKey
  {
    KnownEntry(h, s, addr.service.addr);
    var info := Refresh(s.mapInfo[id], addr, nTimePenalty, nNow);
    var s1 := SetInfo(s, id, info);
    RefreshKeeps(h, s, id, addr, nTimePenalty, nNow);
    if MayMultiply(info, addr, draw) then
      assert EntryCounted(s1, {}, id);
      Reloose(h, s1, {}, {id}, 0);
      EnterKeeps(h, s1, id, source, nNow);
      Enter(h, s1, id, source, nNow)
    else s1
  }

  lemma KnownEntry(h: Hashes, s: State, a: NetAddr)
    requires Inv(h, s, {}, 0) && a in s.mapAddr
    ensures s.mapAddr[a] in s.mapInfo && s.mapInfo[s.mapAddr[a]].service.addr == a
  {
    assert AddrLinked(s, a);
  }

  lemma RefreshKeeps(h: Hashes, s: State, id: Id, addr: Address, nTimePenalty: int, nNow: int)
    requires Inv(h, s, {}, 0) && id in s.mapInfo
    ensures Inv(h, SetInfo(s, id, Refresh(s.mapInfo[id], addr, nTimePenalty, nNow)), {}, 0)
  {
    assert EntryCounted(s, {}, id);
    RefreshKeepsStatistics(s.mapInfo[id], addr, nTimePenalty, nNow);
    SetInfoKeeps(h, s, {}, 0, id, Refresh(s.mapInfo[id], addr, nTimePenalty, nNow));
  }

  function CountNew(s: State): State {
    s.(nNew := s.nNew + 1)
  }

  lemma CreateNewKeeps(h: Hashes, s: State, svc: Service, nServices: set<nat>, nTime: int, source: NetAddr)
    requires Inv(h, s, {}, 0) && svc.addr !in s.mapAddr
    ensures s.nIdCount !in s.mapInfo
    ensures Inv(h, CountNew(Create(s, svc, nServices, nTime, source)), {s.nIdCount}, 0)
  {
    InsertKeeps(h, s, {}, 0, Info(svc, nServices, nTime, source, 0, 0, 0, 0, 0, false, -1));
    Reloose(h, Create(s, svc, nServices, nTime, source), {} + {s.nIdCount}, {s.nIdCount}, 1);
    CountOneMore(h, Create(s, svc, nServices, nTime, source), {s.nIdCount});
  }

  lemma CountOneMore(h: Hashes, s: State, loose: set<Id>)
    requires Inv(h, s, loose, 1)
    ensures Inv(h, CountNew(s), loose, 0)
  {
    var s' := CountNew(s);
    LinkedFrame(s, s');
    PlacedFrame(h, s, s');
    forall x | x in s'.mapInfo
      ensures EntryCounted(s', loose, x)
    {
      assert EntryCounted(s, loose, x);
    }
  }

  /** The slot a newly learnt address competes for can be had. */
  predicate SlotAvailable(s: State, pos: Pos, nNow: int)
    requires pos in s.news ==> s.news[pos] in s.mapInfo
  {
    pos !in s.news || IsTerrible(s.mapInfo[s.news[pos]], nNow) || s.mapInfo[s.news[pos]].nRefCount > 1
  }

  /** The state with a fresh entry for an address, which is in no slot yet. */
  ghost function Learnt(h: Hashes, s: State, addr: Address, source: NetAddr, nTimePenalty: int): (r: State)
    requires Inv(h, s, {}, 0) && addr.service.addr !in s.mapAddr
    ensures s.nIdCount !in s.mapInfo && s.nIdCount in r.mapInfo
    ensures Inv(h, r, {s.nIdCount}, 0) && !r.mapInfo[s.nIdCount].fInTried && r.mapInfo[s.nIdCount].nRefCount == 0
  {
    var time := Max(0, addr.nTime - nTimePenalty);
    CreateNewKeeps(h, s, addr.service, addr.nServices, time, source);
    CountNew(Create(s, addr.service, addr.nServices, time, source))
  }

  /**
   * Adding an unknown routable address always reports success, but the address is known afterwards if and
   * only if its slot was free, or held by a terrible entry or by one that has other slots.
   */
  ghost function AddUnknown(h: Hashes, s: State, addr: Address, source: NetAddr, nTimePenalty: int, nNow: int): (r: State)
    requires Inv(h, s, {}, 0) && addr.service.addr !in s.mapAddr
    ensures Inv(h, r, {}, 0) && r.nKey == s.nKey
    ensures var pos := NewPos(h, s.nKey, addr.service, source);
            && (pos in s.news ==> s.news[pos] in s.mapInfo)
            && (addr.service.addr in r.mapAddr <==> SlotAvailable(s, pos, nNow))
  {
    var s1 := Learnt(h, s, addr, source, nTimePenalty);
    var pos := NewPos(h, s.nKey, addr.service, source);
    assert pos in s.news ==> NewSlotOk(h, s, pos);
    EnterKeeps(h, s1, s.nIdCount, source, nNow);
    EnterKeepsEntryIff(h, s1, s.nIdCount, source, nNow);
    CreateSlot(s, addr.service, addr.nServices, Max(0, addr.nTime - nTimePenalty), source, pos, nNow);
    Enter(h, s1, s.nIdCount, source, nNow)
  }

  lemma CreateSlot(s: State, svc: Service, nServices: set<nat>, nTime: int, source: NetAddr, pos: Pos, nNow: int)
    requires s.nIdCount !in s.mapInfo && (pos in s.news ==> s.news[pos] in s.mapInfo)
    ensures MayTake(CountNew(Create(s, svc, nServices, nTime, source)), s.nIdCount, pos, nNow) <==> SlotAvailable(s, pos, nNow)
  {
  }

  /** An entry still without reference stays known exactly when it gets its slot; it can cost only the slot's holder its life. */
  lemma EnterKeepsEntryIff(h: Hashes, s: State, id: Id, source: NetAddr, nNow: int)
    requires Inv(h, s, {id}, 0) && id in s.mapInfo && !s.mapInfo[id].fInTried && s.mapInfo[id].nRefCount == 0
    ensures var pos, r := NewPos(h, s.nKey, s.mapInfo[id].service, source), Enter(h, s, id, source, nNow);
            && (pos in s.news ==> s.news[pos] in s.mapInfo && s.news[pos] != id)
            && (s.mapInfo[id].service.addr in r.mapAddr <==> MayTake(s, id, pos, nNow))
  {
    var pos := NewPos(h, s.nKey, s.mapInfo[id].service, source);
    assert pos in s.news ==> NewSlotOk(h, s, pos);
    EntryRefs(s, {id}, id);
    if MayTake(s, id, pos, nNow) {
      EnterKeeps(h, s, id, source, nNow);
      ClearNewKeeps(h, s, {id}, 0, pos);
      ClearNewClears(s, pos);
      assert EntryLinked(Enter(h, s, id, source, nNow), id);
    } else {
      DeleteKeeps(h, s, {id}, 0, id);
      DeleteRemoves(s, id);
    }
  }

  /** Entering an entry into its slot forgets at most the entry itself and a terrible last-reference holder of the slot. */
  lemma EnterForgetsOnly(h: Hashes, s: State, id: Id, source: NetAddr, nNow: int, x: Id)
    requires Inv(h, s, {id}, 0) && id in s.mapInfo && !s.mapInfo[id].fInTried
    requires x in s.mapInfo && x !in Enter(h, s, id, source, nNow).mapInfo && x != id
    ensures Get(s.news, NewPos(h, s.nKey, s.mapInfo[id].service, source)) == Some(x) && s.mapInfo[x].nRefCount == 1 && IsTerrible(s.mapInfo[x], nNow)
  {
    var pos := NewPos(h, s.nKey, s.mapInfo[id].service, source);
    assert pos in s.news ==> NewSlotOk(h, s, pos);
    if Get(s.news, pos) != Some(id) && MayTake(s, id, pos, nNow) {
      ClearNewKeeps(h, s, {id}, 0, pos);
      ClearNewClears(s, pos);
    } else if Get(s.news, pos) != Some(id) && s.mapInfo[id].nRefCount == 0 {
      DeleteKeeps(h, s, {id}, 0, id);
      DeleteRemoves(s, id);
    }
  }

  /* ---- Marking an address good ---- */

  /** The slots the source looks at when it takes an entry out of the new table: one per bucket. */
  function OwnSlots(h: Hashes, s: State, id: Id): set<Pos>
    requires id in s.mapInfo
  {
    set pos | pos in s.news && s.news[pos] == id && pos.bucket < NEW_BUCKET_COUNT && pos == NewPosIn(h, s.nKey, s.mapInfo[id].service, pos.bucket)
  }

  function DropRefs(h: Hashes, s: State, id: Id): State
    requires id in s.mapInfo
  {
    var own := OwnSlots(h, s, id);
    s.(news := s.news - own, mapInfo := s.mapInfo[id := s.mapInfo[id].(nRefCount := s.mapInfo[id].nRefCount - |own|)], nNew := s.nNew - 1)
  }

  /** Looking in one slot per bucket finds every reference. */
  lemma OwnSlotsAreRefs(h: Hashes, s: State, id: Id)
    requires Placed(h, s) && id in s.mapInfo
    ensures OwnSlots(h, s, id) == Refs(s.news, id)
  {
    forall pos | pos in Refs(s.news, id)
      ensures pos in OwnSlots(h, s, id)
    {
      assert NewSlotOk(h, s, pos);
    }
  }

  lemma DropRefsKeeps(h: Hashes, s: State, id: Id)
    requires Inv(h, s, {}, 0) && id in s.mapInfo && !s.mapInfo[id].fInTried
    ensures Inv(h, DropRefs(h, s, id), {id}, 1)
    ensures DropRefs(h, s, id).mapInfo[id].nRefCount == 0
  {
    var s' := DropRefs(h, s, id);
    OwnSlotsAreRefs(h, s, id);
    LinkedFrame(s, s');
    PutSizes(s.mapInfo, id, s'.mapInfo[id]);
    DropRefsPlaced(h, s, id);
    assert EntryCounted(s, {}, id);
    assert Refs(s'.news, id) == {};
    forall x | x in s'.mapInfo
      ensures EntryCounted(s', {id}, x)
    {
      assert EntryCounted(s, {}, x);
      if x != id {
        assert Refs(s'.news, x) == Refs(s.news, x);
      }
    }
  }

  lemma DropRefsPlaced(h: Hashes, s: State, id: Id)
    requires Placed(h, s) && id in s.mapInfo
    ensures Placed(h, DropRefs(h, s, id))
  {
    var s' := DropRefs(h, s, id);
    forall x | x in s'.news
      ensures NewSlotOk(h, s', x)
    {
      assert NewSlotOk(h, s, x);
    }
    forall x | x in s'.tried
      ensures TriedSlotOk(h, s', x)
    {
      assert TriedSlotOk(h, s, x);
    }
    forall x | x in s'.mapInfo
      ensures HasTriedSlot(h, s', x)
    {
      assert HasTriedSlot(h, s, x);
    }
  }

  /** Take the entry at a tried slot out of the tried table. */
  function EvictOut(s: State, pos: Pos): State
    requires pos in s.tried && s.tried[pos] in s.mapInfo
  {
    var id := s.tried[pos];
    s.(mapInfo := s.mapInfo[id := s.mapInfo[id].(fInTried := false)], tried := s.tried - {pos}, nTried := s.nTried - 1)
  }

  lemma EvictOutPlaced(h: Hashes, s: State, pos: Pos)
    requires Placed(h, s) && pos in s.tried && s.tried[pos] in s.mapInfo
    ensures Placed(h, EvictOut(s, pos))
  {
    var s' := EvictOut(s, pos);
    assert TriedSlotOk(h, s, pos);
    forall x | x in s'.news
      ensures NewSlotOk(h, s', x)
    {
      assert NewSlotOk(h, s, x);
    }
    forall x | x in s'.tried
      ensures TriedSlotOk(h, s', x)
    {
      assert TriedSlotOk(h, s, x);
    }
    forall x | x in s'.mapInfo
      ensures HasTriedSlot(h, s', x)
    {
      assert HasTriedSlot(h, s, x);
    }
  }

  lemma EvictOutKeeps(h: Hashes, s: State, loose: set<Id>, uncounted: int, pos: Pos)
    requires Inv(h, s, loose, uncounted) && pos in s.tried
    ensures s.tried[pos] in s.mapInfo && s.mapInfo[s.tried[pos]].nRefCount == 0 && s.mapInfo[s.tried[pos]].fInTried
    ensures Inv(h, EvictOut(s, pos), loose + {s.tried[pos]}, uncounted + 1)
  {
    assert TriedSlotOk(h, s, pos);
    var id := s.tried[pos];
    var s' := EvictOut(s, pos);
    LinkedFrame(s, s');
    EvictOutPlaced(h, s, pos);
    TriedHasNoRefs(h, s, id);
    assert EntryCounted(s, loose, id);
    PutSizes(s.mapInfo, id, s'.mapInfo[id]);
    forall x | x in s'.mapInfo
      ensures EntryCounted(s', loose + {id}, x)
    {
      assert EntryCounted(s, loose, x);
    }
  }

  lemma TriedHasNoRefs(h: Hashes, s: State, id: Id)
    requires Placed(h, s) && id in s.mapInfo && s.mapInfo[id].fInTried
    ensures Refs(s.news, id) == {}
  {
    forall pos | pos in s.news
      ensures s.news[pos] != id
    {
      assert NewSlotOk(h, s, pos);
    }
  }

  /** Put a new entry without references into a free tried slot of its own. */
  function Settle(s: State, id: Id, pos: Pos): State
    requires id in s.mapInfo
  {
    s.(mapInfo := s.mapInfo[id := s.mapInfo[id].(fInTried := true)], tried := s.tried[pos := id], nTried := s.nTried + 1)
  }

  lemma SettlePlaced(h: Hashes, s: State, id: Id, pos: Pos)
    requires Placed(h, s) && id in s.mapInfo && !s.mapInfo[id].fInTried && Refs(s.news, id) == {}
    requires pos !in s.tried && pos == TriedPos(h, s.nKey, s.mapInfo[id].service)
    ensures Placed(h, Settle(s, id, pos))
  {
    var s' := Settle(s, id, pos);
    forall x | x in s'.news
      ensures NewSlotOk(h, s', x)
    {
      assert NewSlotOk(h, s, x);
      assert x !in Refs(s.news, id);
    }
    forall x | x in s'.tried
      ensures TriedSlotOk(h, s', x)
    {
      if x != pos {
        assert TriedSlotOk(h, s, x);
      }
    }
    forall x | x in s'.mapInfo
      ensures HasTriedSlot(h, s', x)
    {
      assert HasTriedSlot(h, s, x);
    }
  }

  lemma SettleKeeps(h: Hashes, s: State, loose: set<Id>, uncounted: int, id: Id, pos: Pos)
    requires Inv(h, s, loose, uncounted) && id in s.mapInfo && !s.mapInfo[id].fInTried && s.mapInfo[id].nRefCount == 0
    requires s.mapInfo[id].nLastSuccess != 0
    requires pos !in s.tried && pos == TriedPos(h, s.nKey, s.mapInfo[id].service)
    ensures Inv(h, Settle(s, id, pos), loose - {id}, uncounted - 1)
  {
    var s' := Settle(s, id, pos);
    assert EntryCounted(s, loose, id);
    LinkedFrame(s, s');
    SettlePlaced(h, s, id, pos);
    PutSizes(s.mapInfo, id, s'.mapInfo[id]);
    SettleCounted(s, loose, id, pos);
  }

  lemma SettleCounted(s: State, loose: set<Id>, id: Id, pos: Pos)
    requires Counted(s, loose) && id in s.mapInfo && s.mapInfo[id].nLastSuccess != 0
    ensures Counted(Settle(s, id, pos), loose - {id})
  {
    var s' := Settle(s, id, pos);
    forall x | x in s'.mapInfo
      ensures EntryCounted(s', loose - {id}, x)
    {
      assert EntryCounted(s, loose, x);
    }
  }

  /** An entry about to be tried: new, known to work, and no longer in the new table. */
  ghost predicate Leaving(h: Hashes, s: State, id: Id, uncounted: int) {
    && Inv(h, s, {id}, uncounted)
    && id in s.mapInfo && !s.mapInfo[id].fInTried && s.mapInfo[id].nRefCount == 0 && s.mapInfo[id].nLastSuccess != 0
  }

  /** Enter an evicted entry into the new table again, with this one reference. */
  function EvictIn(s: State, id: Id, pos: Pos): State
    requires id in s.mapInfo
  {
    CountNew(s.(mapInfo := s.mapInfo[id := s.mapInfo[id].(nRefCount := 1)], news := s.news[pos := id]))
  }

  lemma EvictInKeeps(h: Hashes, s: State, loose: set<Id>, after: set<Id>, uncounted: int, id: Id, pos: Pos)
    requires Inv(h, s, loose, uncounted) && id in s.mapInfo && !s.mapInfo[id].fInTried && pos !in s.news
    requires s.mapInfo[id].nRefCount == 0
    requires pos.bucket < NEW_BUCKET_COUNT && pos == NewPosIn(h, s.nKey, s.mapInfo[id].service, pos.bucket)
    requires loose <= after + {id}
    ensures Inv(h, EvictIn(s, id, pos), after, uncounted - 1)
  {
    AddRefKeeps(h, s, loose, uncounted, id, pos);
    var s1 := AddRef(s, id, pos);
    Reloose(h, s1, loose, after, uncounted);
    var s' := EvictIn(s, id, pos);
    assert s' == CountNew(s1);
    LinkedFrame(s1, s');
    PlacedFrame(h, s1, s');
    forall x | x in s'.mapInfo
      ensures EntryCounted(s', after, x)
    {
      assert EntryCounted(s1, after, x);
    }
  }

  /** The state after the occupant of a tried slot has been taken out and its own new slot has been cleared. */
  ghost function EvictClear(h: Hashes, s: State, id: Id, pos: Pos): (r: State)
    requires Leaving(h, s, id, 1) && pos in s.tried
    ensures s.tried[pos] in s.mapInfo && s.mapInfo[s.tried[pos]].fInTried && s.tried[pos] != id
    ensures var evicted := s.tried[pos];
            var up := NewPos(h, s.nKey, s.mapInfo[evicted].service, s.mapInfo[evicted].source);
            && Inv(h, r, {id, evicted}, 2)
            && r.news == s.news - {up} && r.tried == s.tried - {pos} && r.nKey == s.nKey
            && evicted in r.mapInfo && Core(r.mapInfo[evicted]) == Core(s.mapInfo[evicted].(fInTried := false))
            && id in r.mapInfo && Core(r.mapInfo[id]) == Core(s.mapInfo[id])
            && s.mapInfo[evicted].nRefCount == 0
            && (forall x | x in s.mapInfo && x !in r.mapInfo :: Get(s.news, up) == Some(x) && s.mapInfo[x].nRefCount == 1)
  {
    EvictOutKeeps(h, s, {id}, 1, pos);
    var evicted := s.tried[pos];
    var s1 := EvictOut(s, pos);
    Reloose(h, s1, {id} + {evicted}, {id, evicted}, 2);
    var up := NewPos(h, s.nKey, s.mapInfo[evicted].service, s.mapInfo[evicted].source);
    ClearNewKeeps(h, s1, {id, evicted}, 2, up);
    ClearNewClears(s1, up);
    EntryRefs(s1, {id, evicted}, id);
    EntryRefs(s1, {id, evicted}, evicted);
    ClearNew(s1, up)
  }

  /** An entry with count zero is in no slot. */
  lemma EntryRefs(s: State, loose: set<Id>, id: Id)
    requires Counted(s, loose) && id in s.mapInfo && s.mapInfo[id].nRefCount == 0
    ensures forall pos | pos in s.news :: s.news[pos] != id
  {
    assert EntryCounted(s, loose, id);
    forall pos | pos in s.news
      ensures s.news[pos] != id
    {
      assert pos in Refs(s.news, id) || s.news[pos] != id;
    }
  }

  /** The slot of the new table that the occupant of a tried slot falls back to. */
  function FallbackPos(h: Hashes, s: State, pos: Pos): Pos
    requires pos in s.tried && s.tried[pos] in s.mapInfo
  {
    NewPos(h, s.nKey, s.mapInfo[s.tried[pos]].service, s.mapInfo[s.tried[pos]].source)
  }

  /** Whether making room in a tried slot costs an entry its last reference, and with it its life. */
  predicate Displaced(h: Hashes, s: State, pos: Pos, x: Id) {
    && pos in s.tried && s.tried[pos] in s.mapInfo && x in s.mapInfo
    && Get(s.news, FallbackPos(h, s, pos)) == Some(x) && s.mapInfo[x].nRefCount == 1
  }

  /** Free the tried slot of an entry: its occupant goes back to the new table with exactly one reference. */
  ghost function Evict(h: Hashes, s: State, id: Id, pos: Pos): (r: State)
    requires Leaving(h, s, id, 1)
    ensures Leaving(h, r, id, 1) && pos !in r.tried && r.nKey == s.nKey && Core(r.mapInfo[id]) == Core(s.mapInfo[id])
    ensures pos in s.tried ==>
              && s.tried[pos] in s.mapInfo && s.tried[pos] in r.mapInfo && !r.mapInfo[s.tried[pos]].fInTried
              && r.mapInfo[s.tried[pos]].nRefCount == 1 && Get(r.news, FallbackPos(h, s, pos)) == Some(s.tried[pos])
    ensures forall x | x in s.mapInfo && x !in r.mapInfo :: Displaced(h, s, pos, x)
  {
    if pos !in s.tried then s
    else
      var s1 := EvictClear(h, s, id, pos);
      var evicted := s.tried[pos];
      var up := FallbackPos(h, s, pos);
      EvictInKeeps(h, s1, {id, evicted}, {id}, 2, evicted, up);
      EvictIn(s1, evicted, up)
  }

  /** The source's `MakeTried`. */
  ghost function MakeTried(h: Hashes, s: State, id: Id): (r: State)
    requires Inv(h, s, {}, 0) && id in s.mapInfo && !s.mapInfo[id].fInTried && s.mapInfo[id].nLastSuccess != 0
    ensures Inv(h, r, {}, 0) && r.nKey == s.nKey
  {
    DropRefsKeeps(h, s, id);
    var s1 := DropRefs(h, s, id);
    var pos := TriedPos(h, s.nKey, s.mapInfo[id].service);
    var s2 := Evict(h, s1, id, pos);
    SettleKeeps(h, s2, {id}, 1, id, pos);
    Reloose(h, Settle(s2, id, pos), {id} - {id}, {}, 0);
    Settle(s2, id, pos)
  }

  lemma DropRefsDisplaces(h: Hashes, s: State, id: Id, pos: Pos, x: Id)
    requires id in s.mapInfo && !s.mapInfo[id].fInTried && Placed(h, s) && Displaced(h, DropRefs(h, s, id), pos, x)
    ensures Displaced(h, s, pos, x)
  {
    assert TriedSlotOk(h, s, pos);
    OwnSlotsAreRefs(h, s, id);
  }

  /** The entry moves to its tried slot, the occupant falls back, and at most one entry is lost on the way. */
  lemma MakeTriedMoves(h: Hashes, s: State, id: Id)
    requires Inv(h, s, {}, 0) && id in s.mapInfo && !s.mapInfo[id].fInTried && s.mapInfo[id].nLastSuccess != 0
    ensures var pos, r := TriedPos(h, s.nKey, s.mapInfo[id].service), MakeTried(h, s, id);
            && id in r.mapInfo && r.mapInfo[id].fInTried && Get(r.tried, pos) == Some(id)
            && (pos in s.tried ==>
                  && s.tried[pos] in s.mapInfo && s.tried[pos] in r.mapInfo && !r.mapInfo[s.tried[pos]].fInTried
                  && r.mapInfo[s.tried[pos]].nRefCount == 1 && Get(r.news, FallbackPos(h, s, pos)) == Some(s.tried[pos]))
            && (forall x | x in s.mapInfo && x !in r.mapInfo :: Displaced(h, s, pos, x))
  {
    DropRefsKeeps(h, s, id);
    var s1 := DropRefs(h, s, id);
    var pos := TriedPos(h, s.nKey, s.mapInfo[id].service);
    var s2 := Evict(h, s1, id, pos);
    assert pos in s.tried ==> TriedSlotOk(h, s, pos);
    forall x | x in s.mapInfo && x !in Settle(s2, id, pos).mapInfo
      ensures Displaced(h, s, pos, x)
    {
      DropRefsDisplaces(h, s, id, pos, x);
    }
  }

  /** The statistics recorded when an address turns out to work. */
  function Worked(info: Info, nTime: int): Info {
    info.(nLastSuccess := nTime, nLastTry := nTime, nAttempts := 0)
  }

  /** The source's `Good_`. The unreachable exit is the one taken when no bucket holds the entry. */
  ghost function Good(h: Hashes, s: State, svc: Service, nTime: int): (r: State)
    requires Inv(h, s, {}, 0) && nTime > 0
    ensures Inv(h, r, {}, 0) && r.nKey == s.nKey
  {
    if svc.addr !in s.mapAddr then s
    else
      KnownEntry(h, s, svc.addr);
      var id := s.mapAddr[svc.addr];
      if s.mapInfo[id].service != svc then s
      else
        var s1 := SetInfo(s, id, Worked(s.mapInfo[id], nTime));
        SetInfoKeeps(h, s, {}, 0, id, Worked(s.mapInfo[id], nTime));
        if s1.mapInfo[id].fInTried then s1
        else if OwnSlots(h, s1, id) == {} then s1
        else MakeTried(h, s1, id)
  }

  /** Every new entry is found in some bucket: the bail-out of `Good_` cannot be taken. */
  lemma GoodFindsABucket(h: Hashes, s: State, id: Id)
    requires Inv(h, s, {}, 0) && id in s.mapInfo && !s.mapInfo[id].fInTried
    ensures OwnSlots(h, s, id) != {}
  {
    assert EntryCounted(s, {}, id);
    OwnSlotsAreRefs(h, s, id);
  }

  /**
   * Marking a known, not yet tried address good puts it into its tried slot and takes it out of the new
   * table. The former occupant survives in the new table; no address is forgotten except one that held
   * only the slot the occupant falls back to.
   */
  lemma GoodMovesToTried(h: Hashes, s: State, svc: Service, nTime: int)
    requires Inv(h, s, {}, 0) && nTime > 0
    requires svc.addr in s.mapAddr && s.mapAddr[svc.addr] in s.mapInfo
    requires s.mapInfo[s.mapAddr[svc.addr]].service == svc && !s.mapInfo[s.mapAddr[svc.addr]].fInTried
    ensures var id, pos, r := s.mapAddr[svc.addr], TriedPos(h, s.nKey, svc), Good(h, s, svc, nTime);
            && Get(r.tried, pos) == Some(id) && Refs(r.news, id) == {}
            && (pos in s.tried ==> s.tried[pos] in r.mapInfo && s.tried[pos] in s.mapInfo && Refs(r.news, s.tried[pos]) == {FallbackPos(h, s, pos)})
            && (forall x | x in s.mapInfo && x !in r.mapInfo :: Displaced(h, s, pos, x))
  {
    var id, pos, r := s.mapAddr[svc.addr], TriedPos(h, s.nKey, svc), Good(h, s, svc, nTime);
    var s1 := SetInfo(s, id, Worked(s.mapInfo[id], nTime));
    SetInfoKeeps(h, s, {}, 0, id, Worked(s.mapInfo[id], nTime));
    GoodFindsABucket(h, s1, id);
    assert r == MakeTried(h, s1, id);
    assert pos in s.tried ==> TriedSlotOk(h, s, pos);
    MakeTriedRefs(h, s1, id);
    forall x | x in s.mapInfo && x !in r.mapInfo
      ensures Displaced(h, s, pos, x)
    {
      StatisticsDisplace(h, s, id, Worked(s.mapInfo[id], nTime), pos, x);
    }
  }

  lemma StatisticsDisplace(h: Hashes, s: State, id: Id, info: Info, pos: Pos, x: Id)
    requires id in s.mapInfo && OnlyStatistics(s.mapInfo[id], info) && info.source == s.mapInfo[id].source
    requires Displaced(h, SetInfo(s, id, info), pos, x)
    ensures Displaced(h, s, pos, x)
  {
  }

  lemma MakeTriedRefs(h: Hashes, s: State, id: Id)
    requires Inv(h, s, {}, 0) && id in s.mapInfo && !s.mapInfo[id].fInTried && s.mapInfo[id].nLastSuccess != 0
    ensures var pos, r := TriedPos(h, s.nKey, s.mapInfo[id].service), MakeTried(h, s, id);
            && Get(r.tried, pos) == Some(id) && Refs(r.news, id) == {}
            && (pos in s.tried ==> s.tried[pos] in s.mapInfo && s.tried[pos] in r.mapInfo && Refs(r.news, s.tried[pos]) == {FallbackPos(h, s, pos)})
            && (forall x | x in s.mapInfo && x !in r.mapInfo :: Displaced(h, s, pos, x))
  {
    MakeTriedMoves(h, s, id);
    var pos, r := TriedPos(h, s.nKey, s.mapInfo[id].service), MakeTried(h, s, id);
    TriedHasNoRefs(h, r, id);
    if pos in s.tried {
      assert EntryCounted(r, {}, s.tried[pos]);
      SingleRef(r, s.tried[pos], FallbackPos(h, s, pos));
    }
  }

  lemma SingleRef(s: State, id: Id, pos: Pos)
    requires pos in Refs(s.news, id) && |Refs(s.news, id)| == 1
    ensures Refs(s.news, id) == {pos}
  {
    var rest := Refs(s.news, id) - {pos};
    assert |rest| == 0;
  }

  /* ---- The other operations ---- */

  /** The source's `Attempt_`. */
  ghost function Attempt(h: Hashes, s: State, svc: Service, fCountFailure: bool, nTime: int): (r: State)
    requires Inv(h, s, {}, 0) && nTime >= 0
    ensures Inv(h, r, {}, 0) && r.nKey == s.nKey
  {
    if svc.addr !in s.mapAddr then s
    else
      KnownEntry(h, s, svc.addr);
      var id := s.mapAddr[svc.addr];
      var info := s.mapInfo[id];
      if info.service != svc then s
      else
        assert EntryCounted(s, {}, id);
        var tried := info.(nLastTry := nTime);
        var counted := if fCountFailure && info.nLastCountAttempt < s.nLastGood
                       then tried.(nLastCountAttempt := nTime, nAttempts := info.nAttempts + 1) else tried;
        SetInfoKeeps(h, s, {}, 0, id, counted);
        SetInfo(s, id, counted)
  }

  /** The source's `Connected_`. */
  ghost function Connected(h: Hashes, s: State, svc: Service, nTime: int): (r: State)
    requires Inv(h, s, {}, 0)
    ensures Inv(h, r, {}, 0) && r.nKey == s.nKey
  {
    if svc.addr !in s.mapAddr then s
    else
      KnownEntry(h, s, svc.addr);
      var id := s.mapAddr[svc.addr];
      var info := s.mapInfo[id];
      if info.service != svc || nTime - info.nTime <= 20 * 60 then s
      else
        assert EntryCounted(s, {}, id);
        SetInfoKeeps(h, s, {}, 0, id, info.(nTime := nTime));
        SetInfo(s, id, info.(nTime := nTime))
  }

  function GetAddrLimit(size: nat): nat {
    var nNodes := GETADDR_MAX_PCT * size / 100;
    if nNodes > GETADDR_MAX then GETADDR_MAX else nNodes
  }

  /** The entries worth sharing among the first `k` of the random order. */
  function Decent(m: map<Id, Info>, order: seq<Id>, nNow: int): seq<Info>
    requires forall id | id in order :: id in m
  {
    if order == [] then []
    else
      var last := m[order[|order| - 1]];
      var before := Decent(m, order[..|order| - 1], nNow);
      if IsTerrible(last, nNow) then before else before + [Core(last)]
  }

  /** The random place at or after `k`. */
  function Drawn(draw: nat -> nat, k: nat, size: nat): (j: nat)
    requires k < size
    ensures k <= j < size
  {
    draw(k) % (size - k) + k
  }

  /** The source's `GetAddr_` from index `k` on; `draw(k)` is the random number drawn there. Returns where it stops. */
  ghost function GetAddrFrom(h: Hashes, s: State, k: nat, limit: nat, draw: nat -> nat, nNow: int): (r: (State, nat))
    requires Inv(h, s, {}, 0) && k <= |s.vRandom|
    ensures Inv(h, r.0, {}, 0) && r.0.nKey == s.nKey && SameCores(s.mapInfo, r.0.mapInfo) && k <= r.1 <= |r.0.vRandom| == |s.vRandom|
    decreases |s.vRandom| - k
  {
    AllKnown(s);
    if k == |s.vRandom| || |Decent(s.mapInfo, s.vRandom[..k], nNow)| >= limit then (s, k)
    else
      var j := Drawn(draw, k, |s.vRandom|);
      SwapRandomKeeps(h, s, {}, 0, k, j);
      GetAddrFrom(h, SwapRandom(s, k, j), k + 1, limit, draw, nNow)
  }

  lemma AllKnown(s: State)
    requires Linked(s)
    ensures forall id | id in s.vRandom :: id in s.mapInfo
  {
    forall id | id in s.vRandom
      ensures id in s.mapInfo
    {
      var k :| 0 <= k < |s.vRandom| && s.vRandom[k] == id;
      assert PlaceLinked(s, k);
    }
  }

  /** Swapping places from `k` on leaves what was gathered before alone. */
  lemma {:induction false} DecentSame(m: map<Id, Info>, m': map<Id, Info>, order: seq<Id>, nNow: int)
    requires SameCores(m, m') && forall id | id in order :: id in m
    ensures Decent(m, order, nNow) == Decent(m', order, nNow)
  {
    if order != [] {
      var last := order[|order| - 1];
      assert last in order && Core(m'[last]) == Core(m[last]);
      DecentSame(m, m', order[..|order| - 1], nNow);
    }
  }

  /**
   * Where the gathering stops: the answer is every sharable entry among the first `k` of the random order,
   * in that order; it never exceeds the limit, and falls short of it only when all entries have been seen.
   */
  ghost predicate Gathered(s: State, k: nat, limit: nat, nNow: int) {
    && k <= |s.vRandom|
    && (forall id | id in s.vRandom[..k] :: id in s.mapInfo)
    && |Decent(s.mapInfo, s.vRandom[..k], nNow)| <= limit
    && (|Decent(s.mapInfo, s.vRandom[..k], nNow)| < limit ==> k == |s.vRandom|)
  }

  lemma SwapKeepsGathered(h: Hashes, s: State, k: nat, j: nat, nNow: int)
    requires Inv(h, s, {}, 0) && k <= j < |s.vRandom| && (forall id | id in s.vRandom :: id in s.mapInfo)
    ensures SwapRandom.requires(s, k, j) && forall id | id in SwapRandom(s, k, j).vRandom[..k + 1] :: id in SwapRandom(s, k, j).mapInfo
    ensures |Decent(SwapRandom(s, k, j).mapInfo, SwapRandom(s, k, j).vRandom[..k + 1], nNow)| <= |Decent(s.mapInfo, s.vRandom[..k], nNow)| + 1
  {
    SwapRandomKeeps(h, s, {}, 0, k, j);
    var s1 := SwapRandom(s, k, j);
    AllKnown(s1);
    var first := s1.vRandom[..k + 1];
    assert first[..k] == s.vRandom[..k];
    DecentSame(s.mapInfo, s1.mapInfo, s.vRandom[..k], nNow);
  }

  lemma {:induction false} GetAddrGathers(h: Hashes, s: State, k: nat, limit: nat, draw: nat -> nat, nNow: int)
    requires Inv(h, s, {}, 0) && k <= |s.vRandom| && (forall id | id in s.vRandom[..k] :: id in s.mapInfo)
    requires |Decent(s.mapInfo, s.vRandom[..k], nNow)| <= limit
    ensures Gathered(GetAddrFrom(h, s, k, limit, draw, nNow).0, GetAddrFrom(h, s, k, limit, draw, nNow).1, limit, nNow)
    decreases |s.vRandom| - k
  {
    AllKnown(s);
    if k < |s.vRandom| && |Decent(s.mapInfo, s.vRandom[..k], nNow)| < limit {
      var j := Drawn(draw, k, |s.vRandom|);
      SwapRandomKeeps(h, s, {}, 0, k, j);
      SwapKeepsGathered(h, s, k, j, nNow);
      GetAddrGathers(h, SwapRandom(s, k, j), k + 1, limit, draw, nNow);
    }
  }

  /** The random order is only ever permuted. */
  lemma {:induction false} GetAddrPermutes(h: Hashes, s: State, k: nat, limit: nat, draw: nat -> nat, nNow: int)
    requires Inv(h, s, {}, 0) && k <= |s.vRandom|
    ensures multiset(GetAddrFrom(h, s, k, limit, draw, nNow).0.vRandom) == multiset(s.vRandom)
    decreases |s.vRandom| - k
  {
    AllKnown(s);
    if k < |s.vRandom| && |Decent(s.mapInfo, s.vRandom[..k], nNow)| < limit {
      var j := Drawn(draw, k, |s.vRandom|);
      SwapRandomKeeps(h, s, {}, 0, k, j);
      SwapPermutes(s.vRandom, k, j);
      GetAddrPermutes(h, SwapRandom(s, k, j), k + 1, limit, draw, nNow);
    }
  }

  lemma SwapPermutes(order: seq<Id>, i: nat, j: nat)
    requires i < |order| && j < |order|
    ensures multiset(order[i := order[j]][j := order[i]]) == multiset(order)
  {
  }

  /** A getaddr answer: at most 23 percent of the known addresses and at most 2500, each a known one. */
  lemma GetAddrAnswer(h: Hashes, s: State, draw: nat -> nat, nNow: int)
    requires Inv(h, s, {}, 0)
    ensures var limit := GetAddrLimit(|s.vRandom|);
            var r := GetAddrFrom(h, s, 0, limit, draw, nNow);
            && (forall id | id in r.0.vRandom[..r.1] :: id in r.0.mapInfo)
            && 100 * |Decent(r.0.mapInfo, r.0.vRandom[..r.1], nNow)| <= 23 * |s.vRandom|
            && |Decent(r.0.mapInfo, r.0.vRandom[..r.1], nNow)| <= 2500
  {
    assert s.vRandom[..0] == [];
    GetAddrGathers(h, s, 0, GetAddrLimit(|s.vRandom|), draw, nNow);
  }

  /* ---- Whole runs ---- */

  /** The consistency check of the source, condition by condition; the numbers are its error codes. */
  ghost predicate Check(h: Hashes, s: State) {
    && |s.vRandom| == s.nTried + s.nNew                                              // -7
    && (forall id | id in s.mapInfo :: EntryChecked(s, id))                          // -1 .. -6, -8, -14
    && |TriedIds(s.mapInfo)| == s.nTried && |NewIds(s.mapInfo)| == s.nNew            // -9, -10
    && (forall pos | pos in s.tried :: TriedSlotOk(h, s, pos))                       // -11, -17, -18
    && (forall pos | pos in s.news :: NewSlotOk(h, s, pos))                          // -12, -19
    && (forall id | id in TriedIds(s.mapInfo) :: |Refs(s.tried, id)| == 1)           // -11, -13
    && (forall id | id in NewIds(s.mapInfo) :: |Refs(s.news, id)| == s.mapInfo[id].nRefCount)  // -12, -15
    && s.nKey != 0                                                                   // -16
  }

  /** The lookup of the check: an absent address gives 0. */
  function IdOrZero(m: map<NetAddr, Id>, a: NetAddr): Id {
    if a in m then m[a] else 0
  }

  ghost predicate EntryChecked(s: State, id: Id)
    requires id in s.mapInfo
  {
    var info := s.mapInfo[id];
    && (info.fInTried ==> info.nLastSuccess != 0 && info.nRefCount == 0)
    && (!info.fInTried ==> 1 <= info.nRefCount <= NEW_BUCKETS_PER_ADDRESS)
    && IdOrZero(s.mapAddr, info.service.addr) == id
    && 0 <= info.nRandomPos < |s.vRandom| && s.vRandom[info.nRandomPos] == id
    && info.nLastTry >= 0 && info.nLastSuccess >= 0
  }

  lemma InvIsChecked(h: Hashes, s: State)
    requires Inv(h, s, {}, 0) && s.nKey != 0
    ensures Check(h, s)
  {
    forall id | id in s.mapInfo
      ensures EntryChecked(s, id)
    {
      assert EntryLinked(s, id) && EntryCounted(s, {}, id);
      if s.mapInfo[id].fInTried {
        TriedHasNoRefs(h, s, id);
      }
    }
    forall id | id in TriedIds(s.mapInfo)
      ensures |Refs(s.tried, id)| == 1
    {
      TriedOnce(h, s, id);
    }
    forall id | id in NewIds(s.mapInfo)
      ensures |Refs(s.news, id)| == s.mapInfo[id].nRefCount
    {
      assert EntryCounted(s, {}, id);
    }
    EveryEntryIsNewOrTried(s.mapInfo);
  }

  lemma TriedOnce(h: Hashes, s: State, id: Id)
    requires Placed(h, s) && id in s.mapInfo && s.mapInfo[id].fInTried
    ensures |Refs(s.tried, id)| == 1
  {
    assert HasTriedSlot(h, s, id);
    var own := TriedPos(h, s.nKey, s.mapInfo[id].service);
    forall pos | pos in Refs(s.tried, id)
      ensures pos == own
    {
      assert TriedSlotOk(h, s, pos);
    }
    assert Refs(s.tried, id) == {own};
  }

  lemma EveryEntryIsNewOrTried(m: map<Id, Info>)
    ensures |m| == |TriedIds(m)| + |NewIds(m)|
  {
    assert m.Keys == TriedIds(m) + NewIds(m);
    assert |m| == |m.Keys|;
  }

  datatype Op =
    | OpAdd(addr: Address, source: NetAddr, nTimePenalty: int, nNow: int, draw: nat)
    | OpGood(svc: Service, nTime: int)
    | OpAttempt(svc: Service, fCountFailure: bool, nTime: int)
    | OpConnected(svc: Service, nTime: int)
    | OpGetAddr(draws: nat -> nat, nNow: int)

  /** Times are what a clock shows: positive when an address is reported good. */
  predicate Sane(op: Op) {
    (op.OpGood? ==> op.nTime > 0) && (op.OpAttempt? ==> op.nTime >= 0)
  }

  ghost function Exec(h: Hashes, s: State, op: Op): (r: State)
    requires Inv(h, s, {}, 0) && Sane(op)
    ensures Inv(h, r, {}, 0) && r.nKey == s.nKey
  {
    match op
    case OpAdd(addr, source, penalty, nNow, draw) => Add(h, s, addr, source, penalty, nNow, draw).1
    case OpGood(svc, nTime) => Good(h, s, svc, nTime)
    case OpAttempt(svc, count, nTime) => Attempt(h, s, svc, count, nTime)
    case OpConnected(svc, nTime) => Connected(h, s, svc, nTime)
    case OpGetAddr(draws, nNow) => GetAddrFrom(h, s, 0, GetAddrLimit(|s.vRandom|), draws, nNow).0
  }

  ghost function Run(h: Hashes, s: State, ops: seq<Op>): (r: State)
    requires Inv(h, s, {}, 0) && forall op | op in ops :: Sane(op)
    ensures Inv(h, r, {}, 0) && r.nKey == s.nKey
    decreases |ops|
  {
    if ops == [] then s else Run(h, Exec(h, s, ops[0]), ops[1..])
  }

  lemma InitInv(h: Hashes, nKey: uint256)
    ensures Inv(h, Init(nKey), {}, 0)
  {
    assert TriedIds(map[]) == {} && NewIds(map[]) == {};
  }

  /** A manager that knows one address, in its slot or still without one. */
  function Knowing(nKey: uint256, addr: Address, source: NetAddr, news: Table): State {
    State(nKey, 1, map[0 := Info(addr.service, addr.nServices, addr.nTime, source, 0, 0, 0, 0, |news|, false, 0)],
          map[addr.service.addr := 0], [0], 0, map[], 1, news, 1)
  }

  lemma FirstLearnt(nKey: uint256, addr: Address, source: NetAddr)
    ensures CountNew(Create(Init(nKey), addr.service, addr.nServices, addr.nTime, source)) == Knowing(nKey, addr, source, map[])
  {
  }

  lemma FirstSlot(nKey: uint256, addr: Address, source: NetAddr, pos: Pos)
    ensures AddRef(Knowing(nKey, addr, source, map[]), 0, pos) == Knowing(nKey, addr, source, map[pos := 0])
  {
    assert |map[pos := 0 as Id]| == 1;
  }

  lemma UnknownEnters(h: Hashes, s: State, addr: Address, source: NetAddr, nTimePenalty: int, nNow: int)
    requires Inv(h, s, {}, 0) && addr.service.addr !in s.mapAddr
    ensures AddUnknown(h, s, addr, source, nTimePenalty, nNow) ==
      Enter(h, Learnt(h, s, addr, source, nTimePenalty), s.nIdCount, source, nNow)
  {
  }

  /** The first address of a fresh manager gets its slot. */
  lemma FirstAddress(h: Hashes, nKey: uint256, addr: Address, source: NetAddr, nNow: int)
    requires addr.nTime >= 0
    ensures Inv(h, Init(nKey), {}, 0)
    ensures AddUnknown(h, Init(nKey), addr, source, 0, nNow) ==
      Knowing(nKey, addr, source, map[NewPos(h, nKey, addr.service, source) := 0])
  {
    InitInv(h, nKey);
    FirstLearnt(nKey, addr, source);
    UnknownEnters(h, Init(nKey), addr, source, 0, nNow);
    var s1 := Knowing(nKey, addr, source, map[]);
    assert Learnt(h, Init(nKey), addr, source, 0) == s1;
    EnterFree(h, s1, 0, source, nNow);
    FirstSlot(nKey, addr, source, NewPos(h, nKey, addr.service, source));
  }

  lemma EnterFree(h: Hashes, s: State, id: Id, source: NetAddr, nNow: int)
    requires Inv(h, s, {id}, 0) && id in s.mapInfo && !s.mapInfo[id].fInTried
    requires NewPos(h, s.nKey, s.mapInfo[id].service, source) !in s.news
    ensures Enter(h, s, id, source, nNow) == AddRef(s, id, NewPos(h, s.nKey, s.mapInfo[id].service, source))
  {
  }

  /** Two addresses that hash to one slot: the second is reported as added and is not known afterwards. */
  lemma AddedButUnknown()
    ensures var h := Hashes((_, _) => 0, (_, _, _) => 0, (_, _, _, _) => 0);
            var a, b := Address(Service(NetAddr(1), 8333), {}, 1000000, true), Address(Service(NetAddr(2), 8333), {}, 1000000, true);
            && Inv(h, Init(1), {}, 0)
            && var s := Add(h, Init(1), a, NetAddr(3), 0, 1000000, 0).1;
               var r := Add(h, s, b, NetAddr(3), 0, 1000000, 0);
               r.0 && b.service.addr !in r.1.mapAddr
  {
    var h := Hashes((_, _) => 0, (_, _, _) => 0, (_, _, _, _) => 0);
    var a, b := Address(Service(NetAddr(1), 8333), {}, 1000000, true), Address(Service(NetAddr(2), 8333), {}, 1000000, true);
    FirstAddress(h, 1, a, NetAddr(3), 1000000);
    var s := AddUnknown(h, Init(1), a, NetAddr(3), 0, 1000000);
    var pos := NewPos(h, 1, b.service, NetAddr(3));
    assert pos == NewPos(h, 1, a.service, NetAddr(3)) && !SlotAvailable(s, pos, 1000000);
    var r := AddUnknown(h, s, b, NetAddr(3), 0, 1000000);
  }

  /** For all hash functions, random draws and operations the consistency check passes after every run. */
  lemma RunPassesCheck(h: Hashes, nKey: uint256, ops: seq<Op>)
    requires nKey != 0 && forall op | op in ops :: Sane(op)
    ensures Inv(h, Init(nKey), {}, 0)
    ensures Check(h, Run(h, Init(nKey), ops))
  {
    InitInv(h, nKey);
    InvIsChecked(h, Run(h, Init(nKey), ops));
  }
}
