/**
 * Reading the address manager from any file: what always holds of the tables, and exactly when the
 * manager passes its consistency check.
 */
module AddrManRead {
  import opened Prelude
  import opened AddrMan
  import opened AddrManFile

  ghost predicate RefsRight(s: State, id: Id)
    requires id in s.mapInfo
  {
    s.mapInfo[id].nRefCount == |Refs(s.news, id)| <= NEW_BUCKETS_PER_ADDRESS
  }

  ghost predicate Holder(s: State, a: NetAddr)
    requires a in s.mapAddr
  {
    s.mapAddr[a] in s.mapInfo && s.mapInfo[s.mapAddr[a]].service.addr == a
  }

  /** Every address leads to some entry that has it, and every entry's address leads somewhere. */
  ghost predicate Mapped(s: State) {
    && (forall a {:trigger Holder(s, a)} | a in s.mapAddr :: Holder(s, a))
    && (forall id | id in s.mapInfo :: s.mapInfo[id].service.addr in s.mapAddr)
  }

  /** What holds of the tables whatever the file: everything but that entries have different addresses. */
  ghost predicate Tabled(h: Hashes, s: State, uncounted: int) {
    && Places(s) && |s.vRandom| == |s.mapInfo| && Mapped(s)
    && Placed(h, s) && Sized(s, uncounted)
    && (forall id {:trigger RefsRight(s, id)} | id in s.mapInfo :: RefsRight(s, id))
  }

  /* ---- Every step of reading ---- */

  lemma StartTabled(h: Hashes, f: File)
    ensures Tabled(h, Start(f), -|f.news|)
  {
    assert TriedIds(map[]) == {} && NewIds(map[]) == {};
  }

  lemma InsertTabled(h: Hashes, s: State, uncounted: int, info: Info) returns (r: State)
    requires Tabled(h, s, uncounted) && info.nRefCount == 0 && !info.fInTried
    ensures r == Insert(s, info) && Tabled(h, r, uncounted + 1) && s.nIdCount !in s.mapInfo && Refs(r.news, s.nIdCount) == {}
  {
    r := Insert(s, info);
    PlacesInsert(s, info);
    InsertPlaced(h, s, info);
    NotReferenced(h, s, s.nIdCount);
    PutSizes(s.mapInfo, s.nIdCount, r.mapInfo[s.nIdCount]);
    forall id | id in r.mapInfo
      ensures RefsRight(r, id)
    {
      assert id != s.nIdCount ==> RefsRight(s, id);
    }
    forall a | a in r.mapAddr
      ensures Holder(r, a)
    {
      assert a != info.service.addr ==> Holder(s, a);
    }
  }

  lemma MappedFrame(s: State, s': State)
    requires Mapped(s) && s'.mapAddr == s.mapAddr && s'.mapInfo.Keys == s.mapInfo.Keys
    requires forall id | id in s.mapInfo :: s'.mapInfo[id].service == s.mapInfo[id].service
    ensures Mapped(s')
  {
    forall a | a in s'.mapAddr
      ensures Holder(s', a)
    {
      assert Holder(s, a);
    }
  }

  lemma AddRefTabled(h: Hashes, s: State, uncounted: int, id: Id, pos: Pos) returns (r: State)
    requires Tabled(h, s, uncounted) && id in s.mapInfo && !s.mapInfo[id].fInTried && pos !in s.news
    requires s.mapInfo[id].nRefCount < NEW_BUCKETS_PER_ADDRESS
    requires pos.bucket < NEW_BUCKET_COUNT && pos == NewPosIn(h, s.nKey, s.mapInfo[id].service, pos.bucket)
    ensures r == AddRef(s, id, pos) && Tabled(h, r, uncounted)
  {
    r := AddRef(s, id, pos);
    assert r.mapInfo.Keys == s.mapInfo.Keys;
    assert |r.mapInfo| == |r.mapInfo.Keys| && |s.mapInfo| == |s.mapInfo.Keys|;
    PlacesFrame(s, r);
    MappedFrame(s, r);
    AddRefPlaced(h, s, id, pos);
    SizedFrame(s, r, uncounted);
    forall x | x in r.mapInfo
      ensures RefsRight(r, x)
    {
      assert RefsRight(s, x);
      RefsPut(s.news, pos, id, x);
    }
  }

  lemma SettleTabled(h: Hashes, s: State, uncounted: int, id: Id, pos: Pos) returns (r: State)
    requires Tabled(h, s, uncounted) && id in s.mapInfo && !s.mapInfo[id].fInTried && Refs(s.news, id) == {}
    requires pos !in s.tried && pos == TriedPos(h, s.nKey, s.mapInfo[id].service)
    ensures r == Settle(s, id, pos) && Tabled(h, r, uncounted - 1)
  {
    r := Settle(s, id, pos);
    assert r.mapInfo.Keys == s.mapInfo.Keys;
    assert |r.mapInfo| == |r.mapInfo.Keys| && |s.mapInfo| == |s.mapInfo.Keys|;
    PlacesFrame(s, r);
    MappedFrame(s, r);
    SettlePlaced(h, s, id, pos);
    PutSizes(s.mapInfo, id, r.mapInfo[id]);
    forall x | x in r.mapInfo
      ensures RefsRight(r, x)
    {
      assert RefsRight(s, x);
    }
  }

  lemma LoadNewTabled(h: Hashes, s: State, e: Saved, usable: bool, uncounted: int) returns (r: State)
    requires Tabled(h, s, uncounted)
    ensures r == LoadNew(h, s, e, usable) && Tabled(h, r, uncounted + 1)
  {
    r := InsertTabled(h, s, uncounted, Load(e));
    var pos := NewPos(h, s.nKey, e.service, e.source);
    if !usable && pos !in s.news {
      r := AddRefTabled(h, r, uncounted + 1, s.nIdCount, pos);
    }
  }

  lemma {:induction false} LoadNewsTabled(h: Hashes, s: State, es: seq<Saved>, usable: bool, uncounted: int) returns (r: State)
    requires Tabled(h, s, uncounted)
    ensures r == LoadNews(h, s, es, usable) && Tabled(h, r, uncounted + |es|)
    decreases |es|
  {
    r := s;
    if es != [] {
      var n := |es| - 1;
      r := LoadNewsTabled(h, s, es[..n], usable, uncounted);
      r := LoadNewTabled(h, r, es[n], usable, uncounted + n);
    }
  }

  lemma LoadTriedTabled(h: Hashes, s: State, e: Saved) returns (r: State)
    requires Tabled(h, s, 0)
    ensures r == LoadTried(h, s, e) && Tabled(h, r, 0)
  {
    r := s;
    var pos := TriedPos(h, s.nKey, e.service);
    if pos !in s.tried {
      r := InsertTabled(h, s, 0, Load(e));
      r := SettleTabled(h, r, 1, s.nIdCount, pos);
    }
  }

  lemma {:induction false} LoadTriedsTabled(h: Hashes, s: State, es: seq<Saved>) returns (r: State)
    requires Tabled(h, s, 0)
    ensures r == LoadTrieds(h, s, es) && Tabled(h, r, 0)
    decreases |es|
  {
    r := s;
    if es != [] {
      r := LoadTriedsTabled(h, s, es[..|es| - 1]);
      r := LoadTriedTabled(h, r, es[|es| - 1]);
    }
  }

  /** Taking slots changes nothing about the entries but their counts. */
  ghost predicate SameButRefs(m: map<Id, Info>, m': map<Id, Info>) {
    && m'.Keys == m.Keys
    && forall id | id in m :: m'[id].(nRefCount := 0) == m[id].(nRefCount := 0)
  }

  lemma TakeIndexTabled(h: Hashes, s: State, bucket: nat, nIndex: int, usable: bool) returns (r: State)
    requires Tabled(h, s, 0) && NewBelow(s, s.nNew) && (usable ==> bucket < NEW_BUCKET_COUNT)
    ensures r == TakeIndex(h, s, bucket, nIndex, usable) && Tabled(h, r, 0) && NewBelow(r, s.nNew)
    ensures SameButRefs(s.mapInfo, r.mapInfo) && r.nKey == s.nKey && r.nIdCount == s.nIdCount
  {
    r := s;
    if 0 <= nIndex < s.nNew && nIndex as Id in s.mapInfo {
      var id := nIndex as Id;
      var pos := NewPosIn(h, s.nKey, s.mapInfo[id].service, bucket);
      if usable && pos !in s.news && s.mapInfo[id].nRefCount < NEW_BUCKETS_PER_ADDRESS {
        r := AddRefTabled(h, s, 0, id, pos);
      }
    }
  }

  lemma {:induction false} TakeBucketTabled(h: Hashes, s: State, bucket: nat, list: seq<int>, usable: bool) returns (r: State)
    requires Tabled(h, s, 0) && NewBelow(s, s.nNew) && (usable ==> bucket < NEW_BUCKET_COUNT)
    ensures r == TakeBucket(h, s, bucket, list, usable) && Tabled(h, r, 0) && NewBelow(r, s.nNew)
    ensures SameButRefs(s.mapInfo, r.mapInfo) && r.nKey == s.nKey && r.nIdCount == s.nIdCount
    decreases |list|
  {
    r := s;
    if list != [] {
      r := TakeBucketTabled(h, s, bucket, list[..|list| - 1], usable);
      r := TakeIndexTabled(h, r, bucket, list[|list| - 1], usable);
    }
  }

  lemma {:induction false} TakeBucketsTabled(h: Hashes, s: State, lists: seq<seq<int>>, usable: bool) returns (r: State)
    requires Tabled(h, s, 0) && NewBelow(s, s.nNew) && (usable ==> |lists| <= NEW_BUCKET_COUNT)
    ensures r == TakeBuckets(h, s, lists, usable) && Tabled(h, r, 0) && NewBelow(r, s.nNew)
    ensures SameButRefs(s.mapInfo, r.mapInfo) && r.nKey == s.nKey && r.nIdCount == s.nIdCount
    decreases |lists|
  {
    r := s;
    if lists != [] {
      var n := |lists| - 1;
      r := TakeBucketsTabled(h, s, lists[..n], usable);
      r := TakeBucketTabled(h, r, n, lists[n], usable);
    }
  }

  lemma EntriesTabled(h: Hashes, f: File) returns (r: State)
    ensures r == Entries(h, f) && Tabled(h, r, 0)
  {
    StartTabled(h, f);
    r := LoadNewsTabled(h, Start(f), f.news, Usable(f.nVersion, f.nUBuckets), -|f.news|);
    r := LoadTriedsTabled(h, r, f.trieds);
  }

  /** Whatever the file holds, places, slots, reference counts and counters are right before pruning. */
  lemma FilledTabled(h: Hashes, f: File) returns (r: State)
    requires Complete(f)
    ensures r == Filled(h, f) && Tabled(h, r, 0) && r.nKey == f.nKey && SameButRefs(Entries(h, f).mapInfo, r.mapInfo)
  {
    r := EntriesTabled(h, f);
    EntriesNew(h, f);
    r := TakeBucketsTabled(h, r, f.buckets, Usable(f.nVersion, f.nUBuckets));
  }

  /* ---- Pruning ---- */

  function Gone(s: State, n: nat): set<Id> {
    set id | id in s.mapInfo && id as int < n && Unreferenced(s, id)
  }

  function GoneAddresses(s: State, n: nat): set<NetAddr> {
    set id | id in s.mapInfo && id as int < n && Unreferenced(s, id) :: s.mapInfo[id].service.addr
  }

  /** What pruning the ids below `n` leaves: entries without slot are gone, and so are their addresses. */
  ghost predicate PrunedTo(s: State, r: State, n: nat) {
    && Places(r) && |r.vRandom| == |r.mapInfo| && Sized(r, 0)
    && SameCores(s.mapInfo - Gone(s, n), r.mapInfo)
    && r.mapAddr == s.mapAddr - GoneAddresses(s, n)
    && r.news == s.news && r.tried == s.tried && r.nKey == s.nKey && r.nIdCount == s.nIdCount
  }

  lemma GoneNext(s: State, n: nat)
    ensures var id := n as Id;
            && Gone(s, n + 1) == Gone(s, n) + (if Unreferenced(s, id) then {id} else {})
            && GoneAddresses(s, n + 1) == GoneAddresses(s, n) + (if Unreferenced(s, id) then {s.mapInfo[id].service.addr} else {})
  {
    var id, next := n as Id, n + 1;
    forall a | a in GoneAddresses(s, next)
      ensures a in GoneAddresses(s, n) + (if Unreferenced(s, id) then {s.mapInfo[id].service.addr} else {})
    {
      var x :| x in s.mapInfo && x as int < n + 1 && Unreferenced(s, x) && s.mapInfo[x].service.addr == a;
      assert x == id || x as int < n;
    }
  }

  /** Taking an entry out of the permutation and the maps. */
  lemma DeleteSizes(r: State, r': State, id: Id)
    requires Sized(r, 0) && |r.vRandom| == |r.mapInfo| && id in r.mapInfo && !r.mapInfo[id].fInTried
    requires SameCores(r.mapInfo - {id}, r'.mapInfo) && r'.nNew == r.nNew - 1 && r'.nTried == r.nTried
    requires |r'.vRandom| == |r.vRandom| - 1
    ensures Sized(r', 0) && |r'.vRandom| == |r'.mapInfo|
  {
    var rest := r.mapInfo - {id};
    RemoveSizes(r.mapInfo, id);
    assert forall x | x in rest :: Core(r'.mapInfo[x]).fInTried == Core(rest[x]).fInTried;
    assert TriedIds(r'.mapInfo) == TriedIds(rest) && NewIds(r'.mapInfo) == NewIds(rest);
    assert |r'.mapInfo| == |r'.mapInfo.Keys| && |rest| == |rest.Keys|;
  }

  lemma SameCoresTrans(a: map<Id, Info>, b: map<Id, Info>, c: map<Id, Info>, gone: set<Id>, id: Id)
    requires SameCores(a - gone, b) && SameCores(b - {id}, c)
    ensures SameCores(a - (gone + {id}), c)
  {
    assert (a - (gone + {id})).Keys == (b - {id}).Keys;
    forall x | x in a - (gone + {id})
      ensures Core(c[x]) == Core((a - (gone + {id}))[x])
    {
      assert Core(b[x]) == Core((a - gone)[x]);
      assert Core(c[x]) == Core((b - {id})[x]);
    }
  }

  /** The next entry is without slot exactly if it was so at the start. */
  lemma NotYetGone(s: State, r: State, n: nat)
    requires SameCores(s.mapInfo - Gone(s, n), r.mapInfo)
    ensures Unreferenced(r, n as Id) <==> Unreferenced(s, n as Id)
    ensures Unreferenced(s, n as Id) ==> r.mapInfo[n as Id].service == s.mapInfo[n as Id].service
  {
    var id := n as Id;
    assert id in s.mapInfo - Gone(s, n) <==> id in s.mapInfo;
    if id in s.mapInfo {
      assert Core(r.mapInfo[id]) == Core((s.mapInfo - Gone(s, n))[id]);
    }
  }

  lemma PruneDeletes(s: State, r: State, n: nat) returns (r': State)
    requires PrunedTo(s, r, n) && Unreferenced(s, n as Id)
    ensures r' == PruneOne(r, n as Id) && PrunedTo(s, r', n + 1)
  {
    var id := n as Id;
    GoneNext(s, n);
    NotYetGone(s, r, n);
    PlacesDelete(r, id);
    r' := Delete(r, id);
    DeleteRemoves(r, id);
    DeleteSizes(r, r', id);
    SameCoresTrans(s.mapInfo, r.mapInfo, r'.mapInfo, Gone(s, n), id);
    AddressesGone(s.mapAddr, GoneAddresses(s, n), s.mapInfo[id].service.addr);
  }

  lemma AddressesGone(m: map<NetAddr, Id>, gone: set<NetAddr>, a: NetAddr)
    ensures m - gone - {a} == m - (gone + {a})
  {
  }

  lemma PruneKeeps(s: State, r: State, n: nat)
    requires PrunedTo(s, r, n) && !Unreferenced(s, n as Id)
    ensures r == PruneOne(r, n as Id) && PrunedTo(s, r, n + 1)
  {
    GoneSame(s, n);
    NotYetGone(s, r, n);
  }

  lemma GoneSame(s: State, n: nat)
    requires !Unreferenced(s, n as Id)
    ensures Gone(s, n + 1) == Gone(s, n) && GoneAddresses(s, n + 1) == GoneAddresses(s, n)
  {
    GoneNext(s, n);
    assert Gone(s, n) + {} == Gone(s, n);
    assert GoneAddresses(s, n) + {} == GoneAddresses(s, n);
  }

  lemma PruneNone(s: State)
    requires Places(s) && |s.vRandom| == |s.mapInfo| && Sized(s, 0)
    ensures PrunedTo(s, s, 0)
  {
    forall id | id in s.mapInfo
      ensures id as int >= 0
    {
      assert EntryPlace(s, id);
    }
    assert Gone(s, 0) == {} && GoneAddresses(s, 0) == {};
    assert s.mapInfo - {} == s.mapInfo && s.mapAddr - {} == s.mapAddr;
  }

  lemma {:induction false} PruneTo(s: State, n: nat) returns (r: State)
    requires Places(s) && |s.vRandom| == |s.mapInfo| && Sized(s, 0)
    ensures r == Prune(s, n) && PrunedTo(s, r, n)
  {
    PruneNone(s);
    r := s;
    for i := 0 to n
      invariant r == Prune(s, i) && PrunedTo(s, r, i)
    {
      r := PruneNext(s, r, i);
    }
  }

  lemma PruneNext(s: State, r: State, n: nat) returns (r': State)
    requires PrunedTo(s, r, n)
    ensures r' == PruneOne(r, n as Id) && PrunedTo(s, r', n + 1)
  {
    if Unreferenced(s, n as Id) {
      r' := PruneDeletes(s, r, n);
    } else {
      r' := r;
      PruneKeeps(s, r, n);
    }
  }

  /* ---- Exactly when the result is consistent ---- */

  predicate TimesRight(info: Info) {
    info.nLastTry >= 0 && info.nLastSuccess >= 0 && (info.fInTried ==> info.nLastSuccess != 0)
  }

  predicate SameAddress(s: State, x: Id, y: Id) {
    x in s.mapInfo && y in s.mapInfo && s.mapInfo[x].service.addr == s.mapInfo[y].service.addr
  }

  /** An entry that got a slot shares its address with no other entry read, and its times are right. */
  ghost predicate Fit(s: State, id: Id)
    requires id in s.mapInfo
  {
    Unreferenced(s, id) || (TimesRight(s.mapInfo[id]) && forall x | SameAddress(s, x, id) :: x == id)
  }

  ghost predicate AllFit(s: State) {
    forall id {:trigger Fit(s, id)} | id in s.mapInfo :: Fit(s, id)
  }

  /** The same, except that entry 0 may share its address with entries that got no slot. */
  ghost predicate Passing(s: State, id: Id)
    requires id in s.mapInfo
  {
    Unreferenced(s, id) ||
    (TimesRight(s.mapInfo[id]) && forall x | SameAddress(s, x, id) :: x == id || (id == 0 && Unreferenced(s, x)))
  }

  ghost predicate AllPassing(s: State) {
    forall id {:trigger Passing(s, id)} | id in s.mapInfo :: Passing(s, id)
  }

  /** The entries that are left, and what is left of their addresses. */
  lemma Left(s: State, r: State, id: Id)
    requires s.nIdCount >= 0 && PrunedTo(s, r, s.nIdCount as int) && Places(s)
    ensures id in r.mapInfo <==> id in s.mapInfo && !Unreferenced(s, id)
    ensures id in r.mapInfo ==> Core(r.mapInfo[id]) == Core(s.mapInfo[id])
  {
    if id in s.mapInfo {
      assert EntryPlace(s, id);
    }
    if id in r.mapInfo {
      assert Core(r.mapInfo[id]) == Core((s.mapInfo - Gone(s, s.nIdCount as int))[id]);
    }
  }

  lemma TimesLeft(a: Info, b: Info)
    requires Core(a) == Core(b)
    ensures TimesRight(a) <==> TimesRight(b)
  {
    assert Core(a).nLastSuccess == Core(b).nLastSuccess && Core(a).nLastTry == Core(b).nLastTry && Core(a).fInTried == Core(b).fInTried;
  }

  /** What is left of the address of an entry with a slot. */
  lemma AddressOf(h: Hashes, s: State, r: State, id: Id)
    requires Tabled(h, s, 0) && PrunedTo(s, r, s.nIdCount as int) && id in r.mapInfo
    ensures var a := r.mapInfo[id].service.addr;
            if exists x :: SameAddress(s, x, id) && Unreferenced(s, x) then a !in r.mapAddr
            else a in r.mapAddr && r.mapAddr[a] in r.mapInfo && SameAddress(s, r.mapAddr[a], id)
  {
    Left(s, r, id);
    var a := s.mapInfo[id].service.addr;
    assert Core(r.mapInfo[id]).service.addr == a && a in s.mapAddr && Holder(s, a);
    if x :| SameAddress(s, x, id) && Unreferenced(s, x) {
      assert EntryPlace(s, x);
      assert a in GoneAddresses(s, s.nIdCount as int);
    } else {
      assert a !in GoneAddresses(s, s.nIdCount as int);
      Left(s, r, s.mapAddr[a]);
    }
  }

  lemma FitLinked(h: Hashes, s: State, r: State, id: Id)
    requires Tabled(h, s, 0) && AllFit(s) && PrunedTo(s, r, s.nIdCount as int) && id in r.mapInfo
    ensures EntryLinked(r, id) && EntryCounted(r, {}, id)
  {
    Left(s, r, id);
    assert Fit(s, id) && EntryPlace(r, id) && RefsRight(s, id);
    assert Core(r.mapInfo[id]).nRefCount == s.mapInfo[id].nRefCount;
    TimesLeft(r.mapInfo[id], s.mapInfo[id]);
    AddressOf(h, s, r, id);
  }

  lemma AddressLeft(h: Hashes, s: State, r: State, a: NetAddr)
    requires Tabled(h, s, 0) && PrunedTo(s, r, s.nIdCount as int) && a in r.mapAddr
    ensures AddrLinked(r, a)
  {
    assert Holder(s, a);
    var id := s.mapAddr[a];
    assert EntryPlace(s, id);
    assert a !in GoneAddresses(s, s.nIdCount as int);
    Left(s, r, id);
    assert Core(r.mapInfo[id]).service.addr == a;
  }

  lemma PlacedLeft(h: Hashes, s: State, r: State)
    requires Tabled(h, s, 0) && PrunedTo(s, r, s.nIdCount as int)
    ensures Placed(h, r)
  {
    forall pos | pos in r.news
      ensures NewSlotOk(h, r, pos)
    {
      var id := s.news[pos];
      assert NewSlotOk(h, s, pos) && RefsRight(s, id) && pos in Refs(s.news, id);
      Left(s, r, id);
      assert Core(r.mapInfo[id]).service == s.mapInfo[id].service;
    }
    forall pos | pos in r.tried
      ensures TriedSlotOk(h, r, pos)
    {
      assert TriedSlotOk(h, s, pos);
      Left(s, r, s.tried[pos]);
      assert Core(r.mapInfo[s.tried[pos]]).service == s.mapInfo[s.tried[pos]].service;
    }
    forall id | id in r.mapInfo
      ensures HasTriedSlot(h, r, id)
    {
      Left(s, r, id);
      assert HasTriedSlot(h, s, id);
      assert Core(r.mapInfo[id]).service == s.mapInfo[id].service;
    }
  }

  lemma FitIsConsistent(h: Hashes, s: State, r: State)
    requires Tabled(h, s, 0) && AllFit(s) && PrunedTo(s, r, s.nIdCount as int)
    ensures Inv(h, r, {}, 0)
  {
    PlacedLeft(h, s, r);
    forall id | id in r.mapInfo
      ensures EntryLinked(r, id) && EntryCounted(r, {}, id)
    {
      FitLinked(h, s, r, id);
    }
    forall a | a in r.mapAddr
      ensures AddrLinked(r, a)
    {
      AddressLeft(h, s, r, a);
    }
    forall k | 0 <= k < |r.vRandom|
      ensures PlaceLinked(r, k)
    {
      assert PlaceEntry(r, k);
    }
  }

  /** An entry that shares its address with none is found by it; so is entry 0 if all others are pruned. */
  lemma IsFound(h: Hashes, s: State, r: State, id: Id)
    requires Tabled(h, s, 0) && PrunedTo(s, r, s.nIdCount as int) && id in r.mapInfo
    requires forall x | SameAddress(s, x, id) :: x == id || (id == 0 && Unreferenced(s, x))
    ensures IdOrZero(r.mapAddr, r.mapInfo[id].service.addr) == id
  {
    AddressOf(h, s, r, id);
    Left(s, r, id);
    var a := r.mapInfo[id].service.addr;
    if a in r.mapAddr {
      Left(s, r, r.mapAddr[a]);
    }
  }

  lemma PassingIsChecked(h: Hashes, s: State, r: State, id: Id)
    requires Tabled(h, s, 0) && PrunedTo(s, r, s.nIdCount as int) && id in r.mapInfo && Passing(s, id)
    ensures EntryChecked(r, id) && r.mapInfo[id].nRefCount == |Refs(r.news, id)|
  {
    Left(s, r, id);
    assert EntryPlace(r, id) && RefsRight(s, id);
    assert Core(r.mapInfo[id]).nRefCount == s.mapInfo[id].nRefCount;
    IsFound(h, s, r, id);
    if s.mapInfo[id].fInTried {
      TriedHasNoRefs(h, s, id);
    }
  }

  lemma PassingPasses(h: Hashes, s: State, r: State)
    requires Tabled(h, s, 0) && AllPassing(s) && PrunedTo(s, r, s.nIdCount as int) && r.nKey != 0
    ensures Check(h, r)
  {
    PlacedLeft(h, s, r);
    forall id | id in r.mapInfo
      ensures EntryChecked(r, id) && r.mapInfo[id].nRefCount == |Refs(r.news, id)|
    {
      Left(s, r, id);
      assert Passing(s, id);
      PassingIsChecked(h, s, r, id);
    }
    forall id | id in TriedIds(r.mapInfo)
      ensures |Refs(r.tried, id)| == 1
    {
      TriedOnce(h, r, id);
    }
    EveryEntryIsNewOrTried(r.mapInfo);
  }

  /** Where the check passes, nothing shares its address with an entry that got a slot, but for entry 0. */
  lemma OnlyHolder(h: Hashes, s: State, r: State, id: Id, x: Id)
    requires Tabled(h, s, 0) && PrunedTo(s, r, s.nIdCount as int) && id in r.mapInfo && SameAddress(s, x, id)
    requires forall y | y in r.mapInfo :: IdOrZero(r.mapAddr, r.mapInfo[y].service.addr) == y
    ensures x == id || (id == 0 && Unreferenced(s, x))
  {
    Left(s, r, id);
    Left(s, r, x);
    AddressOf(h, s, r, id);
    assert Core(r.mapInfo[id]).service == s.mapInfo[id].service;
    if !Unreferenced(s, x) {
      assert Core(r.mapInfo[x]).service == s.mapInfo[x].service;
    }
  }

  lemma CheckedIsPassing(h: Hashes, s: State, r: State, id: Id)
    requires Tabled(h, s, 0) && PrunedTo(s, r, s.nIdCount as int)
    requires (forall y | y in r.mapInfo :: EntryChecked(r, y)) && id in s.mapInfo
    ensures Passing(s, id)
  {
    Left(s, r, id);
    if !Unreferenced(s, id) {
      assert EntryChecked(r, id);
      TimesLeft(r.mapInfo[id], s.mapInfo[id]);
      forall x | SameAddress(s, x, id)
        ensures x == id || (id == 0 && Unreferenced(s, x))
      {
        OnlyHolder(h, s, r, id, x);
      }
    }
  }

  /**
   * For every file: the manager read from it passes the consistency check if and only if its key is not zero
   * and every entry that got a slot has right times and shares its address with no other entry read, except
   * that entry 0 may share its own with entries that got no slot.
   */
  lemma BuildPassesIff(h: Hashes, f: File)
    requires Complete(f)
    ensures Check(h, Build(h, f)) <==> f.nKey != 0 && AllPassing(Filled(h, f))
  {
    var s := FilledTabled(h, f);
    assert Max(0, s.nIdCount as int) == s.nIdCount as int;
    var r := PruneTo(s, s.nIdCount as int);
    if AllPassing(s) && f.nKey != 0 {
      PassingPasses(h, s, r);
    }
    if Check(h, r) {
      forall id | id in s.mapInfo
        ensures Passing(s, id)
      {
        CheckedIsPassing(h, s, r, id);
      }
    }
  }

  lemma ConsistentIsFit(h: Hashes, s: State, r: State, id: Id)
    requires Tabled(h, s, 0) && PrunedTo(s, r, s.nIdCount as int) && Inv(h, r, {}, 0) && id in s.mapInfo
    ensures Fit(s, id)
  {
    Left(s, r, id);
    if !Unreferenced(s, id) {
      assert EntryLinked(r, id) && EntryCounted(r, {}, id);
      TimesLeft(r.mapInfo[id], s.mapInfo[id]);
      AddressOf(h, s, r, id);
      forall x | SameAddress(s, x, id)
        ensures x == id
      {
        Left(s, r, x);
        assert EntryLinked(r, x);
        assert Core(r.mapInfo[x]).service == s.mapInfo[x].service && Core(r.mapInfo[id]).service == s.mapInfo[id].service;
      }
    }
  }

  /**
   * For every file: the manager read from it is consistent, with every entry found under its address, if and
   * only if every entry that got a slot has right times and shares its address with no other entry read.
   */
  lemma BuildIsConsistentIff(h: Hashes, f: File)
    requires Complete(f)
    ensures Inv(h, Build(h, f), {}, 0) <==> AllFit(Filled(h, f))
  {
    var s := FilledTabled(h, f);
    assert Max(0, s.nIdCount as int) == s.nIdCount as int;
    var r := PruneTo(s, s.nIdCount as int);
    if AllFit(s) {
      FitIsConsistent(h, s, r);
    }
    if Inv(h, r, {}, 0) {
      forall id | id in s.mapInfo
        ensures Fit(s, id)
      {
        ConsistentIsFit(h, s, r, id);
      }
    }
  }

  lemma DistinctFits(e: State, s: State, id: Id)
    requires Linked(e) && Counted(e, e.mapInfo.Keys) && SameButRefs(e.mapInfo, s.mapInfo) && id in s.mapInfo
    ensures Fit(s, id)
  {
    assert EntryLinked(e, id) && EntryCounted(e, e.mapInfo.Keys, id);
    forall x | SameAddress(s, x, id)
      ensures x == id
    {
      assert EntryLinked(e, x);
    }
  }

  lemma SoundFits(h: Hashes, f: File)
    requires Sound(f) && Complete(f)
    ensures AllFit(Filled(h, f))
  {
    var s := FilledTabled(h, f);
    EntriesPartial(h, f);
    forall id | id in s.mapInfo
      ensures Fit(s, id)
    {
      DistinctFits(Entries(h, f), s, id);
    }
  }

  /**
   * Whatever version wrote the file and whatever its bucket lists say, a file in which no address is listed
   * twice and tried entries have worked gives a consistent manager.
   */
  lemma BuildIsConsistent(h: Hashes, f: File)
    requires Sound(f) && Complete(f)
    ensures Inv(h, Build(h, f), {}, 0)
  {
    SoundFits(h, f);
    BuildIsConsistentIff(h, f);
  }

  /** A file of another version that lists the address of one service twice, with the two given sources. */
  function Twice(a: NetAddr, b: NetAddr): File {
    var svc := Service(NetAddr(1), 8333);
    File(2, 1, 0, [Saved(svc, {}, 0, a, 0, 0), Saved(svc, {}, 0, b, 0, 0)], [], [])
  }

  /** If the two sources lead to different slots, the check fails. */
  lemma TwiceListedFails(h: Hashes, a: NetAddr, b: NetAddr)
    requires NewPos(h, 1, Service(NetAddr(1), 8333), a) != NewPos(h, 1, Service(NetAddr(1), 8333), b)
    ensures Complete(Twice(a, b)) && !Check(h, Build(h, Twice(a, b)))
  {
    var s := TwoNews(h, a, b);
    assert SameAddress(s, 1, 0) && !Unreferenced(s, 1);
    assert !Passing(s, 0);
    BuildPassesIff(h, Twice(a, b));
  }

  /** If they lead to the same slot, the check passes although the address that is left is not found any more. */
  lemma TwiceListedPasses(h: Hashes, a: NetAddr, b: NetAddr)
    requires NewPos(h, 1, Service(NetAddr(1), 8333), a) == NewPos(h, 1, Service(NetAddr(1), 8333), b)
    ensures Complete(Twice(a, b)) && Check(h, Build(h, Twice(a, b)))
    ensures var r := Build(h, Twice(a, b));
            0 in r.mapInfo && r.mapInfo[0].service.addr == NetAddr(1) && NetAddr(1) !in r.mapAddr && !Inv(h, r, {}, 0)
  {
    var s := TwoNews(h, a, b);
    assert SameAddress(s, 1, 0) && Unreferenced(s, 1);
    assert Passing(s, 0) && Passing(s, 1);
    BuildPassesIff(h, Twice(a, b));
    assert !Fit(s, 0);
    BuildIsConsistentIff(h, Twice(a, b));
    AddressIsLost(h, s, Twice(a, b));
  }

  lemma AddressIsLost(h: Hashes, s: State, f: File)
    requires Complete(f) && s == Filled(h, f) && SameAddress(s, 1, 0) && Unreferenced(s, 1) && !Unreferenced(s, 0)
    ensures 0 in Build(h, f).mapInfo && Build(h, f).mapInfo[0].service == s.mapInfo[0].service
    ensures s.mapInfo[0].service.addr !in Build(h, f).mapAddr
  {
    var t := FilledTabled(h, f);
    var r := PruneTo(s, s.nIdCount as int);
    Left(s, r, 0);
    assert Core(r.mapInfo[0]).service == s.mapInfo[0].service;
    AddressOf(h, s, r, 0);
  }

  /** What is read before pruning: the first entry has its slot, the second one has if it is another slot. */
  lemma TwoNews(h: Hashes, a: NetAddr, b: NetAddr) returns (s: State)
    ensures s == Filled(h, Twice(a, b)) && s.mapInfo.Keys == {0, 1}
    ensures s.mapInfo[0].service == s.mapInfo[1].service == Service(NetAddr(1), 8333)
    ensures !Unreferenced(s, 0) && TimesRight(s.mapInfo[0])
    ensures Unreferenced(s, 1) <==> NewPos(h, 1, Service(NetAddr(1), 8333), a) == NewPos(h, 1, Service(NetAddr(1), 8333), b)
  {
    var f := Twice(a, b);
    var e0, e1 := f.news[0], f.news[1];
    var s1 := LoadNew(h, Start(f), e0, false);
    s := LoadNew(h, s1, e1, false);
    assert f.news == [e0, e1] && f.news[..1] == [e0] && [e0][..0] == [];
    assert LoadNews(h, Start(f), [e0], false) == s1;
    assert Filled(h, f) == s;
    assert s1.mapInfo[0].nRefCount == 1 && s.mapInfo[0] == s1.mapInfo[0];
  }
}
