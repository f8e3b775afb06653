/**
 * The address manager's file: what is written, how it is read back, and what reading restores.
 * A stream is a sequence of typed items; the byte encoding of each item is not modelled.
 */
module AddrManFile {
  import opened Prelude
  import opened AddrMan

  /** The part of an entry that is written out. */
  datatype Saved = Saved(
    service: Service,
    nServices: set<nat>,
    nTime: int,
    source: NetAddr,
    nLastSuccess: int,
    nAttempts: int)

  function Save(info: Info): Saved {
    Saved(info.service, info.nServices, info.nTime, info.source, info.nLastSuccess, info.nAttempts)
  }

  /** An entry as it is after reading: the fields kept only in memory have their initial values. */
  function Load(e: Saved): Info {
    Info(e.service, e.nServices, e.nTime, e.source, 0, 0, e.nLastSuccess, e.nAttempts, 0, false, -1)
  }

  /**
   * The contents of a file. `news` and `trieds` are the entries of the two tables,
   * `buckets` lists for each new bucket which of the `news` are in it.
   */
  datatype File = File(
    nVersion: nat,
    nKey: uint256,
    nUBuckets: int,
    news: seq<Saved>,
    trieds: seq<Saved>,
    buckets: seq<seq<int>>)

  /* ---- Building the tables from a file ---- */

  /** The bucket lists of the file fit the tables of this version. */
  predicate Usable(nVersion: nat, nUBuckets: int) {
    nVersion == 1 && nUBuckets == NEW_BUCKET_COUNT
  }

  /** Read one entry of the new table; without usable lists it gets the slot of its own source, if free. */
  function LoadNew(h: Hashes, s: State, e: Saved, usable: bool): State {
    var s1 := Insert(s, Load(e));
    var pos := NewPos(h, s.nKey, e.service, e.source);
    if !usable && pos !in s.news then AddRef(s1, s.nIdCount, pos) else s1
  }

  function LoadNews(h: Hashes, s: State, es: seq<Saved>, usable: bool): State
    decreases |es|
  {
    if es == [] then s else LoadNew(h, LoadNews(h, s, es[..|es| - 1], usable), es[|es| - 1], usable)
  }

  /** Read one entry of the tried table; it is lost if its slot is taken. */
  function LoadTried(h: Hashes, s: State, e: Saved): State {
    var pos := TriedPos(h, s.nKey, e.service);
    if pos in s.tried then s else Settle(Insert(s, Load(e)), s.nIdCount, pos)
  }

  function LoadTrieds(h: Hashes, s: State, es: seq<Saved>): State
    decreases |es|
  {
    if es == [] then s else LoadTried(h, LoadTrieds(h, s, es[..|es| - 1]), es[|es| - 1])
  }

  /** Put the entry listed at `nIndex` into a bucket, if that makes sense. */
  function TakeIndex(h: Hashes, s: State, bucket: nat, nIndex: int, usable: bool): State {
    if 0 <= nIndex < s.nNew && nIndex as Id in s.mapInfo then
      var id := nIndex as Id;
      var pos := NewPosIn(h, s.nKey, s.mapInfo[id].service, bucket);
      if usable && pos !in s.news && s.mapInfo[id].nRefCount < NEW_BUCKETS_PER_ADDRESS then AddRef(s, id, pos) else s
    else s
  }

  function TakeBucket(h: Hashes, s: State, bucket: nat, list: seq<int>, usable: bool): State
    decreases |list|
  {
    if list == [] then s
    else TakeIndex(h, TakeBucket(h, s, bucket, list[..|list| - 1], usable), bucket, list[|list| - 1], usable)
  }

  function TakeBuckets(h: Hashes, s: State, lists: seq<seq<int>>, usable: bool): State
    decreases |lists|
  {
    if lists == [] then s
    else TakeBucket(h, TakeBuckets(h, s, lists[..|lists| - 1], usable), |lists| - 1, lists[|lists| - 1], usable)
  }

  /** A new entry that got no slot. */
  predicate Unreferenced(s: State, id: Id) {
    id in s.mapInfo && !s.mapInfo[id].fInTried && s.mapInfo[id].nRefCount == 0
  }

  /** Delete the entry if it has no slot; it can then always be deleted, see `PlacesDelete`. */
  function PruneOne(s: State, id: Id): State {
    if Unreferenced(s, id) && CanDelete(s, id) then Delete(s, id) else s
  }

  /** Delete the entries below `n` that got no slot. */
  function Prune(s: State, n: nat): State {
    if n == 0 then s else PruneOne(Prune(s, n - 1), (n - 1) as Id)
  }

  function Start(f: File): State {
    Init(f.nKey).(nNew := |f.news|)
  }

  /** The tables when the entries have been read. */
  function Tables(h: Hashes, nKey: uint256, news: seq<Saved>, trieds: seq<Saved>, usable: bool): State {
    LoadTrieds(h, LoadNews(h, Init(nKey).(nNew := |news|), news, usable), trieds)
  }

  function Entries(h: Hashes, f: File): State {
    Tables(h, f.nKey, f.news, f.trieds, Usable(f.nVersion, f.nUBuckets))
  }

  function Filled(h: Hashes, f: File): State {
    TakeBuckets(h, Entries(h, f), f.buckets, Usable(f.nVersion, f.nUBuckets))
  }

  /** The manager that results from reading a file. */
  function Build(h: Hashes, f: File): State {
    var s := Filled(h, f);
    Prune(s, Max(0, s.nIdCount as int))
  }

  /* ---- The permutation stays intact, whatever the file holds ---- */

  predicate EntryPlace(s: State, id: Id)
    requires id in s.mapInfo
  {
    && 0 <= id < s.nIdCount
    && 0 <= s.mapInfo[id].nRandomPos < |s.vRandom| && s.vRandom[s.mapInfo[id].nRandomPos] == id
  }

  predicate PlaceEntry(s: State, k: int)
    requires 0 <= k < |s.vRandom|
  {
    s.vRandom[k] in s.mapInfo && s.mapInfo[s.vRandom[k]].nRandomPos == k
  }

  /** The permutation and the entries point at each other. */
  predicate Places(s: State) {
    && s.nIdCount >= 0
    && (forall id {:trigger EntryPlace(s, id)} | id in s.mapInfo :: EntryPlace(s, id))
    && (forall k {:trigger PlaceEntry(s, k)} | 0 <= k < |s.vRandom| :: PlaceEntry(s, k))
  }

  lemma PlacesInsert(s: State, info: Info)
    requires Places(s)
    ensures Places(Insert(s, info)) && s.nIdCount !in s.mapInfo
  {
    var s' := Insert(s, info);
    assert s.nIdCount in s.mapInfo ==> EntryPlace(s, s.nIdCount);
    forall id | id in s'.mapInfo
      ensures EntryPlace(s', id)
    {
      if id != s.nIdCount {
        assert EntryPlace(s, id);
      }
    }
    forall k | 0 <= k < |s'.vRandom|
      ensures PlaceEntry(s', k)
    {
      if k < |s.vRandom| {
        assert PlaceEntry(s, k);
      }
    }
  }

  lemma PlacesFrame(s: State, s': State)
    requires Places(s) && s'.nIdCount == s.nIdCount && s'.vRandom == s.vRandom && s'.mapInfo.Keys == s.mapInfo.Keys
    requires forall id | id in s.mapInfo :: s'.mapInfo[id].nRandomPos == s.mapInfo[id].nRandomPos
    ensures Places(s')
  {
    forall id | id in s'.mapInfo
      ensures EntryPlace(s', id)
    {
      assert EntryPlace(s, id);
    }
    forall k | 0 <= k < |s'.vRandom|
      ensures PlaceEntry(s', k)
    {
      assert PlaceEntry(s, k);
    }
  }

  lemma PlacesSwap(s: State, i: nat, j: nat)
    requires Places(s) && i < |s.vRandom| && j < |s.vRandom|
    ensures SwapRandom.requires(s, i, j)
    ensures Places(SwapRandom(s, i, j))
  {
    assert PlaceEntry(s, i) && PlaceEntry(s, j);
    if i != j {
      var s' := SwapRandom(s, i, j);
      SwapRandomCores(s, i, j);
      forall id | id in s'.mapInfo
        ensures EntryPlace(s', id)
      {
        assert EntryPlace(s, id);
      }
      forall k | 0 <= k < |s'.vRandom|
        ensures PlaceEntry(s', k)
      {
        assert PlaceEntry(s, k);
      }
    }
  }

  lemma PlacesDropLast(s: State, id: Id)
    requires Places(s) && id in s.mapInfo && s.vRandom != [] && s.vRandom[|s.vRandom| - 1] == id
    ensures Places(DropLast(s, id))
  {
    var s' := DropLast(s, id);
    assert EntryPlace(s, id) && PlaceEntry(s, |s.vRandom| - 1);
    forall x | x in s'.mapInfo
      ensures EntryPlace(s', x)
    {
      assert EntryPlace(s, x);
    }
    forall k | 0 <= k < |s'.vRandom|
      ensures PlaceEntry(s', k)
    {
      assert PlaceEntry(s, k);
    }
  }

  /** An unreferenced entry can always be deleted. */
  lemma PlacesDelete(s: State, id: Id)
    requires Places(s) && Unreferenced(s, id)
    ensures CanDelete(s, id)
    ensures Places(Delete(s, id))
  {
    assert EntryPlace(s, id) && PlaceEntry(s, |s.vRandom| - 1);
    PlacesSwap(s, s.mapInfo[id].nRandomPos, |s.vRandom| - 1);
    PlacesDropLast(MoveLast(s, id), id);
  }

  lemma {:induction false} LoadNewsPlaces(h: Hashes, s: State, es: seq<Saved>, usable: bool)
    requires Places(s)
    ensures Places(LoadNews(h, s, es, usable))
    decreases |es|
  {
    if es != [] {
      var e := es[|es| - 1];
      LoadNewsPlaces(h, s, es[..|es| - 1], usable);
      var s0 := LoadNews(h, s, es[..|es| - 1], usable);
      PlacesInsert(s0, Load(e));
      PlacesFrame(Insert(s0, Load(e)), LoadNew(h, s0, e, usable));
    }
  }

  lemma {:induction false} LoadTriedsPlaces(h: Hashes, s: State, es: seq<Saved>)
    requires Places(s)
    ensures Places(LoadTrieds(h, s, es))
    decreases |es|
  {
    if es != [] {
      var e := es[|es| - 1];
      LoadTriedsPlaces(h, s, es[..|es| - 1]);
      var s0 := LoadTrieds(h, s, es[..|es| - 1]);
      if TriedPos(h, s0.nKey, e.service) !in s0.tried {
        PlacesInsert(s0, Load(e));
        PlacesFrame(Insert(s0, Load(e)), LoadTried(h, s0, e));
      }
    }
  }

  lemma {:induction false} TakeBucketPlaces(h: Hashes, s: State, bucket: nat, list: seq<int>, usable: bool)
    requires Places(s)
    ensures Places(TakeBucket(h, s, bucket, list, usable))
    decreases |list|
  {
    if list != [] {
      TakeBucketPlaces(h, s, bucket, list[..|list| - 1], usable);
      var s0 := TakeBucket(h, s, bucket, list[..|list| - 1], usable);
      PlacesFrame(s0, TakeIndex(h, s0, bucket, list[|list| - 1], usable));
    }
  }

  lemma {:induction false} TakeBucketsPlaces(h: Hashes, s: State, lists: seq<seq<int>>, usable: bool)
    requires Places(s)
    ensures Places(TakeBuckets(h, s, lists, usable))
    decreases |lists|
  {
    if lists != [] {
      var n := |lists| - 1;
      TakeBucketsPlaces(h, s, lists[..n], usable);
      TakeBucketPlaces(h, TakeBuckets(h, s, lists[..n], usable), n, lists[n], usable);
    }
  }

  /** Throughout the pruning every entry met can be deleted. */
  lemma {:induction false} PrunePlaces(s: State, n: nat)
    requires Places(s)
    ensures Places(Prune(s, n))
    ensures n > 0 ==> (Unreferenced(Prune(s, n - 1), (n - 1) as Id) ==> CanDelete(Prune(s, n - 1), (n - 1) as Id))
  {
    if n > 0 {
      PrunePlaces(s, n - 1);
      var s1 := Prune(s, n - 1);
      if Unreferenced(s1, (n - 1) as Id) {
        PlacesDelete(s1, (n - 1) as Id);
      }
    }
  }

  /* ---- A file with distinct addresses gives a consistent manager ---- */

  function Addresses(es: seq<Saved>): set<NetAddr> {
    set i | 0 <= i < |es| :: es[i].service.addr
  }

  /** No address twice, and tried entries have worked at some time. */
  ghost predicate Sound(f: File) {
    && (forall i, j | 0 <= i < j < |f.news| :: f.news[i].service.addr != f.news[j].service.addr)
    && (forall i, j | 0 <= i < j < |f.trieds| :: f.trieds[i].service.addr != f.trieds[j].service.addr)
    && Addresses(f.news) !! Addresses(f.trieds)
    && (forall e | e in f.news :: e.nLastSuccess >= 0)
    && (forall e | e in f.trieds :: e.nLastSuccess > 0)
  }

  /** Nothing is required of reference counts yet, except that they are right. */
  ghost predicate Partial(h: Hashes, s: State, uncounted: int, addresses: set<NetAddr>) {
    Inv(h, s, s.mapInfo.Keys, uncounted) && s.mapAddr.Keys <= addresses
  }

  lemma AddressesNext(es: seq<Saved>, n: nat)
    requires n < |es|
    ensures Addresses(es[..n + 1]) == Addresses(es[..n]) + {es[n].service.addr}
    ensures Addresses(es[..n]) <= Addresses(es)
  {
    forall a | a in Addresses(es[..n])
      ensures a in Addresses(es[..n + 1]) && a in Addresses(es)
    {
      var i :| 0 <= i < n && es[..n][i].service.addr == a;
      assert es[..n + 1][i].service.addr == a && es[i].service.addr == a;
    }
    assert es[..n + 1][n] == es[n];
  }

  lemma LoadNewPartial(h: Hashes, s: State, e: Saved, usable: bool, uncounted: int, addresses: set<NetAddr>)
    returns (r: State)
    requires Partial(h, s, uncounted, addresses) && e.service.addr !in addresses && e.nLastSuccess >= 0
    ensures r == LoadNew(h, s, e, usable) && Partial(h, r, uncounted + 1, addresses + {e.service.addr})
  {
    var s1 := Insert(s, Load(e));
    r := s1;
    InsertKeeps(h, s, s.mapInfo.Keys, uncounted, Load(e));
    Reloose(h, s1, s.mapInfo.Keys + {s.nIdCount}, s1.mapInfo.Keys, uncounted + 1);
    var pos := NewPos(h, s.nKey, e.service, e.source);
    if !usable && pos !in s.news {
      r := AddRef(s1, s.nIdCount, pos);
      AddRefKeeps(h, s1, s1.mapInfo.Keys, uncounted + 1, s.nIdCount, pos);
      assert r.mapInfo.Keys == s1.mapInfo.Keys;
    }
  }

  lemma {:induction false} LoadNewsPartial(h: Hashes, f: File, n: nat) returns (r: State)
    requires Sound(f) && n <= |f.news|
    ensures r == LoadNews(h, Start(f), f.news[..n], Usable(f.nVersion, f.nUBuckets))
    ensures Partial(h, r, n - |f.news|, Addresses(f.news[..n]))
  {
    var usable := Usable(f.nVersion, f.nUBuckets);
    if n == 0 {
      StartInv(h, f);
      r := Start(f);
    } else {
      r := LoadNewsPartial(h, f, n - 1);
      assert f.news[..n][..n - 1] == f.news[..n - 1];
      AddressesNext(f.news, n - 1);
      assert f.news[n - 1] in f.news;
      r := LoadNewPartial(h, r, f.news[n - 1], usable, n - 1 - |f.news|, Addresses(f.news[..n - 1]));
    }
  }

  lemma StartInv(h: Hashes, f: File)
    ensures Partial(h, Start(f), -|f.news|, {})
  {
    InitInv(h, f.nKey);
  }

  lemma LoadTriedPartial(h: Hashes, s: State, e: Saved, addresses: set<NetAddr>) returns (r: State)
    requires Partial(h, s, 0, addresses) && e.service.addr !in addresses && e.nLastSuccess > 0
    ensures r == LoadTried(h, s, e) && Partial(h, r, 0, addresses + {e.service.addr})
  {
    r := s;
    var s1 := Insert(s, Load(e));
    var pos := TriedPos(h, s.nKey, e.service);
    if pos !in s.tried {
      InsertKeeps(h, s, s.mapInfo.Keys, 0, Load(e));
      SettleKeeps(h, s1, s.mapInfo.Keys + {s.nIdCount}, 1, s.nIdCount, pos);
      var s2 := Settle(s1, s.nIdCount, pos);
      Reloose(h, s2, s.mapInfo.Keys + {s.nIdCount} - {s.nIdCount}, s2.mapInfo.Keys, 0);
      r := s2;
    }
  }

  /** The addresses met when `n` tried entries have been read. */
  ghost function Met(f: File, n: nat): set<NetAddr>
    requires n <= |f.trieds|
  {
    Addresses(f.news) + Addresses(f.trieds[..n])
  }

  lemma MetNext(f: File, n: nat)
    requires Sound(f) && n < |f.trieds|
    ensures f.trieds[n].service.addr !in Met(f, n) && f.trieds[n].nLastSuccess > 0
    ensures Met(f, n + 1) == Met(f, n) + {f.trieds[n].service.addr}
  {
    AddressesNext(f.trieds, n);
    assert f.trieds[n] in f.trieds && f.trieds[n].service.addr in Addresses(f.trieds);
  }

  lemma {:induction false} LoadTriedsPartial(h: Hashes, s: State, f: File, n: nat) returns (r: State)
    requires Sound(f) && Partial(h, s, 0, Met(f, 0)) && n <= |f.trieds|
    ensures r == LoadTrieds(h, s, f.trieds[..n]) && Partial(h, r, 0, Met(f, n))
  {
    r := s;
    if n > 0 {
      r := LoadTriedsPartial(h, s, f, n - 1);
      assert f.trieds[..n][..n - 1] == f.trieds[..n - 1];
      MetNext(f, n - 1);
      r := LoadTriedPartial(h, r, f.trieds[n - 1], Met(f, n - 1));
    }
  }

  lemma EntriesPartial(h: Hashes, f: File)
    requires Sound(f)
    ensures Partial(h, Entries(h, f), 0, Met(f, |f.trieds|))
  {
    var r0 := LoadNewsPartial(h, f, |f.news|);
    assert f.news[..|f.news|] == f.news;
    assert Met(f, 0) == Addresses(f.news);
    var r := LoadTriedsPartial(h, LoadNews(h, Start(f), f.news, Usable(f.nVersion, f.nUBuckets)), f, |f.trieds|);
    assert f.trieds[..|f.trieds|] == f.trieds;
  }

  /** Entries below `n` are new. */
  ghost predicate NewBelow(s: State, n: int) {
    s.nNew == n && forall id | id in s.mapInfo && id as int < n :: !s.mapInfo[id].fInTried
  }

  lemma {:induction false} LoadNewsNew(h: Hashes, s: State, es: seq<Saved>, usable: bool)
    requires s.nIdCount >= 0 && forall id | id in s.mapInfo :: !s.mapInfo[id].fInTried
    ensures var r := LoadNews(h, s, es, usable);
            && (forall id | id in r.mapInfo :: !r.mapInfo[id].fInTried)
            && r.nIdCount as int == s.nIdCount as int + |es| && r.nNew == s.nNew && r.nKey == s.nKey
            && r.nLastGood == s.nLastGood
    decreases |es|
  {
    if es != [] {
      LoadNewsNew(h, s, es[..|es| - 1], usable);
    }
  }

  lemma {:induction false} LoadTriedsNew(h: Hashes, s: State, es: seq<Saved>)
    requires s.nIdCount >= 0 && s.nIdCount as int >= s.nNew && NewBelow(s, s.nNew)
    ensures var r := LoadTrieds(h, s, es);
            && NewBelow(r, s.nNew) && r.nIdCount >= s.nIdCount && r.nKey == s.nKey && r.nLastGood == s.nLastGood
    decreases |es|
  {
    if es != [] {
      LoadTriedsNew(h, s, es[..|es| - 1]);
    }
  }

  predicate Has(m: map<Id, Info>, n: nat) {
    n as Id in m
  }

  /** The numbers below `n` are taken by entries. */
  ghost predicate Numbered(m: map<Id, Info>, n: int) {
    forall i: nat {:trigger Has(m, i)} | i < n :: Has(m, i)
  }

  lemma {:induction false} LoadNewsNumbered(h: Hashes, s: State, es: seq<Saved>, usable: bool)
    requires s.nIdCount == 0
    ensures Numbered(LoadNews(h, s, es, usable).mapInfo, |es|)
    decreases |es|
  {
    if es != [] {
      var n := |es| - 1;
      LoadNewsNumbered(h, s, es[..n], usable);
      LoadNewsCount(h, s, es[..n], usable);
      var s0, r := LoadNews(h, s, es[..n], usable), LoadNews(h, s, es, usable);
      forall i: nat | i < |es|
        ensures Has(r.mapInfo, i)
      {
        assert i < n ==> Has(s0.mapInfo, i);
      }
    }
  }

  lemma {:induction false} LoadTriedsNumbered(h: Hashes, s: State, es: seq<Saved>, k: nat)
    requires Numbered(s.mapInfo, k)
    ensures Numbered(LoadTrieds(h, s, es).mapInfo, k) && LoadTrieds(h, s, es).nNew == s.nNew
    decreases |es|
  {
    if es != [] {
      var n := |es| - 1;
      LoadTriedsNumbered(h, s, es[..n], k);
      var s0, r := LoadTrieds(h, s, es[..n]), LoadTrieds(h, s, es);
      forall i: nat | i < k
        ensures Has(r.mapInfo, i)
      {
        assert Has(s0.mapInfo, i);
      }
    }
  }

  /** When the entries have been read, every index of the bucket lists names one. */
  lemma TablesReady(h: Hashes, nKey: uint256, news: seq<Saved>, trieds: seq<Saved>, usable: bool)
    ensures var r := Tables(h, nKey, news, trieds, usable); Places(r) && Numbered(r.mapInfo, r.nNew) && r.nNew == |news|
  {
    var s := Init(nKey).(nNew := |news|);
    LoadNewsPlaces(h, s, news, usable);
    LoadNewsNumbered(h, s, news, usable);
    LoadNewsNew(h, s, news, usable);
    LoadTriedsPlaces(h, LoadNews(h, s, news, usable), trieds);
    LoadTriedsNumbered(h, LoadNews(h, s, news, usable), trieds, |news|);
  }

  lemma LoadTriedsNext(h: Hashes, s: State, es: seq<Saved>, e: Saved)
    ensures LoadTrieds(h, s, es + [e]) == LoadTried(h, LoadTrieds(h, s, es), e)
  {
    assert (es + [e])[..|es|] == es;
  }

  lemma TakeBucketsNext(h: Hashes, s: State, lists: seq<seq<int>>, list: seq<int>, usable: bool)
    ensures TakeBuckets(h, s, lists + [list], usable) == TakeBucket(h, TakeBuckets(h, s, lists, usable), |lists|, list, usable)
  {
    assert (lists + [list])[..|lists|] == lists;
  }

  lemma TakeIndexNumbered(h: Hashes, s: State, bucket: nat, nIndex: int, usable: bool)
    requires Numbered(s.mapInfo, s.nNew)
    ensures var r := TakeIndex(h, s, bucket, nIndex, usable); Numbered(r.mapInfo, r.nNew)
  {
    var r := TakeIndex(h, s, bucket, nIndex, usable);
    forall i: nat | i < r.nNew
      ensures Has(r.mapInfo, i)
    {
      assert Has(s.mapInfo, i);
    }
  }

  lemma {:induction false} LoadNewsCount(h: Hashes, s: State, es: seq<Saved>, usable: bool)
    requires s.nIdCount >= 0
    ensures LoadNews(h, s, es, usable).nIdCount as int == s.nIdCount as int + |es|
    decreases |es|
  {
    if es != [] {
      LoadNewsCount(h, s, es[..|es| - 1], usable);
    }
  }

  /** What becomes of an entry does not depend on the counter of tried entries. */
  lemma LoadNewCounted(h: Hashes, s: State, e: Saved, usable: bool, nTried: int)
    ensures LoadNew(h, s.(nTried := nTried), e, usable) == LoadNew(h, s, e, usable).(nTried := nTried)
  {
    assert Insert(s.(nTried := nTried), Load(e)) == Insert(s, Load(e)).(nTried := nTried);
  }

  lemma {:induction false} LoadNewsCounted(h: Hashes, s: State, es: seq<Saved>, usable: bool, nTried: int)
    ensures LoadNews(h, s.(nTried := nTried), es, usable) == LoadNews(h, s, es, usable).(nTried := nTried)
    decreases |es|
  {
    if es != [] {
      var n := |es| - 1;
      LoadNewsCounted(h, s, es[..n], usable, nTried);
      LoadNewCounted(h, LoadNews(h, s, es[..n], usable), es[n], usable, nTried);
    }
  }

  lemma LoadTriedCounted(h: Hashes, s: State, e: Saved, nTried: int)
    ensures LoadTried(h, s.(nTried := nTried), e).(nTried := nTried) == LoadTried(h, s, e).(nTried := nTried)
    ensures LoadTried(h, s.(nTried := nTried), e).nTried - nTried == LoadTried(h, s, e).nTried - s.nTried
  {
    if TriedPos(h, s.nKey, e.service) !in s.tried {
      assert Insert(s.(nTried := nTried), Load(e)) == Insert(s, Load(e)).(nTried := nTried);
    }
  }

  lemma EntriesNew(h: Hashes, f: File)
    ensures var r := Entries(h, f); NewBelow(r, |f.news|) && r.nKey == f.nKey
  {
    var usable := Usable(f.nVersion, f.nUBuckets);
    LoadNewsNew(h, Start(f), f.news, usable);
    LoadTriedsNew(h, LoadNews(h, Start(f), f.news, usable), f.trieds);
  }

  /** The file was read to its end: one list for each bucket it announces. */
  predicate Complete(f: File) {
    |f.buckets| == Max(0, f.nUBuckets)
  }

  /* ---- What is written ---- */

  /** The entries written for the new table (`tried` false) and for the tried table. */
  predicate Chosen(info: Info, tried: bool) {
    if tried then info.fInTried else info.nRefCount != 0
  }

  /** The ids below `n` of the entries written, in the order of the id map. */
  function Select(m: map<Id, Info>, tried: bool, n: nat): seq<Id> {
    if n == 0 then []
    else
      var id := (n - 1) as Id;
      Select(m, tried, n - 1) + (if id in m && Chosen(m[id], tried) then [id] else [])
  }

  function SaveAll(m: map<Id, Info>, ids: seq<Id>): seq<Saved>
    requires forall id | id in ids :: id in m
  {
    seq(|ids|, i requires 0 <= i < |ids| => Save(m[ids[i]]))
  }

  /** The entries of one table with ids below `n`, as written. */
  function Saves(m: map<Id, Info>, tried: bool, n: nat): seq<Saved> {
    SelectSound(m, tried, n);
    SaveAll(m, Select(m, tried, n))
  }

  /** The index under which a new entry is written. */
  function Rank(m: map<Id, Info>, id: Id): nat
    requires id >= 0
  {
    |Select(m, false, id as int)|
  }

  function Row(s: State, bucket: nat): seq<Option<Id>> {
    seq(BUCKET_SIZE, i requires 0 <= i < BUCKET_SIZE => Get(s.news, Pos(bucket, i)))
  }

  /** The indexes written for a stretch of slots. */
  function Indexes(m: map<Id, Info>, row: seq<Option<Id>>): seq<int>
    requires forall slot | slot in row && slot.Some? :: slot.value >= 0
    decreases |row|
  {
    if row == [] then []
    else
      var last := row[|row| - 1];
      Indexes(m, row[..|row| - 1]) + (if last.Some? then [Rank(m, last.value)] else [])
  }

  ghost predicate Writable(s: State) {
    s.nIdCount >= 0 && forall pos | pos in s.news :: s.news[pos] >= 0
  }

  lemma {:induction false} SelectSound(m: map<Id, Info>, tried: bool, n: nat)
    ensures forall i | 0 <= i < |Select(m, tried, n)| ::
              var id := Select(m, tried, n)[i]; 0 <= id as int < n && id in m && Chosen(m[id], tried)
    ensures forall i, j | 0 <= i < j < |Select(m, tried, n)| :: Select(m, tried, n)[i] < Select(m, tried, n)[j]
  {
    if n > 0 {
      SelectSound(m, tried, n - 1);
    }
  }

  /** Every entry is written where its rank says. */
  lemma {:induction false} SelectAt(m: map<Id, Info>, tried: bool, id: Id, n: nat)
    requires 0 <= id as int < n && id in m && Chosen(m[id], tried)
    ensures |Select(m, tried, id as int)| < |Select(m, tried, n)|
    ensures Select(m, tried, n)[|Select(m, tried, id as int)|] == id
  {
    if id as int < n - 1 {
      SelectAt(m, tried, id, n - 1);
    }
  }

  function ChosenBelow(m: map<Id, Info>, tried: bool, n: nat): set<Id> {
    set id | id in m && 0 <= id as int < n && Chosen(m[id], tried)
  }

  lemma {:induction false} SelectSize(m: map<Id, Info>, tried: bool, n: nat)
    ensures |Select(m, tried, n)| == |ChosenBelow(m, tried, n)|
  {
    if n > 0 {
      SelectSize(m, tried, n - 1);
      var id := (n - 1) as Id;
      if id in m && Chosen(m[id], tried) {
        assert ChosenBelow(m, tried, n) == ChosenBelow(m, tried, n - 1) + {id};
      } else {
        assert ChosenBelow(m, tried, n) == ChosenBelow(m, tried, n - 1);
      }
    }
  }

  /** In a consistent manager the entries with references are the new ones, so the counters are right. */
  lemma CountersMatch(h: Hashes, s: State)
    requires Inv(h, s, {}, 0)
    ensures |Select(s.mapInfo, false, s.nIdCount as int)| == s.nNew
    ensures |Select(s.mapInfo, true, s.nIdCount as int)| == s.nTried
    ensures forall id | id in s.mapInfo :: 0 <= id < s.nIdCount && Chosen(s.mapInfo[id], false) != Chosen(s.mapInfo[id], true)
  {
    var m, n := s.mapInfo, s.nIdCount as int;
    forall id | id in m
      ensures 0 <= id < s.nIdCount && Chosen(m[id], false) != Chosen(m[id], true)
    {
      assert EntryLinked(s, id) && EntryCounted(s, {}, id);
      if m[id].fInTried {
        TriedHasNoRefs(h, s, id);
      }
    }
    SelectSize(m, false, n);
    SelectSize(m, true, n);
    assert ChosenBelow(m, false, n) == NewIds(m);
    assert ChosenBelow(m, true, n) == TriedIds(m);
  }
}
