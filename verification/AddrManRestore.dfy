/**
 * Reading back what a consistent manager has written restores the same manager up to the numbering
 * of its entries: nothing is lost to collisions and nothing is pruned.
 */
module AddrManRestore {
  import opened Prelude
  import opened AddrMan
  import opened AddrManFile
  import opened AddrManRead

  /** The entries in the order in which they are written; reading numbers them in this order. */
  function Order(s: State): seq<Id>
    requires s.nIdCount >= 0
  {
    Select(s.mapInfo, false, s.nIdCount as int) + Select(s.mapInfo, true, s.nIdCount as int)
  }

  /** What a written and reread entry looks like before it gets its references. */
  function Reread(info: Info, place: int): Info {
    Load(Save(info)).(fInTried := info.fInTried, nRandomPos := place)
  }

  /* ---- The entries ---- */

  ghost predicate NewLoaded(r: State, es: seq<Saved>, i: nat)
    requires i < |es|
  {
    && i as Id in r.mapInfo && r.mapInfo[i as Id] == Load(es[i]).(nRandomPos := i)
    && i < |r.vRandom| && r.vRandom[i] == i as Id
  }

  ghost predicate NewsLoaded(r: State, es: seq<Saved>, n: nat)
    requires n <= |es|
  {
    && r.nIdCount as int == n && |r.vRandom| == n && r.news == map[] && r.tried == map[] && r.nTried == 0
    && (forall id | id in r.mapInfo :: 0 <= id as int < n)
    && (forall i: nat {:trigger NewLoaded(r, es, i)} | i < n :: NewLoaded(r, es, i))
  }

  lemma LoadNewsExact(h: Hashes, f: File)
    ensures NewsLoaded(LoadNews(h, Start(f), f.news, true), f.news, |f.news|)
  {
    var es := f.news;
    var r := Start(f);
    for n := 0 to |es|
      invariant r == LoadNews(h, Start(f), es[..n], true)
      invariant NewsLoaded(r, es, n)
    {
      assert es[..n + 1][..n] == es[..n];
      r := LoadNewExact(h, r, es, n);
    }
    assert es[..|es|] == es;
  }

  lemma LoadNewExact(h: Hashes, s: State, es: seq<Saved>, n: nat) returns (r: State)
    requires n < |es| && NewsLoaded(s, es, n)
    ensures r == LoadNew(h, s, es[n], true) && NewsLoaded(r, es, n + 1)
  {
    r := LoadNew(h, s, es[n], true);
    forall i: nat | i < n + 1
      ensures NewLoaded(r, es, i)
    {
      if i < n {
        assert NewLoaded(s, es, i);
      }
    }
  }

  ghost predicate TriedLoaded(h: Hashes, r: State, k: nat, es: seq<Saved>, i: nat)
    requires i < |es|
  {
    && (k + i) as Id in r.mapInfo && r.mapInfo[(k + i) as Id] == Load(es[i]).(fInTried := true, nRandomPos := k + i)
    && k + i < |r.vRandom| && r.vRandom[k + i] == (k + i) as Id
    && Get(r.tried, TriedPos(h, r.nKey, es[i].service)) == Some((k + i) as Id)
  }

  ghost predicate TriedSlotLoaded(h: Hashes, r: State, k: nat, es: seq<Saved>, n: nat, pos: Pos)
    requires pos in r.tried && n <= |es|
  {
    var i := r.tried[pos] as int - k;
    0 <= i < n && pos == TriedPos(h, r.nKey, es[i].service)
  }

  ghost predicate TriedsLoaded(h: Hashes, r: State, news: seq<Saved>, es: seq<Saved>, n: nat)
    requires n <= |es|
  {
    var k := |news|;
    && r.nIdCount as int == k + n && |r.vRandom| == k + n && r.news == map[] && r.nTried == n
    && (forall id | id in r.mapInfo :: 0 <= id as int < k + n)
    && (forall i: nat {:trigger NewLoaded(r, news, i)} | i < k :: NewLoaded(r, news, i))
    && (forall i: nat {:trigger TriedLoaded(h, r, k, es, i)} | i < n :: TriedLoaded(h, r, k, es, i))
    && (forall pos {:trigger TriedSlotLoaded(h, r, k, es, n, pos)} | pos in r.tried :: TriedSlotLoaded(h, r, k, es, n, pos))
  }

  /** No two entries want the same slot of the tried table. */
  ghost predicate NoCollision(h: Hashes, nKey: uint256, es: seq<Saved>) {
    forall i, j | 0 <= i < j < |es| :: TriedPos(h, nKey, es[i].service) != TriedPos(h, nKey, es[j].service)
  }

  lemma LoadTriedsExact(h: Hashes, s: State, news: seq<Saved>, es: seq<Saved>)
    requires NewsLoaded(s, news, |news|) && NoCollision(h, s.nKey, es)
    ensures TriedsLoaded(h, LoadTrieds(h, s, es), news, es, |es|)
  {
    var r := s;
    for n := 0 to |es|
      invariant r == LoadTrieds(h, s, es[..n]) && r.nKey == s.nKey
      invariant TriedsLoaded(h, r, news, es, n)
    {
      assert es[..n + 1][..n] == es[..n];
      r := LoadTriedExact(h, r, news, es, n);
    }
    assert es[..|es|] == es;
  }

  lemma LoadTriedExact(h: Hashes, s: State, news: seq<Saved>, es: seq<Saved>, n: nat) returns (r: State)
    requires n < |es| && TriedsLoaded(h, s, news, es, n) && NoCollision(h, s.nKey, es)
    ensures r == LoadTried(h, s, es[n]) && r.nKey == s.nKey && TriedsLoaded(h, r, news, es, n + 1)
  {
    var k := |news|;
    var own := TriedPos(h, s.nKey, es[n].service);
    assert own in s.tried ==> TriedSlotLoaded(h, s, k, es, n, own);
    r := Settle(Insert(s, Load(es[n])), s.nIdCount, own);
    LoadTriedEntries(h, s, r, news, es, n);
    forall pos | pos in r.tried
      ensures TriedSlotLoaded(h, r, k, es, n + 1, pos)
    {
      if pos != own {
        assert TriedSlotLoaded(h, s, k, es, n, pos);
      }
    }
  }

  lemma LoadTriedEntries(h: Hashes, s: State, r: State, news: seq<Saved>, es: seq<Saved>, n: nat)
    requires n < |es| && TriedsLoaded(h, s, news, es, n)
    requires TriedPos(h, s.nKey, es[n].service) !in s.tried
    requires r == Settle(Insert(s, Load(es[n])), s.nIdCount, TriedPos(h, s.nKey, es[n].service))
    ensures forall i: nat | i < |news| :: NewLoaded(r, news, i)
    ensures forall i: nat | i < n + 1 :: TriedLoaded(h, r, |news|, es, i)
  {
    forall i: nat | i < |news|
      ensures NewLoaded(r, news, i)
    {
      assert NewLoaded(s, news, i);
    }
    forall i: nat | i < n + 1
      ensures TriedLoaded(h, r, |news|, es, i)
    {
      if i < n {
        assert TriedLoaded(h, s, |news|, es, i);
      }
    }
  }

  /* ---- The written file ---- */

  function FileOf(s: State): File
    requires Writable(s)
  {
    var m, n := s.mapInfo, s.nIdCount as int;
    File(1, s.nKey, NEW_BUCKET_COUNT, Saves(m, false, n), Saves(m, true, n),
         seq(NEW_BUCKET_COUNT, b requires 0 <= b < NEW_BUCKET_COUNT => Indexes(m, Row(s, b))))
  }

  lemma ConsistentIsWritable(h: Hashes, s: State)
    requires Inv(h, s, {}, 0)
    ensures Writable(s)
  {
    forall pos | pos in s.news
      ensures s.news[pos] >= 0
    {
      assert NewSlotOk(h, s, pos);
      assert EntryLinked(s, s.news[pos]);
    }
  }

  /** The order lists every entry exactly once. */
  ghost predicate ListsOnce(s: State)
    requires s.nIdCount >= 0
  {
    && (forall i, j | 0 <= i < j < |Order(s)| :: Order(s)[i] != Order(s)[j])
    && (forall id | id in s.mapInfo :: id in Order(s))
    && (forall id | id in Order(s) :: id in s.mapInfo)
  }

  lemma OrderCovers(h: Hashes, s: State)
    requires Inv(h, s, {}, 0)
    ensures forall id | id in s.mapInfo :: id in Order(s)
  {
    CountersMatch(h, s);
    forall id | id in s.mapInfo
      ensures id in Order(s)
    {
      SelectAt(s.mapInfo, s.mapInfo[id].fInTried, id, s.nIdCount as int);
    }
  }

  /** New entries come first in the order. */
  lemma OrderLists(h: Hashes, s: State)
    requires Inv(h, s, {}, 0)
    ensures |Order(s)| == s.nNew + s.nTried && s.nNew >= 0 && s.nTried >= 0
    ensures forall i | 0 <= i < |Order(s)| :: Order(s)[i] in s.mapInfo && s.mapInfo[Order(s)[i]].fInTried == (i >= s.nNew)
    ensures ListsOnce(s)
  {
    CountersMatch(h, s);
    SelectSound(s.mapInfo, false, s.nIdCount as int);
    SelectSound(s.mapInfo, true, s.nIdCount as int);
    OrderCovers(h, s);
  }

  /** Distinct entries have distinct addresses. */
  lemma DistinctAddresses(s: State, a: Id, b: Id)
    requires Linked(s) && a in s.mapInfo && b in s.mapInfo && s.mapInfo[a].service.addr == s.mapInfo[b].service.addr
    ensures a == b
  {
    assert EntryLinked(s, a) && EntryLinked(s, b);
  }

  lemma WrittenAddresses(h: Hashes, s: State)
    requires Inv(h, s, {}, 0) && Writable(s)
    ensures var f := FileOf(s);
            && (forall i, j | 0 <= i < j < |f.news| :: f.news[i].service.addr != f.news[j].service.addr)
            && (forall i, j | 0 <= i < j < |f.trieds| :: f.trieds[i].service.addr != f.trieds[j].service.addr)
  {
    var f := FileOf(s);
    var m, n := s.mapInfo, s.nIdCount as int;
    SelectSound(m, false, n);
    SelectSound(m, true, n);
    forall i, j | 0 <= i < j < |f.news|
      ensures f.news[i].service.addr != f.news[j].service.addr
    {
      var a, b := Select(m, false, n)[i], Select(m, false, n)[j];
      if m[a].service.addr == m[b].service.addr {
        DistinctAddresses(s, a, b);
      }
    }
    forall i, j | 0 <= i < j < |f.trieds|
      ensures f.trieds[i].service.addr != f.trieds[j].service.addr
    {
      var a, b := Select(m, true, n)[i], Select(m, true, n)[j];
      if m[a].service.addr == m[b].service.addr {
        DistinctAddresses(s, a, b);
      }
    }
  }

  lemma WrittenApart(h: Hashes, s: State)
    requires Inv(h, s, {}, 0) && Writable(s)
    ensures Addresses(FileOf(s).news) !! Addresses(FileOf(s).trieds)
  {
    var f := FileOf(s);
    var m, n := s.mapInfo, s.nIdCount as int;
    CountersMatch(h, s);
    SelectSound(m, false, n);
    SelectSound(m, true, n);
    forall a | a in Addresses(f.news)
      ensures a !in Addresses(f.trieds)
    {
      var i :| 0 <= i < |f.news| && f.news[i].service.addr == a;
      forall j | 0 <= j < |f.trieds|
        ensures f.trieds[j].service.addr != a
      {
        var x, y := Select(m, false, n)[i], Select(m, true, n)[j];
        if m[x].service.addr == m[y].service.addr {
          DistinctAddresses(s, x, y);
        }
      }
    }
  }

  /** What a consistent manager writes can be read back. */
  lemma WrittenIsSound(h: Hashes, s: State)
    requires Inv(h, s, {}, 0) && Writable(s)
    ensures Sound(FileOf(s)) && Complete(FileOf(s))
    ensures |FileOf(s).news| == s.nNew && |FileOf(s).trieds| == s.nTried
    ensures NoCollision(h, s.nKey, FileOf(s).trieds)
  {
    var f := FileOf(s);
    var m, n := s.mapInfo, s.nIdCount as int;
    CountersMatch(h, s);
    SelectSound(m, false, n);
    SelectSound(m, true, n);
    WrittenAddresses(h, s);
    WrittenApart(h, s);
    forall e | e in f.news
      ensures e.nLastSuccess >= 0
    {
      var i :| 0 <= i < |f.news| && f.news[i] == e;
      assert EntryCounted(s, {}, Select(m, false, n)[i]);
    }
    forall e | e in f.trieds
      ensures e.nLastSuccess > 0
    {
      var i :| 0 <= i < |f.trieds| && f.trieds[i] == e;
      assert EntryCounted(s, {}, Select(m, true, n)[i]);
    }
    forall i, j | 0 <= i < j < |f.trieds|
      ensures TriedPos(h, s.nKey, f.trieds[i].service) != TriedPos(h, s.nKey, f.trieds[j].service)
    {
      assert HasTriedSlot(h, s, Select(m, true, n)[i]) && HasTriedSlot(h, s, Select(m, true, n)[j]);
    }
  }

  /* ---- The entries as read ---- */

  ghost predicate EntryRestored(s: State, r: State, i: nat)
    requires s.nIdCount >= 0 && i < |Order(s)| && Order(s)[i] in s.mapInfo
  {
    && i as Id in r.mapInfo && r.mapInfo[i as Id].(nRefCount := 0) == Reread(s.mapInfo[Order(s)[i]], i)
    && i < |r.vRandom| && r.vRandom[i] == i as Id
  }

  ghost predicate Listed(s: State) {
    s.nIdCount >= 0 && forall i | 0 <= i < |Order(s)| :: Order(s)[i] in s.mapInfo
  }

  /** A table slot names the same entry as before, under its new number. */
  ghost predicate SlotRestored(s: State, before: Table, after: Table, pos: Pos)
    requires Listed(s)
  {
    && pos in before && pos in after
    && 0 <= after[pos] as int < |Order(s)| && Order(s)[after[pos]] == before[pos]
  }

  /** All entries are back; `r.news` is still to be compared. */
  ghost predicate EntriesRestored(s: State, r: State)
    requires Listed(s)
  {
    && r.nKey == s.nKey && r.nNew == s.nNew && r.nTried == s.nTried && r.nLastGood == 1
    && r.nIdCount as int == |Order(s)| == |r.vRandom|
    && (forall id | id in r.mapInfo :: 0 <= id as int < |Order(s)|)
    && (forall i: nat {:trigger EntryRestored(s, r, i)} | i < |Order(s)| :: EntryRestored(s, r, i))
    && (forall pos {:trigger SlotRestored(s, s.tried, r.tried, pos)} | pos in s.tried || pos in r.tried ::
          SlotRestored(s, s.tried, r.tried, pos))
  }

  lemma EntriesExact(h: Hashes, s: State)
    requires Inv(h, s, {}, 0) && Writable(s) && Listed(s)
    ensures EntriesRestored(s, Entries(h, FileOf(s))) && Entries(h, FileOf(s)).news == map[]
  {
    var f := FileOf(s);
    var r0 := LoadNews(h, Start(f), f.news, true);
    var r := Entries(h, f);
    WrittenIsSound(h, s);
    LoadNewsExact(h, f);
    LoadNewsNew(h, Start(f), f.news, true);
    LoadTriedsExact(h, r0, f.news, f.trieds);
    LoadTriedsNew(h, r0, f.trieds);
    OrderLists(h, s);
    forall i: nat | i < |Order(s)|
      ensures EntryRestored(s, r, i)
    {
      EntryBack(h, s, r, i);
    }
    forall pos | pos in s.tried || pos in r.tried
      ensures SlotRestored(s, s.tried, r.tried, pos)
    {
      TriedSlotBack(h, s, r, pos);
    }
  }

  lemma EntryBack(h: Hashes, s: State, r: State, i: nat)
    requires Inv(h, s, {}, 0) && Writable(s) && Listed(s) && i < |Order(s)|
    requires TriedsLoaded(h, r, FileOf(s).news, FileOf(s).trieds, |FileOf(s).trieds|)
    ensures EntryRestored(s, r, i)
  {
    OrderLists(h, s);
    CountersMatch(h, s);
    OrderSaves(s, i);
    EntryReread(h, r, FileOf(s).news, FileOf(s).trieds, i, s.mapInfo[Order(s)[i]]);
  }

  lemma EntryReread(h: Hashes, r: State, news: seq<Saved>, trieds: seq<Saved>, i: nat, info: Info)
    requires TriedsLoaded(h, r, news, trieds, |trieds|) && i < |news| + |trieds|
    requires info.fInTried == (i >= |news|)
    requires Save(info) == if i < |news| then news[i] else trieds[i - |news|]
    ensures i as Id in r.mapInfo && r.mapInfo[i as Id] == Reread(info, i)
    ensures i < |r.vRandom| && r.vRandom[i] == i as Id
  {
    if i < |news| {
      assert NewLoaded(r, news, i);
    } else {
      assert TriedLoaded(h, r, |news|, trieds, i - |news|);
    }
  }

  /** The entries are written in the order. */
  lemma OrderSaves(s: State, i: nat)
    requires Writable(s) && Listed(s) && i < |Order(s)|
    ensures var f := FileOf(s);
            && |Order(s)| == |f.news| + |f.trieds|
            && (if i < |f.news| then f.news[i] else f.trieds[i - |f.news|]) == Save(s.mapInfo[Order(s)[i]])
  {
  }

  lemma TriedSlotBack(h: Hashes, s: State, r: State, pos: Pos)
    requires Inv(h, s, {}, 0) && Writable(s) && Listed(s) && r.nKey == s.nKey
    requires TriedsLoaded(h, r, FileOf(s).news, FileOf(s).trieds, |FileOf(s).trieds|)
    requires pos in s.tried || pos in r.tried
    ensures SlotRestored(s, s.tried, r.tried, pos)
  {
    var f := FileOf(s);
    var m, n := s.mapInfo, s.nIdCount as int;
    CountersMatch(h, s);
    if pos in r.tried {
      assert TriedSlotLoaded(h, r, |f.news|, f.trieds, |f.trieds|, pos);
      SelectSound(m, true, n);
      assert HasTriedSlot(h, s, Select(m, true, n)[r.tried[pos] as int - |f.news|]);
    }
    assert TriedSlotOk(h, s, pos);
    var id := s.tried[pos];
    SelectAt(m, true, id, n);
    assert TriedLoaded(h, r, |f.news|, f.trieds, |Select(m, true, id as int)|);
  }

  /* ---- The new table ---- */

  /** Slots are written bucket by bucket, and in a bucket from the first slot on. */
  predicate Before(pos: Pos, bucket: nat, index: nat) {
    pos.bucket < bucket || (pos.bucket == bucket && pos.index < index)
  }

  /** The slots before a point have been restored, and no others are taken. */
  ghost predicate SlotsRestored(s: State, r: State, bucket: nat, index: nat)
    requires Listed(s)
  {
    forall pos {:trigger SlotRestored(s, s.news, r.news, pos)} | (pos in s.news && Before(pos, bucket, index)) || pos in r.news ::
      SlotRestored(s, s.news, r.news, pos) && Before(pos, bucket, index)
  }

  ghost predicate Reached(h: Hashes, s: State, r: State, bucket: nat, index: nat) {
    && Listed(s) && EntriesRestored(s, r) && Inv(h, r, r.mapInfo.Keys, 0) && SlotsRestored(s, r, bucket, index)
  }

  /** The references restored so far are some of the entry's references. */
  lemma RefsSoFar(h: Hashes, s: State, r: State, bucket: nat, index: nat, i: nat)
    requires Inv(h, s, {}, 0) && Reached(h, s, r, bucket, index) && i < |Order(s)|
    ensures Refs(r.news, i as Id) <= Refs(s.news, Order(s)[i])
    ensures i as Id in r.mapInfo && |Refs(r.news, i as Id)| == r.mapInfo[i as Id].nRefCount
  {
    assert EntryRestored(s, r, i);
    assert EntryCounted(r, r.mapInfo.Keys, i as Id);
    forall pos | pos in Refs(r.news, i as Id)
      ensures pos in Refs(s.news, Order(s)[i])
    {
      assert SlotRestored(s, s.news, r.news, pos);
    }
  }

  lemma SubsetSmaller(a: set<Pos>, b: set<Pos>, x: Pos)
    requires a <= b && x in b && x !in a
    ensures |a| < |b|
  {
    assert a <= b - {x};
    SubsetSize(a, b - {x});
  }

  lemma {:induction false} SubsetSize(a: set<Pos>, b: set<Pos>)
    requires a <= b
    ensures |a| <= |b|
  {
    if a != {} {
      var x := Pick(a);
      SubsetSize(a - {x}, b - {x});
    }
  }

  lemma TakenIsBefore(s: State, r: State, bucket: nat, index: nat, pos: Pos)
    requires Listed(s) && SlotsRestored(s, r, bucket, index)
    ensures pos in r.news ==> Before(pos, bucket, index)
  {
    if pos in r.news {
      assert SlotRestored(s, s.news, r.news, pos);
    }
  }

  /** The number under which the occupant of a slot is written. */
  lemma OccupantRank(h: Hashes, s: State, pos: Pos) returns (i: nat)
    requires Inv(h, s, {}, 0) && pos in s.news
    ensures s.news[pos] >= 0 && i == Rank(s.mapInfo, s.news[pos])
    ensures i < s.nNew <= |Order(s)| && Order(s)[i] == s.news[pos]
    ensures s.news[pos] in s.mapInfo && !s.mapInfo[s.news[pos]].fInTried
    ensures pos.bucket < NEW_BUCKET_COUNT && pos == NewPosIn(h, s.nKey, s.mapInfo[s.news[pos]].service, pos.bucket)
  {
    assert NewSlotOk(h, s, pos);
    CountersMatch(h, s);
    SelectAt(s.mapInfo, false, s.news[pos], s.nIdCount as int);
    i := Rank(s.mapInfo, s.news[pos]);
  }

  /** The next slot is still free and its entry has a reference to spare. */
  lemma SlotIsFree(h: Hashes, s: State, r: State, bucket: nat, index: nat, i: nat)
    requires Inv(h, s, {}, 0) && Reached(h, s, r, bucket, index)
    requires Pos(bucket, index) in s.news && i < |Order(s)| && Order(s)[i] == s.news[Pos(bucket, index)]
    ensures Pos(bucket, index) !in r.news
    ensures i as Id in r.mapInfo && r.mapInfo[i as Id].nRefCount < NEW_BUCKETS_PER_ADDRESS
  {
    var pos := Pos(bucket, index);
    assert EntryRestored(s, r, i);
    TakenIsBefore(s, r, bucket, index, pos);
    RefsSoFar(h, s, r, bucket, index, i);
    SubsetSmaller(Refs(r.news, i as Id), Refs(s.news, s.news[pos]), pos);
    assert NewSlotOk(h, s, pos);
    assert EntryCounted(s, {}, s.news[pos]);
  }

  /** A listed index puts its entry back into the slot it came from. */
  lemma TakeSlot(h: Hashes, s: State, r: State, bucket: nat, index: nat) returns (r': State)
    requires Inv(h, s, {}, 0) && Reached(h, s, r, bucket, index)
    requires Pos(bucket, index) in s.news
    ensures s.news[Pos(bucket, index)] >= 0
    ensures r' == TakeIndex(h, r, bucket, Rank(s.mapInfo, s.news[Pos(bucket, index)]), true)
    ensures Reached(h, s, r', bucket, index + 1)
  {
    var pos := Pos(bucket, index);
    var i := OccupantRank(h, s, pos);
    SlotIsFree(h, s, r, bucket, index, i);
    assert EntryRestored(s, r, i);
    r' := AddRef(r, i as Id, pos);
    AddRefKeeps(h, r, r.mapInfo.Keys, 0, i as Id, pos);
    assert r'.mapInfo.Keys == r.mapInfo.Keys;
    AddRefRestores(s, r, i, pos);
    SlotsNext(s, r, r', bucket, index, i);
  }

  lemma AddRefRestores(s: State, r: State, i: nat, pos: Pos)
    requires Listed(s) && EntriesRestored(s, r) && i as Id in r.mapInfo
    ensures EntriesRestored(s, AddRef(r, i as Id, pos))
  {
    var r' := AddRef(r, i as Id, pos);
    forall j: nat | j < |Order(s)|
      ensures EntryRestored(s, r', j)
    {
      assert EntryRestored(s, r, j);
    }
    forall p | p in s.tried || p in r'.tried
      ensures SlotRestored(s, s.tried, r'.tried, p)
    {
      assert SlotRestored(s, s.tried, r.tried, p);
    }
  }

  lemma SlotsNext(s: State, r: State, r': State, bucket: nat, index: nat, i: nat)
    requires Listed(s) && SlotsRestored(s, r, bucket, index)
    requires Pos(bucket, index) in s.news && i < |Order(s)| && Order(s)[i] == s.news[Pos(bucket, index)]
    requires r'.news == r.news[Pos(bucket, index) := i as Id]
    ensures SlotsRestored(s, r', bucket, index + 1)
  {
    forall p | (p in s.news && Before(p, bucket, index + 1)) || p in r'.news
      ensures SlotRestored(s, s.news, r'.news, p) && Before(p, bucket, index + 1)
    {
      if p != Pos(bucket, index) {
        assert SlotRestored(s, s.news, r.news, p);
      }
    }
  }

  lemma SlotsSkip(s: State, r: State, bucket: nat, index: nat)
    requires Listed(s) && SlotsRestored(s, r, bucket, index) && Pos(bucket, index) !in s.news
    ensures SlotsRestored(s, r, bucket, index + 1)
  {
    forall p | (p in s.news && Before(p, bucket, index + 1)) || p in r.news
      ensures SlotRestored(s, s.news, r.news, p) && Before(p, bucket, index + 1)
    {
      assert SlotRestored(s, s.news, r.news, p);
    }
  }

  lemma TakeBucketNext(h: Hashes, r: State, bucket: nat, list: seq<int>, k: int)
    ensures TakeBucket(h, r, bucket, list + [k], true) == TakeIndex(h, TakeBucket(h, r, bucket, list, true), bucket, k, true)
  {
    assert (list + [k])[..|list|] == list;
  }

  lemma RowNext(s: State, bucket: nat, i: nat)
    requires Writable(s) && i < BUCKET_SIZE
    ensures var row := Row(s, bucket);
            Indexes(s.mapInfo, row[..i + 1]) ==
              Indexes(s.mapInfo, row[..i]) +
              (if Pos(bucket, i) in s.news then [Rank(s.mapInfo, s.news[Pos(bucket, i)])] else [])
  {
    var row := Row(s, bucket);
    assert row[..i + 1][..i] == row[..i];
    assert row[i] == Get(s.news, Pos(bucket, i));
  }

  /** The slots of one bucket up to the `n`th. */
  lemma {:induction false} TakeBucketExact(h: Hashes, s: State, r: State, bucket: nat, n: nat) returns (r': State)
    requires Inv(h, s, {}, 0) && Writable(s) && Reached(h, s, r, bucket, 0) && n <= BUCKET_SIZE
    ensures r' == TakeBucket(h, r, bucket, Indexes(s.mapInfo, Row(s, bucket)[..n]), true)
    ensures Reached(h, s, r', bucket, n)
  {
    if n == 0 {
      r' := r;
    } else {
      var row := Row(s, bucket);
      var before := TakeBucketExact(h, s, r, bucket, n - 1);
      RowNext(s, bucket, n - 1);
      r' := TakeSlotOrSkip(h, s, r, before, bucket, n - 1, Indexes(s.mapInfo, row[..n - 1]), Indexes(s.mapInfo, row[..n]));
    }
  }

  lemma TakeSlotOrSkip(h: Hashes, s: State, r0: State, r: State, bucket: nat, index: nat, list: seq<int>, more: seq<int>)
    returns (r': State)
    requires Inv(h, s, {}, 0) && Writable(s) && Reached(h, s, r, bucket, index)
    requires r == TakeBucket(h, r0, bucket, list, true)
    requires more == list + (if Pos(bucket, index) in s.news then [Rank(s.mapInfo, s.news[Pos(bucket, index)])] else [])
    ensures r' == TakeBucket(h, r0, bucket, more, true)
    ensures Reached(h, s, r', bucket, index + 1)
  {
    if Pos(bucket, index) in s.news {
      r' := TakeSlot(h, s, r, bucket, index);
      TakeBucketNext(h, r0, bucket, list, Rank(s.mapInfo, s.news[Pos(bucket, index)]));
    } else {
      r' := r;
      assert list + [] == list;
      SlotsSkip(s, r, bucket, index);
    }
  }

  lemma NextBucket(h: Hashes, s: State, r: State, bucket: nat)
    requires Inv(h, s, {}, 0) && Reached(h, s, r, bucket, BUCKET_SIZE)
    ensures Reached(h, s, r, bucket + 1, 0)
  {
    forall p | (p in s.news && Before(p, bucket + 1, 0)) || p in r.news
      ensures SlotRestored(s, s.news, r.news, p) && Before(p, bucket + 1, 0)
    {
      assert p in s.news ==> NewSlotOk(h, s, p);
      assert SlotRestored(s, s.news, r.news, p);
    }
  }

  lemma {:induction false} TakeBucketsExact(h: Hashes, s: State, r: State, lists: seq<seq<int>>, n: nat) returns (r': State)
    requires Inv(h, s, {}, 0) && Writable(s) && Reached(h, s, r, 0, 0) && n <= |lists|
    requires forall b: nat | b < |lists| :: lists[b] == Indexes(s.mapInfo, Row(s, b))
    ensures r' == TakeBuckets(h, r, lists[..n], true)
    ensures Reached(h, s, r', n, 0)
  {
    r' := r;
    if n > 0 {
      r' := TakeBucketsExact(h, s, r, lists, n - 1);
      r' := WholeBucket(h, s, r', n - 1);
      assert lists[..n][..n - 1] == lists[..n - 1];
    }
  }

  lemma WholeBucket(h: Hashes, s: State, r: State, bucket: nat) returns (r': State)
    requires Inv(h, s, {}, 0) && Writable(s) && Reached(h, s, r, bucket, 0)
    ensures r' == TakeBucket(h, r, bucket, Indexes(s.mapInfo, Row(s, bucket)), true)
    ensures Reached(h, s, r', bucket + 1, 0)
  {
    r' := TakeBucketExact(h, s, r, bucket, BUCKET_SIZE);
    assert Row(s, bucket)[..BUCKET_SIZE] == Row(s, bucket);
    NextBucket(h, s, r', bucket);
  }

  lemma EntriesReached(h: Hashes, s: State)
    requires Inv(h, s, {}, 0) && Writable(s) && Listed(s)
    ensures Reached(h, s, Entries(h, FileOf(s)), 0, 0)
  {
    WrittenIsSound(h, s);
    EntriesPartial(h, FileOf(s));
    EntriesExact(h, s);
  }

  lemma FilledExact(h: Hashes, s: State)
    requires Inv(h, s, {}, 0) && Writable(s) && Listed(s)
    ensures Reached(h, s, Filled(h, FileOf(s)), NEW_BUCKET_COUNT, 0)
  {
    var lists := FileOf(s).buckets;
    EntriesReached(h, s);
    var r := TakeBucketsExact(h, s, Entries(h, FileOf(s)), lists, |lists|);
    assert lists[..|lists|] == lists;
  }

  /* ---- The round trip ---- */

  /** Apart from its place and the two memory-only times, the entry is what it was, references included. */
  ghost predicate EntrySame(s: State, r: State, i: nat)
    requires Listed(s) && i < |Order(s)|
  {
    && i as Id in r.mapInfo
    && r.mapInfo[i as Id] == s.mapInfo[Order(s)[i]].(nLastTry := 0, nLastCountAttempt := 0, nRandomPos := i)
    && i < |r.vRandom| && r.vRandom[i] == i as Id
  }

  ghost predicate AddressSame(s: State, r: State, a: NetAddr)
    requires Listed(s)
  {
    && a in s.mapAddr && a in r.mapAddr
    && 0 <= r.mapAddr[a] as int < |Order(s)| && Order(s)[r.mapAddr[a]] == s.mapAddr[a]
  }

  /** `r` is `s` with its entries numbered in the order `Order(s)`. */
  ghost predicate Restored(s: State, r: State)
    requires Listed(s)
  {
    && r.nKey == s.nKey && r.nNew == s.nNew && r.nTried == s.nTried
    && r.nIdCount as int == |r.mapInfo| == |r.vRandom| == |Order(s)|
    && (forall i: nat {:trigger EntrySame(s, r, i)} | i < |Order(s)| :: EntrySame(s, r, i))
    && (forall a {:trigger AddressSame(s, r, a)} | a in s.mapAddr || a in r.mapAddr :: AddressSame(s, r, a))
    && (forall pos {:trigger SlotRestored(s, s.news, r.news, pos)} | pos in s.news || pos in r.news ::
          SlotRestored(s, s.news, r.news, pos))
    && (forall pos {:trigger SlotRestored(s, s.tried, r.tried, pos)} | pos in s.tried || pos in r.tried ::
          SlotRestored(s, s.tried, r.tried, pos))
  }

  lemma AllSlots(h: Hashes, s: State, r: State, pos: Pos)
    requires Inv(h, s, {}, 0) && Reached(h, s, r, NEW_BUCKET_COUNT, 0) && (pos in s.news || pos in r.news)
    ensures SlotRestored(s, s.news, r.news, pos)
  {
    assert pos in s.news ==> NewSlotOk(h, s, pos);
  }

  lemma RefsBack(h: Hashes, s: State, r: State, i: nat)
    requires Inv(h, s, {}, 0) && Reached(h, s, r, NEW_BUCKET_COUNT, 0) && i < |Order(s)|
    ensures EntrySame(s, r, i)
  {
    OrderLists(h, s);
    var id := Order(s)[i];
    RefsSoFar(h, s, r, NEW_BUCKET_COUNT, 0, i);
    forall pos | pos in Refs(s.news, id)
      ensures pos in Refs(r.news, i as Id)
    {
      AllSlots(h, s, r, pos);
    }
    assert Refs(r.news, i as Id) == Refs(s.news, id);
    assert EntryCounted(s, {}, id) && EntryRestored(s, r, i);
  }

  lemma AddressBack(h: Hashes, s: State, r: State, a: NetAddr)
    requires Inv(h, s, {}, 0) && Reached(h, s, r, NEW_BUCKET_COUNT, 0) && (a in s.mapAddr || a in r.mapAddr)
    ensures AddressSame(s, r, a)
  {
    OrderLists(h, s);
    if a in r.mapAddr {
      assert AddrLinked(r, a);
      var i := r.mapAddr[a] as int;
      assert EntryRestored(s, r, i) && EntryLinked(s, Order(s)[i]);
    }
    assert AddrLinked(s, a);
    var i :| 0 <= i < |Order(s)| && Order(s)[i] == s.mapAddr[a];
    assert EntryRestored(s, r, i) && EntryLinked(r, i as Id);
  }

  lemma {:induction false} PruneNothing(s: State, n: nat)
    requires forall id | id in s.mapInfo :: !Unreferenced(s, id)
    ensures Prune(s, n) == s
  {
    if n > 0 {
      PruneNothing(s, n - 1);
    }
  }

  lemma NothingToPrune(h: Hashes, s: State, r: State, id: Id)
    requires Inv(h, s, {}, 0) && Reached(h, s, r, NEW_BUCKET_COUNT, 0) && id in r.mapInfo
    ensures !Unreferenced(r, id)
  {
    OrderLists(h, s);
    RefsBack(h, s, r, id as int);
    assert EntryCounted(s, {}, Order(s)[id]);
  }

  /** Reading what a consistent manager has written restores it. */
  lemma BuildRestores(h: Hashes, s: State)
    requires Inv(h, s, {}, 0)
    ensures Writable(s) && Listed(s) && ListsOnce(s) && Restored(s, Build(h, FileOf(s)))
    ensures Inv(h, Build(h, FileOf(s)), {}, 0)
  {
    ConsistentIsWritable(h, s);
    OrderLists(h, s);
    WrittenIsSound(h, s);
    FilledExact(h, s);
    var r := Filled(h, FileOf(s));
    forall id | id in r.mapInfo
      ensures !Unreferenced(r, id)
    {
      NothingToPrune(h, s, r, id);
    }
    PruneNothing(r, Max(0, r.nIdCount as int));
    BuildIsConsistent(h, FileOf(s));
    ReachedRestored(h, s, r);
  }

  lemma ReachedRestored(h: Hashes, s: State, r: State)
    requires Inv(h, s, {}, 0) && Reached(h, s, r, NEW_BUCKET_COUNT, 0)
    ensures Restored(s, r)
  {
    forall i: nat | i < |Order(s)|
      ensures EntrySame(s, r, i)
    {
      RefsBack(h, s, r, i);
    }
    forall a | a in s.mapAddr || a in r.mapAddr
      ensures AddressSame(s, r, a)
    {
      AddressBack(h, s, r, a);
    }
    forall pos | pos in s.news || pos in r.news
      ensures SlotRestored(s, s.news, r.news, pos)
    {
      AllSlots(h, s, r, pos);
    }
  }
}
