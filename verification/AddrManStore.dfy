/**
 * Writing the address manager object to a stream and reading it back, with the loops of the source.
 */
module AddrManStore {
  import opened Prelude
  import opened AddrMan
  import opened AddrManFile
  import opened AddrManRestore
  import opened AddrManStream
  import opened AddrManager

  /* ---- Writing ---- */

  /**
   * Write the entries of one table in the order of the id map, whose keys are below `m.nIdCount`.
   * `index` tells under which number each entry of the new table is written.
   */
  method WriteEntries(m: Manager, tried: bool, nCount: int) returns (out: seq<Item>, index: map<Id, nat>)
    requires m.nIdCount >= 0 && |Select(m.mapInfo, tried, m.nIdCount as int)| == nCount
    ensures out == EntryItems(Saves(m.mapInfo, tried, m.nIdCount as int))
    ensures Ranks(m.mapInfo, tried, index, m.nIdCount as int)
  {
    out, index := [], map[];
    var nIds := 0;
    for n := 0 to m.nIdCount as int
      invariant nIds == |Select(m.mapInfo, tried, n)| && out == EntryItems(Saves(m.mapInfo, tried, n))
      invariant Ranks(m.mapInfo, tried, index, n)
    {
      var id := n as Id;
      SavesNext(m.mapInfo, tried, n);
      RanksNext(m.mapInfo, tried, index, n);
      if id in m.mapInfo {
        index := index[id := nIds];
        if Chosen(m.mapInfo[id], tried) {
          SelectAt(m.mapInfo, tried, id, m.nIdCount as int);
          assert nIds != nCount;
          out := out + [Entry(Save(m.mapInfo[id]))];
          nIds := nIds + 1;
        }
      }
    }
  }

  method CountSlots(m: Manager, bucket: nat) returns (nSize: nat)
    requires Writable(m.Value())
    ensures nSize == |Indexes(m.mapInfo, Row(m.Value(), bucket))|
  {
    ghost var row := Row(m.Value(), bucket);
    nSize := 0;
    for i := 0 to BUCKET_SIZE
      invariant nSize == |Indexes(m.mapInfo, row[..i])|
    {
      RowNext(m.Value(), bucket, i);
      if Pos(bucket, i) in m.vvNew {
        nSize := nSize + 1;
      }
    }
    assert row[..BUCKET_SIZE] == row;
  }

  /** Write which entries are in a bucket: how many, then their numbers. */
  method WriteBucket(m: Manager, bucket: nat, index: map<Id, nat>) returns (out: seq<Item>)
    requires Writable(m.Value()) && IndexFits(m.Value(), index)
    ensures out == ListItem(Indexes(m.mapInfo, Row(m.Value(), bucket)))
  {
    ghost var s, row := m.Value(), Row(m.Value(), bucket);
    var nSize := CountSlots(m, bucket);
    out := [];
    for i := 0 to BUCKET_SIZE
      invariant out == WordItems(Indexes(m.mapInfo, row[..i]))
    {
      RowNext(s, bucket, i);
      if Pos(bucket, i) in m.vvNew {
        assert SlotIndexed(s, index, Pos(bucket, i));
        out := out + [Word(index[m.vvNew[Pos(bucket, i)]])];
      }
    }
    assert row[..BUCKET_SIZE] == row;
    out := [Word(nSize)] + out;
  }

  method WriteBuckets(m: Manager, index: map<Id, nat>) returns (out: seq<Item>)
    requires Writable(m.Value()) && IndexFits(m.Value(), index)
    ensures out == ListItems(FileOf(m.Value()).buckets)
  {
    ghost var lists := FileOf(m.Value()).buckets;
    out := [];
    for bucket := 0 to NEW_BUCKET_COUNT
      invariant out == ListItems(lists[..bucket])
    {
      var list := WriteBucket(m, bucket, index);
      ListItemsNext(lists, bucket);
      out := out + list;
    }
    assert lists[..NEW_BUCKET_COUNT] == lists;
  }

  method Serialize(m: Manager) returns (out: seq<Item>)
    requires m.Valid()
    ensures Writable(m.Value()) && out == Written(FileOf(m.Value()))
  {
    ConsistentIsWritable(m.h, m.Value());
    CountersMatch(m.h, m.Value());
    out := [Tiny(1), Tiny(32), Hash(m.nKey), Word(m.nNew), Word(m.nTried), Word(Flip(NEW_BUCKET_COUNT))];
    var news, index := WriteEntries(m, false, m.nNew);
    IndexIsRight(m.h, m.Value(), index);
    var trieds, _ := WriteEntries(m, true, m.nTried);
    var lists := WriteBuckets(m, index);
    out := out + news + trieds + lists;
  }

  /* ---- Reading ---- */

  /** Enter the `n`th entry of the new table. */
  method LoadNewEntry(m: Manager, n: Id, e: Saved, usable: bool)
    modifies m
    ensures m.Value() == LoadNew(m.h, old(m.Value()).(nIdCount := n), e, usable).(nIdCount := old(m.nIdCount))
  {
    m.mapInfo := m.mapInfo[n := Load(e).(nRandomPos := |m.vRandom|)];
    m.mapAddr := m.mapAddr[e.service.addr := n];
    m.vRandom := m.vRandom + [n];
    if !usable {
      var pos := NewPos(m.h, m.nKey, e.service, e.source);
      if pos !in m.vvNew {
        m.vvNew := m.vvNew[pos := n];
        m.mapInfo := m.mapInfo[n := m.mapInfo[n].(nRefCount := m.mapInfo[n].nRefCount + 1)];
      }
    }
  }

  /** Enter an entry of the tried table, or lose it to a collision. */
  method LoadTriedEntry(m: Manager, e: Saved) returns (lost: bool)
    modifies m
    ensures m.Value() == LoadTried(m.h, old(m.Value()), e).(nTried := old(m.nTried))
    ensures LoadTried(m.h, old(m.Value()), e).nTried == old(m.nTried) + One(!lost)
  {
    var pos := TriedPos(m.h, m.nKey, e.service);
    lost := pos in m.vvTried;
    if !lost {
      m.mapInfo := m.mapInfo[m.nIdCount := Load(e).(nRandomPos := |m.vRandom|, fInTried := true)];
      m.vRandom := m.vRandom + [m.nIdCount];
      m.mapAddr := m.mapAddr[e.service.addr := m.nIdCount];
      m.vvTried := m.vvTried[pos := m.nIdCount];
      m.nIdCount := m.nIdCount + 1;
    }
  }

  method LoadIndex(m: Manager, bucket: nat, nIndex: int, usable: bool)
    requires Numbered(m.mapInfo, m.nNew)
    modifies m
    ensures m.Value() == TakeIndex(m.h, old(m.Value()), bucket, nIndex, usable)
  {
    if 0 <= nIndex < m.nNew {
      var id := nIndex as Id;
      assert Has(m.mapInfo, nIndex);
      var pos := NewPosIn(m.h, m.nKey, m.mapInfo[id].service, bucket);
      if usable && pos !in m.vvNew && m.mapInfo[id].nRefCount < NEW_BUCKETS_PER_ADDRESS {
        m.mapInfo := m.mapInfo[id := m.mapInfo[id].(nRefCount := m.mapInfo[id].nRefCount + 1)];
        m.vvNew := m.vvNew[pos := id];
      }
    }
  }

  method ReadNews(m: Manager, t: seq<Item>, nCount: nat, usable: bool) returns (ok: bool)
    requires m.nIdCount == 0 && 6 <= |t|
    modifies m
    ensures ok == EntriesAt(t, 6, nCount)
    ensures ok ==> m.Value() == LoadNews(m.h, old(m.Value()), EntriesFrom(t, 6, nCount), usable).(nIdCount := 0)
  {
    ghost var s := m.Value();
    for n := 0 to nCount
      invariant EntriesAt(t, 6, n)
      invariant m.Value() == LoadNews(m.h, s, EntriesFrom(t, 6, n), usable).(nIdCount := 0)
    {
      if 6 + n >= |t| || !t[6 + n].Entry? {
        return false;
      }
      ghost var es := EntriesFrom(t, 6, n);
      LoadNewsCount(m.h, s, es, usable);
      LoadNewEntry(m, n as Id, t[6 + n].e, usable);
      assert EntriesFrom(t, 6, n + 1)[..n] == es;
    }
    ok := true;
  }

  method ReadTrieds(m: Manager, t: seq<Item>, at: nat, nCount: nat) returns (ok: bool, nLost: nat)
    requires at <= |t|
    modifies m
    ensures ok == EntriesAt(t, at, nCount)
    ensures ok ==>
      var r := LoadTrieds(m.h, old(m.Value()).(nTried := 0), EntriesFrom(t, at, nCount));
      m.Value() == r.(nTried := old(m.nTried)) && r.nTried == nCount - nLost
  {
    ghost var s := m.Value().(nTried := 0);
    ghost var es: seq<Saved>, r := [], s;
    nLost := 0;
    for n := 0 to nCount
      invariant EntriesAt(t, at, n) && es == EntriesFrom(t, at, n)
      invariant r == LoadTrieds(m.h, s, es) && r.nTried == n - nLost
      invariant m.Value() == r.(nTried := old(m.nTried))
    {
      if at + n >= |t| || !t[at + n].Entry? {
        return false, nLost;
      }
      var e := t[at + n].e;
      LoadTriedCounted(m.h, r, e, m.nTried);
      LoadTriedsNext(m.h, s, es, e);
      var lost := LoadTriedEntry(m, e);
      es, r := es + [e], LoadTried(m.h, r, e);
      if lost {
        nLost := nLost + 1;
      }
    }
    ok := true;
  }

  /** Read the list of one bucket and put its entries there. */
  method ReadBucket(m: Manager, t: seq<Item>, at: nat, bucket: nat, usable: bool) returns (ok: bool, next: nat)
    requires Numbered(m.mapInfo, m.nNew)
    modifies m
    ensures ok == ListFrom(t, at).Some?
    ensures ok ==> next == ListFrom(t, at).value.1
    ensures ok ==> m.Value() == TakeBucket(m.h, old(m.Value()), bucket, ListFrom(t, at).value.0, usable)
    ensures Numbered(m.mapInfo, m.nNew)
  {
    ghost var s := m.Value();
    next := at + 1;
    if at >= |t| || !t[at].Word? {
      return false, next;
    }
    var nSize := Max(0, t[at].n);
    for n := 0 to nSize
      invariant next == at + 1 + n && WordsAt(t, at + 1, n)
      invariant m.Value() == TakeBucket(m.h, s, bucket, WordsFrom(t, at + 1, n), usable)
      invariant Numbered(m.mapInfo, m.nNew)
    {
      if next >= |t| || !t[next].Word? {
        return false, next;
      }
      ghost var s1 := m.Value();
      LoadIndex(m, bucket, t[next].n, usable);
      TakeIndexNumbered(m.h, s1, bucket, t[next].n, usable);
      assert WordsFrom(t, at + 1, n + 1)[..n] == WordsFrom(t, at + 1, n);
      next := next + 1;
    }
    ok := true;
  }

  method ReadBuckets(m: Manager, t: seq<Item>, at: nat, nUBuckets: int, usable: bool) returns (ok: bool)
    requires Numbered(m.mapInfo, m.nNew)
    modifies m
    ensures ok == ListsFrom(t, at, Max(0, nUBuckets)).Some?
    ensures ok ==> m.Value() == TakeBuckets(m.h, old(m.Value()), ListsFrom(t, at, Max(0, nUBuckets)).value.0, usable)
  {
    ghost var s := m.Value();
    ghost var lists: seq<seq<int>> := [];
    var next := at;
    var bucket: nat := 0;
    while bucket < nUBuckets
      invariant bucket <= Max(0, nUBuckets)
      invariant ListsFrom(t, at, bucket) == Some((lists, next)) && |lists| == bucket
      invariant m.Value() == TakeBuckets(m.h, s, lists, usable)
      invariant Numbered(m.mapInfo, m.nNew)
    {
      var found, after := ReadBucket(m, t, next, bucket, usable);
      if !found {
        ListsFromStops(t, at, bucket + 1, nUBuckets);
        return false;
      }
      TakeBucketsNext(m.h, s, lists, ListFrom(t, next).value.0, usable);
      lists := lists + [ListFrom(t, next).value.0];
      next, bucket := after, bucket + 1;
    }
    ok := true;
  }

  /** Delete the entries that got no slot, in the order of the id map. */
  method PruneAll(m: Manager)
    requires Places(m.Value())
    modifies m
    ensures m.Value() == Prune(old(m.Value()), Max(0, old(m.nIdCount) as int))
  {
    ghost var s := m.Value();
    var end := m.nIdCount as int;
    for n := 0 to end
      invariant m.Value() == Prune(s, n)
    {
      PrunePlaces(s, n + 1);
      var id := n as Id;
      if id in m.mapInfo && !m.mapInfo[id].fInTried && m.mapInfo[id].nRefCount == 0 {
        m.DeleteEntry(id);
      }
    }
  }

  /** Read the entries of both tables; on success the counters are right again. */
  method ReadEntries(m: Manager, t: seq<Item>, usable: bool) returns (ok: bool)
    requires HeaderReadable(t) && t[3].n >= 0 && t[4].n >= 0
    requires m.Value() == Init(t[2].k).(nNew := t[3].n, nTried := t[4].n)
    modifies m
    ensures ok == (EntriesAt(t, 6, t[3].n) && EntriesAt(t, 6 + t[3].n, t[4].n))
    ensures ok ==>
      m.Value() == Tables(m.h, t[2].k, EntriesFrom(t, 6, t[3].n), EntriesFrom(t, 6 + t[3].n, t[4].n), usable)
  {
    ghost var s := m.Value();
    var nCount, nTriedCount := m.nNew, m.nTried;
    ok := ReadNews(m, t, nCount, usable);
    if !ok {
      return;
    }
    ghost var es := EntriesFrom(t, 6, nCount);
    LoadNewsCount(m.h, s, es, usable);
    LoadNewsCounted(m.h, s, es, usable, 0);
    LoadNewsCounted(m.h, s, es, usable, nTriedCount);
    m.nIdCount := nCount as Id;
    assert m.Value().(nTried := 0) == LoadNews(m.h, s.(nTried := 0), es, usable);
    var nLost;
    ok, nLost := ReadTrieds(m, t, 6 + nCount, nTriedCount);
    m.nTried := m.nTried - nLost;
  }

  /** Read a freshly constructed manager from a stream. */
  method Unserialize(m: Manager, t: seq<Item>) returns (error: Option<Failure>)
    requires m.Value() == Init(m.nKey)
    modifies m
    ensures match Parse(t)
            case Parsed(f) => error == None && m.Value() == Build(m.h, f)
            case Failed(why) => error == Some(why)
  {
    if |t| < 2 || !t[0].Tiny? || !t[1].Tiny? {
      return Some(Unreadable);
    }
    var nVersion := t[0].b;
    if t[1].b != 32 {
      return Some(WrongKeySize);
    }
    if |t| < 6 || !t[2].Hash? || !t[3].Word? || !t[4].Word? || !t[5].Word? {
      return Some(Unreadable);
    }
    m.nKey, m.nNew, m.nTried := t[2].k, t[3].n, t[4].n;
    var nUBuckets := if nVersion != 0 then Flip(t[5].n) else t[5].n;
    if m.nNew > NEW_BUCKET_COUNT * BUCKET_SIZE {
      return Some(TooManyNew);
    }
    if m.nTried > TRIED_BUCKET_COUNT * BUCKET_SIZE {
      return Some(TooManyTried);
    }
    if m.nNew < 0 || m.nTried < 0 {
      return Some(NegativeCount);
    }
    error := ReadBody(m, t, nVersion, nUBuckets);
  }

  /** What follows the header. */
  method ReadBody(m: Manager, t: seq<Item>, nVersion: byte, nUBuckets: int) returns (error: Option<Failure>)
    requires HeaderReadable(t) && t[3].n >= 0 && t[4].n >= 0 && nVersion == t[0].b && nUBuckets == BucketsOf(t)
    requires m.Value() == Init(t[2].k).(nNew := t[3].n, nTried := t[4].n)
    modifies m
    ensures match ParseBody(t)
            case Parsed(f) => error == None && m.Value() == Build(m.h, f)
            case Failed(why) => error == Some(why)
  {
    var usable := Usable(nVersion, nUBuckets);
    var at := 6 + m.nNew + m.nTried;
    var ok := ReadEntries(m, t, usable);
    if !ok {
      return Some(Unreadable);
    }
    ghost var news, trieds := EntriesFrom(t, 6, t[3].n), EntriesFrom(t, 6 + t[3].n, t[4].n);
    TablesReady(m.h, t[2].k, news, trieds, usable);
    error := ReadTables(m, t, at, nUBuckets, usable);
  }

  /** The bucket lists and the pruning. */
  method ReadTables(m: Manager, t: seq<Item>, at: nat, nUBuckets: int, usable: bool) returns (error: Option<Failure>)
    requires Places(m.Value()) && Numbered(m.mapInfo, m.nNew)
    modifies m
    ensures match ListsFrom(t, at, Max(0, nUBuckets))
            case None => error == Some(Unreadable)
            case Some(lists) =>
              var r := TakeBuckets(m.h, old(m.Value()), lists.0, usable);
              error == None && m.Value() == Prune(r, Max(0, r.nIdCount as int))
  {
    ghost var s := m.Value();
    var ok := ReadBuckets(m, t, at, nUBuckets, usable);
    if !ok {
      return Some(Unreadable);
    }
    TakeBucketsPlaces(m.h, s, ListsFrom(t, at, Max(0, nUBuckets)).value.0, usable);
    PruneAll(m);
    error := None;
  }
}
