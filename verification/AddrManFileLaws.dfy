/** What reading a file gives, told by the file alone: every entry that is kept, and who gets which slot. */
module AddrManFileLaws {
  import opened Prelude
  import opened AddrMan
  import opened AddrManFile

  /** The entry is what the file says, with the fields that are not stored at their initial values. */
  predicate Holds(info: Info, e: Saved) {
    && info.service == e.service && info.nServices == e.nServices && info.nTime == e.nTime && info.source == e.source
    && info.nLastSuccess == e.nLastSuccess && info.nAttempts == e.nAttempts
    && info.nLastTry == 0 && info.nLastCountAttempt == 0
  }

  /** Entry `i` of the new table has its id and what the file says. */
  predicate NewHeld(s: State, es: seq<Saved>, i: nat)
    requires i < |es|
  {
    i as Id in s.mapInfo && Holds(s.mapInfo[i as Id], es[i]) && !s.mapInfo[i as Id].fInTried
  }

  function OwnSlot(h: Hashes, nKey: uint256, es: seq<Saved>, i: nat): Pos
    requires i < |es|
  {
    NewPos(h, nKey, es[i].service, es[i].source)
  }

  /** Each slot is held by the first entry whose own source leads to it. */
  ghost predicate FirstCome(h: Hashes, nKey: uint256, es: seq<Saved>, news: Table) {
    && (forall i: nat | i < |es| :: OwnSlot(h, nKey, es, i) in news)
    && (forall pos | pos in news :: 0 <= news[pos] as int < |es| && IsFirst(h, nKey, es, pos, news[pos] as int))
  }

  predicate IsFirst(h: Hashes, nKey: uint256, es: seq<Saved>, pos: Pos, i: nat)
    requires i < |es|
  {
    OwnSlot(h, nKey, es, i) == pos && forall k: nat | k < i :: OwnSlot(h, nKey, es, k) != pos
  }

  ghost predicate NewsRead(h: Hashes, s: State, nKey: uint256, es: seq<Saved>, usable: bool) {
    && s.nKey == nKey && s.nIdCount as int == |es| && s.tried == map[]
    && (forall id | id in s.mapInfo :: 0 <= id as int < |es|)
    && (forall i: nat | i < |es| :: NewHeld(s, es, i))
    && (if usable then s.news == map[] else FirstCome(h, nKey, es, s.news))
  }

  lemma {:induction false} LoadNewsIs(h: Hashes, f: File, es: seq<Saved>, usable: bool) returns (r: State)
    ensures r == LoadNews(h, Start(f), es, usable) && NewsRead(h, r, f.nKey, es, usable)
    decreases |es|
  {
    if es == [] {
      r := Start(f);
    } else {
      var init, last := es[..|es| - 1], es[|es| - 1];
      r := LoadNewsIs(h, f, init, usable);
      r := LoadNewIs(h, r, f.nKey, init, last, es, usable);
    }
  }

  lemma LoadNewIs(h: Hashes, s: State, nKey: uint256, init: seq<Saved>, last: Saved, es: seq<Saved>, usable: bool) returns (r: State)
    requires NewsRead(h, s, nKey, init, usable) && es == init + [last]
    ensures r == LoadNew(h, s, last, usable) && NewsRead(h, r, nKey, es, usable)
  {
    r := LoadNew(h, s, last, usable);
    forall i: nat | i < |es|
      ensures NewHeld(r, es, i)
    {
      assert i < |init| ==> NewHeld(s, init, i);
    }
    if !usable {
      FirstComeNext(h, nKey, init, last, es, s.news, r.news);
    }
  }

  lemma FirstComeNext(h: Hashes, nKey: uint256, init: seq<Saved>, last: Saved, es: seq<Saved>, news: Table, news': Table)
    requires FirstCome(h, nKey, init, news) && es == init + [last] && |init| as int >= 0
    requires var pos := NewPos(h, nKey, last.service, last.source);
             news' == if pos in news then news else news[pos := |init| as Id]
    ensures FirstCome(h, nKey, es, news')
  {
    forall i: nat | i < |es|
      ensures OwnSlot(h, nKey, es, i) in news'
    {
      assert i < |init| ==> OwnSlot(h, nKey, es, i) == OwnSlot(h, nKey, init, i);
    }
    forall pos | pos in news'
      ensures 0 <= news'[pos] as int < |es| && IsFirst(h, nKey, es, pos, news'[pos] as int)
    {
      if pos in news {
        assert IsFirst(h, nKey, init, pos, news[pos] as int);
        assert forall k: nat | k < |init| :: OwnSlot(h, nKey, es, k) == OwnSlot(h, nKey, init, k);
      } else {
        assert forall k: nat | k < |init| :: OwnSlot(h, nKey, es, k) == OwnSlot(h, nKey, init, k) && OwnSlot(h, nKey, init, k) in news;
      }
    }
  }

  /* ---- The tried table ---- */

  function TriedSlot(h: Hashes, nKey: uint256, es: seq<Saved>, j: nat): Pos
    requires j < |es|
  {
    TriedPos(h, nKey, es[j].service)
  }

  predicate IsFirstTried(h: Hashes, nKey: uint256, es: seq<Saved>, pos: Pos, j: nat)
    requires j < |es|
  {
    TriedSlot(h, nKey, es, j) == pos && forall k: nat | k < j :: TriedSlot(h, nKey, es, k) != pos
  }

  /** A tried slot is held by an entry that is as the first one says whose address leads to it. */
  ghost predicate TriedHeld(h: Hashes, s: State, nKey: uint256, es: seq<Saved>, pos: Pos)
    requires pos in s.tried
  {
    && s.tried[pos] in s.mapInfo && s.mapInfo[s.tried[pos]].fInTried
    && exists j: nat :: j < |es| && IsFirstTried(h, nKey, es, pos, j) && Holds(s.mapInfo[s.tried[pos]], es[j])
  }

  ghost predicate TriedsRead(h: Hashes, s: State, nKey: uint256, news: seq<Saved>, es: seq<Saved>, slots: Table) {
    && s.nKey == nKey && s.news == slots && |news| <= s.nIdCount as int
    && (forall id | id in s.mapInfo :: 0 <= id < s.nIdCount)
    && (forall i: nat | i < |news| :: NewHeld(s, news, i))
    && (forall j: nat | j < |es| :: TriedSlot(h, nKey, es, j) in s.tried)
    && (forall pos | pos in s.tried :: TriedHeld(h, s, nKey, es, pos))
    && (forall id | id in s.mapInfo && id as int >= |news| :: exists pos :: pos in s.tried && s.tried[pos] == id)
  }

  lemma {:induction false} LoadTriedsIs(h: Hashes, s: State, nKey: uint256, news: seq<Saved>, es: seq<Saved>, usable: bool) returns (r: State)
    requires NewsRead(h, s, nKey, news, usable)
    ensures r == LoadTrieds(h, s, es) && TriedsRead(h, r, nKey, news, es, s.news)
    decreases |es|
  {
    if es == [] {
      r := s;
    } else {
      var init, last := es[..|es| - 1], es[|es| - 1];
      r := LoadTriedsIs(h, s, nKey, news, init, usable);
      r := LoadTriedIs(h, r, nKey, news, init, last, es, s.news);
    }
  }

  lemma LoadTriedIs(h: Hashes, s: State, nKey: uint256, news: seq<Saved>, init: seq<Saved>, last: Saved, es: seq<Saved>, slots: Table) returns (r: State)
    requires TriedsRead(h, s, nKey, news, init, slots) && es == init + [last]
    ensures r == LoadTried(h, s, last) && TriedsRead(h, r, nKey, news, es, slots)
  {
    r := LoadTried(h, s, last);
    var own := TriedPos(h, nKey, last.service);
    forall k: nat | k < |es|
      ensures TriedSlot(h, nKey, es, k) in r.tried
    {
      assert k < |init| ==> TriedSlot(h, nKey, es, k) == TriedSlot(h, nKey, init, k);
    }
    if own in s.tried {
      forall pos | pos in s.tried
        ensures TriedHeld(h, s, nKey, es, pos)
      {
        StaysHeld(h, s, s, nKey, init, last, es, pos);
      }
    } else {
      SettlesNext(h, s, r, nKey, news, init, last, es, own);
    }
  }

  lemma SettlesNext(h: Hashes, s: State, r: State, nKey: uint256, news: seq<Saved>, init: seq<Saved>, last: Saved, es: seq<Saved>, own: Pos)
    requires TriedsRead(h, s, nKey, news, init, s.news) && es == init + [last]
    requires own == TriedPos(h, nKey, last.service) && own !in s.tried && r == Settle(Insert(s, Load(last)), s.nIdCount, own)
    ensures forall i: nat | i < |news| :: NewHeld(r, news, i)
    ensures forall pos | pos in r.tried :: TriedHeld(h, r, nKey, es, pos)
    ensures forall id | id in r.mapInfo && id as int >= |news| :: exists pos :: pos in r.tried && r.tried[pos] == id
  {
    forall i: nat | i < |news|
      ensures NewHeld(r, news, i)
    {
      assert NewHeld(s, news, i);
    }
    forall pos | pos in r.tried
      ensures TriedHeld(h, r, nKey, es, pos)
    {
      if pos == own {
        FirstForOwn(h, s, nKey, init, last, es, own);
        assert Holds(r.mapInfo[r.tried[pos]], es[|init|]);
      } else {
        assert TriedHeld(h, s, nKey, init, pos);
        StaysHeld(h, s, r, nKey, init, last, es, pos);
      }
    }
    forall id | id in r.mapInfo && id as int >= |news|
      ensures exists pos :: pos in r.tried && r.tried[pos] == id
    {
      if id == s.nIdCount {
        assert r.tried[own] == id;
      } else {
        var pos :| pos in s.tried && s.tried[pos] == id;
        assert pos in r.tried && r.tried[pos] == id;
      }
    }
  }

  lemma FirstForOwn(h: Hashes, s: State, nKey: uint256, init: seq<Saved>, last: Saved, es: seq<Saved>, own: Pos)
    requires es == init + [last] && own == TriedPos(h, nKey, last.service) && own !in s.tried
    requires forall j: nat | j < |init| :: TriedSlot(h, nKey, init, j) in s.tried
    ensures IsFirstTried(h, nKey, es, own, |init|)
  {
    forall k: nat | k < |init|
      ensures TriedSlot(h, nKey, es, k) != own
    {
      assert TriedSlot(h, nKey, init, k) in s.tried;
    }
  }

  lemma StaysHeld(h: Hashes, s: State, r: State, nKey: uint256, init: seq<Saved>, last: Saved, es: seq<Saved>, pos: Pos)
    requires pos in s.tried && TriedHeld(h, s, nKey, init, pos) && es == init + [last]
    requires pos in r.tried && r.tried[pos] == s.tried[pos] && r.tried[pos] in r.mapInfo && r.mapInfo[r.tried[pos]] == s.mapInfo[s.tried[pos]]
    ensures TriedHeld(h, r, nKey, es, pos)
  {
    var j: nat :| j < |init| && IsFirstTried(h, nKey, init, pos, j) && Holds(s.mapInfo[s.tried[pos]], init[j]);
    assert forall k: nat | k < |init| :: TriedSlot(h, nKey, es, k) == TriedSlot(h, nKey, init, k);
    assert IsFirstTried(h, nKey, es, pos, j) && es[j] == init[j];
  }

  /* ---- The bucket lists ---- */

  /** Slots are only added, and nothing but reference counts changes. */
  ghost predicate Grows(s: State, r: State) {
    && r.nKey == s.nKey && r.nNew == s.nNew && r.tried == s.tried && r.mapInfo.Keys == s.mapInfo.Keys
    && (forall id | id in s.mapInfo :: Regrown(s.mapInfo[id], r.mapInfo[id]))
    && (forall pos | pos in s.news :: pos in r.news && r.news[pos] == s.news[pos])
  }

  predicate Regrown(a: Info, b: Info) {
    b.(nRefCount := a.nRefCount) == a && b.nRefCount >= a.nRefCount
  }

  /** A slot was added for a new entry, in a bucket that lists it. */
  predicate ListedSlot(h: Hashes, s: State, lists: seq<seq<int>>, pos: Pos, id: Id) {
    && id in s.mapInfo && 0 <= id as int < s.nNew && pos.bucket < |lists| && id as int in lists[pos.bucket]
    && pos == NewPosIn(h, s.nKey, s.mapInfo[id].service, pos.bucket)
  }

  ghost predicate OnlyListed(h: Hashes, s: State, r: State, lists: seq<seq<int>>) {
    forall pos | pos in r.news && pos !in s.news :: ListedSlot(h, s, lists, pos, r.news[pos])
  }

  /** A listed entry is served: its slot in the bucket is taken, by itself or another, or it has eight slots already. */
  predicate Served(h: Hashes, r: State, bucket: nat, nIndex: int) {
    0 <= nIndex < r.nNew && nIndex as Id in r.mapInfo ==>
      NewPosIn(h, r.nKey, r.mapInfo[nIndex as Id].service, bucket) in r.news || r.mapInfo[nIndex as Id].nRefCount >= 8
  }

  ghost predicate AllServed(h: Hashes, r: State, bucket: nat, list: seq<int>) {
    forall k: nat | k < |list| :: Served(h, r, bucket, list[k])
  }

  lemma StillServed(h: Hashes, s: State, r: State, bucket: nat, list: seq<int>)
    requires Grows(s, r) && AllServed(h, s, bucket, list)
    ensures AllServed(h, r, bucket, list)
  {
    forall k: nat | k < |list|
      ensures Served(h, r, bucket, list[k])
    {
      assert Served(h, s, bucket, list[k]);
      if 0 <= list[k] < s.nNew && list[k] as Id in s.mapInfo {
        assert Regrown(s.mapInfo[list[k] as Id], r.mapInfo[list[k] as Id]);
      }
    }
  }

  lemma AddRefGrows(s: State, id: Id, pos: Pos)
    requires id in s.mapInfo && pos !in s.news
    ensures Grows(s, AddRef(s, id, pos))
  {
  }

  lemma TakeIndexIs(h: Hashes, s0: State, s: State, lists: seq<seq<int>>, bucket: nat, nIndex: int) returns (r: State)
    requires Grows(s0, s) && OnlyListed(h, s0, s, lists) && bucket < |lists| && nIndex in lists[bucket]
    ensures r == TakeIndex(h, s, bucket, nIndex, true) && Grows(s, r) && Grows(s0, r) && OnlyListed(h, s0, r, lists)
    ensures Served(h, r, bucket, nIndex)
  {
    r := TakeIndex(h, s, bucket, nIndex, true);
    if r != s {
      var id := nIndex as Id;
      var pos := NewPosIn(h, s.nKey, s.mapInfo[id].service, bucket);
      AddRefGrows(s, id, pos);
      GrowsTrans(s0, s, r);
      assert Regrown(s0.mapInfo[id], s.mapInfo[id]);
      ListedNext(h, s0, s, lists, pos, id);
    }
  }

  lemma ListedNext(h: Hashes, s0: State, s: State, lists: seq<seq<int>>, pos: Pos, id: Id)
    requires OnlyListed(h, s0, s, lists) && id in s.mapInfo && ListedSlot(h, s0, lists, pos, id)
    ensures OnlyListed(h, s0, AddRef(s, id, pos), lists)
  {
  }

  lemma {:induction false} TakeBucketIs(h: Hashes, s0: State, s: State, lists: seq<seq<int>>, bucket: nat, m: nat) returns (r: State)
    requires Grows(s0, s) && OnlyListed(h, s0, s, lists) && bucket < |lists| && m <= |lists[bucket]|
    ensures r == TakeBucket(h, s, bucket, lists[bucket][..m], true) && Grows(s, r) && Grows(s0, r) && OnlyListed(h, s0, r, lists)
    ensures AllServed(h, r, bucket, lists[bucket][..m])
  {
    if m == 0 {
      r := s;
    } else {
      var list := lists[bucket];
      var r1 := TakeBucketIs(h, s0, s, lists, bucket, m - 1);
      assert list[..m][..m - 1] == list[..m - 1];
      r := TakeIndexIs(h, s0, r1, lists, bucket, list[m - 1]);
      StillServed(h, r1, r, bucket, list[..m - 1]);
      forall k: nat | k < m
        ensures Served(h, r, bucket, list[..m][k])
      {
        assert k < m - 1 ==> Served(h, r, bucket, list[..m - 1][k]);
      }
      GrowsTrans(s, r1, r);
    }
  }

  lemma GrowsTrans(a: State, b: State, c: State)
    requires Grows(a, b) && Grows(b, c)
    ensures Grows(a, c)
  {
    forall id | id in a.mapInfo
      ensures Regrown(a.mapInfo[id], c.mapInfo[id])
    {
      assert Regrown(a.mapInfo[id], b.mapInfo[id]) && Regrown(b.mapInfo[id], c.mapInfo[id]);
    }
  }

  lemma {:induction false} TakeBucketsIs(h: Hashes, s: State, lists: seq<seq<int>>, n: nat) returns (r: State)
    requires n <= |lists|
    ensures r == TakeBuckets(h, s, lists[..n], true) && Grows(s, r) && OnlyListed(h, s, r, lists)
    ensures forall b: nat | b < n :: AllServed(h, r, b, lists[b])
  {
    if n == 0 {
      r := s;
    } else {
      var r1 := TakeBucketsIs(h, s, lists, n - 1);
      assert lists[..n][..n - 1] == lists[..n - 1];
      var list := lists[n - 1];
      assert list[..|list|] == list;
      r := TakeBucketIs(h, s, r1, lists, n - 1, |list|);
      forall b: nat | b < n
        ensures AllServed(h, r, b, lists[b])
      {
        if b < n - 1 {
          StillServed(h, r1, r, b, lists[b]);
        }
      }
    }
  }

  lemma {:induction false} UnusableBucket(h: Hashes, s: State, bucket: nat, list: seq<int>)
    ensures TakeBucket(h, s, bucket, list, false) == s
    decreases |list|
  {
    if list != [] {
      UnusableBucket(h, s, bucket, list[..|list| - 1]);
    }
  }

  lemma {:induction false} UnusableBuckets(h: Hashes, s: State, lists: seq<seq<int>>)
    ensures TakeBuckets(h, s, lists, false) == s
    decreases |lists|
  {
    if lists != [] {
      UnusableBuckets(h, s, lists[..|lists| - 1]);
      UnusableBucket(h, s, |lists| - 1, lists[|lists| - 1]);
    }
  }

  /* ---- The whole file ---- */

  /** The entries that every file gives: those of the new table, and the first comer for each tried slot. */
  ghost predicate EntriesGiven(h: Hashes, s: State, f: File) {
    && (forall i: nat | i < |f.news| :: NewHeld(s, f.news, i))
    && (forall j: nat | j < |f.trieds| :: TriedSlot(h, f.nKey, f.trieds, j) in s.tried)
    && (forall pos | pos in s.tried :: TriedHeld(h, s, f.nKey, f.trieds, pos))
    && (forall id | id in s.mapInfo && id as int >= |f.news| :: exists pos :: pos in s.tried && s.tried[pos] == id)
  }

  /** A file of another version or with another number of buckets: each new entry competes for the slot of its own source, first come first served. */
  lemma UnusableFileIs(h: Hashes, f: File)
    requires f.nVersion != 1 || f.nUBuckets != 1024
    ensures EntriesGiven(h, Filled(h, f), f) && FirstCome(h, f.nKey, f.news, Filled(h, f).news)
  {
    var s := LoadNewsIs(h, f, f.news, false);
    var r := LoadTriedsIs(h, s, f.nKey, f.news, f.trieds, false);
    UnusableBuckets(h, r, f.buckets);
  }

  /**
   * A file of this version: a slot goes to a new entry only in a bucket that lists it, and every listed entry is served
   * unless the slot is taken or it has eight.
   */
  lemma UsableFileIs(h: Hashes, f: File)
    requires f.nVersion == 1 && f.nUBuckets == 1024
    ensures var s := Filled(h, f);
            && EntriesGiven(h, s, f)
            && (forall pos | pos in s.news :: SlotListed(h, f, pos, s.news[pos] as int))
            && (forall b: nat, k: nat | b < |f.buckets| && k < |f.buckets[b]| :: Served(h, s, b, f.buckets[b][k]))
  {
    var s1 := LoadNewsIs(h, f, f.news, true);
    var s2 := LoadTriedsIs(h, s1, f.nKey, f.news, f.trieds, true);
    assert s2.nNew == |f.news| by {
      NewStays(h, Start(f), f.news, true);
      TriedStays(h, s1, f.trieds);
    }
    assert f.buckets[..|f.buckets|] == f.buckets;
    var s := TakeBucketsIs(h, s2, f.buckets, |f.buckets|);
    GivenGrows(h, s2, s, f);
    forall pos | pos in s.news
      ensures SlotListed(h, f, pos, s.news[pos] as int)
    {
      assert ListedSlot(h, s2, f.buckets, pos, s.news[pos]);
      assert NewHeld(s2, f.news, s.news[pos] as int);
    }
    forall b: nat, k: nat | b < |f.buckets| && k < |f.buckets[b]|
      ensures Served(h, s, b, f.buckets[b][k])
    {
      assert AllServed(h, s, b, f.buckets[b]);
    }
  }

  predicate SlotListed(h: Hashes, f: File, pos: Pos, i: int) {
    && 0 <= i < |f.news| && pos.bucket < |f.buckets| && i in f.buckets[pos.bucket]
    && pos == NewPosIn(h, f.nKey, f.news[i].service, pos.bucket)
  }

  lemma {:induction false} NewStays(h: Hashes, s: State, es: seq<Saved>, usable: bool)
    ensures LoadNews(h, s, es, usable).nNew == s.nNew
    decreases |es|
  {
    if es != [] {
      NewStays(h, s, es[..|es| - 1], usable);
    }
  }

  lemma {:induction false} TriedStays(h: Hashes, s: State, es: seq<Saved>)
    ensures LoadTrieds(h, s, es).nNew == s.nNew
    decreases |es|
  {
    if es != [] {
      TriedStays(h, s, es[..|es| - 1]);
    }
  }

  lemma GivenGrows(h: Hashes, s: State, r: State, f: File)
    requires EntriesGiven(h, s, f) && Grows(s, r)
    ensures EntriesGiven(h, r, f)
  {
    forall i: nat | i < |f.news|
      ensures NewHeld(r, f.news, i)
    {
      assert NewHeld(s, f.news, i) && Regrown(s.mapInfo[i as Id], r.mapInfo[i as Id]);
      RegrownHolds(s.mapInfo[i as Id], r.mapInfo[i as Id], f.news[i]);
    }
    forall pos | pos in r.tried
      ensures TriedHeld(h, r, f.nKey, f.trieds, pos)
    {
      assert TriedHeld(h, s, f.nKey, f.trieds, pos) && Regrown(s.mapInfo[s.tried[pos]], r.mapInfo[s.tried[pos]]);
      var j: nat :| j < |f.trieds| && IsFirstTried(h, f.nKey, f.trieds, pos, j) && Holds(s.mapInfo[s.tried[pos]], f.trieds[j]);
      RegrownHolds(s.mapInfo[s.tried[pos]], r.mapInfo[s.tried[pos]], f.trieds[j]);
    }
  }

  lemma RegrownHolds(a: Info, b: Info, e: Saved)
    requires Regrown(a, b) && Holds(a, e)
    ensures Holds(b, e) && b.fInTried == a.fInTried
  {
    assert b.(nRefCount := a.nRefCount).service == b.service && b.(nRefCount := a.nRefCount).nServices == b.nServices;
  }
}
