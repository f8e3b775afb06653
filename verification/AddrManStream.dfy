/**
 * The serialized form of the address manager as a stream of typed items, its parser, and the round
 * trip from a consistent manager through a stream back to a manager.
 */
module AddrManStream {
  import opened Prelude
  import opened AddrMan
  import opened AddrManFile
  import opened AddrManRead
  import opened AddrManRestore

  const MAX_NEW := NEW_BUCKET_COUNT * BUCKET_SIZE
  const MAX_TRIED := TRIED_BUCKET_COUNT * BUCKET_SIZE

  datatype Item = Tiny(b: byte) | Hash(k: uint256) | Word(n: int) | Entry(e: Saved)

  datatype Failure = Unreadable | WrongKeySize | TooManyNew | TooManyTried | NegativeCount

  datatype Parsed = Parsed(file: File) | Failed(why: Failure)

  /** Exclusive or with 2^30. */
  function Flip(n: int): int {
    if (n / 0x4000_0000) % 2 == 0 then n + 0x4000_0000 else n - 0x4000_0000
  }

  lemma FlipTwice(n: int)
    ensures Flip(Flip(n)) == n
  {
    var q := n / 0x4000_0000;
    assert (n + 0x4000_0000) / 0x4000_0000 == q + 1;
    assert (n - 0x4000_0000) / 0x4000_0000 == q - 1;
  }

  /* ---- Writing ---- */

  function EntryItems(es: seq<Saved>): seq<Item> {
    seq(|es|, i requires 0 <= i < |es| => Entry(es[i]))
  }

  lemma SavesNext(m: map<Id, Info>, tried: bool, n: nat)
    ensures var chosen := n as Id in m && Chosen(m[n as Id], tried);
            && |Select(m, tried, n + 1)| == |Select(m, tried, n)| + One(chosen)
            && EntryItems(Saves(m, tried, n + 1)) ==
                 EntryItems(Saves(m, tried, n)) + (if chosen then [Entry(Save(m[n as Id]))] else [])
  {
    SelectSound(m, tried, n);
    SelectSound(m, tried, n + 1);
  }

  ghost predicate Ranked(m: map<Id, Info>, tried: bool, index: map<Id, nat>, id: Id)
    requires id >= 0
  {
    id in index && index[id] == |Select(m, tried, id as int)|
  }

  /** For the entries below `n`, `index` says how many entries of the table are written before each. */
  ghost predicate Ranks(m: map<Id, Info>, tried: bool, index: map<Id, nat>, n: int) {
    forall id {:trigger Ranked(m, tried, index, id)} | id in m && 0 <= id as int < n :: Ranked(m, tried, index, id)
  }

  lemma RanksNext(m: map<Id, Info>, tried: bool, index: map<Id, nat>, n: nat)
    requires Ranks(m, tried, index, n)
    ensures Ranks(m, tried, if n as Id in m then index[n as Id := |Select(m, tried, n)|] else index, n + 1)
  {
    var index' := if n as Id in m then index[n as Id := |Select(m, tried, n)|] else index;
    forall id | id in m && 0 <= id as int < n + 1
      ensures Ranked(m, tried, index', id)
    {
      if id as int < n {
        assert Ranked(m, tried, index, id);
      }
    }
  }

  ghost predicate SlotIndexed(s: State, index: map<Id, nat>, pos: Pos)
    requires pos in s.news && s.news[pos] >= 0
  {
    s.news[pos] in index && index[s.news[pos]] == Rank(s.mapInfo, s.news[pos])
  }

  /** `index` gives the number of every entry the new table refers to. */
  ghost predicate IndexFits(s: State, index: map<Id, nat>)
    requires Writable(s)
  {
    forall pos {:trigger SlotIndexed(s, index, pos)} | pos in s.news :: SlotIndexed(s, index, pos)
  }

  lemma IndexIsRight(h: Hashes, s: State, index: map<Id, nat>)
    requires Inv(h, s, {}, 0) && Writable(s) && Ranks(s.mapInfo, false, index, s.nIdCount as int)
    ensures IndexFits(s, index)
  {
    forall pos | pos in s.news
      ensures SlotIndexed(s, index, pos)
    {
      assert NewSlotOk(h, s, pos) && EntryLinked(s, s.news[pos]);
      assert Ranked(s.mapInfo, false, index, s.news[pos]);
    }
  }

  function WordItems(list: seq<int>): seq<Item> {
    seq(|list|, i requires 0 <= i < |list| => Word(list[i]))
  }

  /** A list is written as its length and then its numbers. */
  function ListItem(list: seq<int>): seq<Item> {
    [Word(|list|)] + WordItems(list)
  }

  function ListItems(lists: seq<seq<int>>): seq<Item>
    decreases |lists|
  {
    if lists == [] then []
    else
      ListItems(lists[..|lists| - 1]) + ListItem(lists[|lists| - 1])
  }

  lemma ListItemsNext(lists: seq<seq<int>>, n: nat)
    requires n < |lists|
    ensures ListItems(lists[..n + 1]) == ListItems(lists[..n]) + ListItem(lists[n])
  {
    assert lists[..n + 1][..n] == lists[..n];
  }

  function Header(f: File): seq<Item>
    requires f.nVersion < 256
  {
    [Tiny(f.nVersion), Tiny(32), Hash(f.nKey), Word(|f.news|), Word(|f.trieds|),
     Word(if f.nVersion != 0 then Flip(f.nUBuckets) else f.nUBuckets)]
  }

  function Written(f: File): seq<Item>
    requires f.nVersion < 256
  {
    Header(f) + EntryItems(f.news) + EntryItems(f.trieds) + ListItems(f.buckets)
  }

  /* ---- Reading ---- */

  predicate EntriesAt(t: seq<Item>, at: nat, n: nat) {
    at + n <= |t| && forall i | at <= i < at + n :: t[i].Entry?
  }

  function EntriesFrom(t: seq<Item>, at: nat, n: nat): seq<Saved>
    requires EntriesAt(t, at, n)
  {
    seq(n, i requires 0 <= i < n => t[at + i].e)
  }

  predicate WordsAt(t: seq<Item>, at: nat, n: nat) {
    at + n <= |t| && forall i | at <= i < at + n :: t[i].Word?
  }

  function WordsFrom(t: seq<Item>, at: nat, n: nat): seq<int>
    requires WordsAt(t, at, n)
  {
    seq(n, i requires 0 <= i < n => t[at + i].n)
  }

  /** One list: its length and then that many numbers. */
  function ListFrom(t: seq<Item>, at: nat): Option<(seq<int>, nat)> {
    if at < |t| && t[at].Word? && WordsAt(t, at + 1, Max(0, t[at].n)) then
      Some((WordsFrom(t, at + 1, Max(0, t[at].n)), at + 1 + Max(0, t[at].n)))
    else None
  }

  /** The first `k` lists, and where the next one starts. */
  function ListsFrom(t: seq<Item>, at: nat, k: nat): Option<(seq<seq<int>>, nat)> {
    if k == 0 then Some(([], at))
    else
      var first := ListsFrom(t, at, k - 1);
      if first.None? then None
      else
        var last := ListFrom(t, first.value.1);
        if last.None? then None else Some((first.value.0 + [last.value.0], last.value.1))
  }

  /** Once a list cannot be read, no more can be read. */
  lemma {:induction false} ListsFromStops(t: seq<Item>, at: nat, k: nat, n: nat)
    requires k <= n && ListsFrom(t, at, k).None?
    ensures ListsFrom(t, at, n).None?
  {
    if k < n {
      ListsFromStops(t, at, k, n - 1);
    }
  }

  predicate HeaderReadable(t: seq<Item>) {
    |t| >= 6 && t[0].Tiny? && t[1].Tiny? && t[2].Hash? && t[3].Word? && t[4].Word? && t[5].Word?
  }

  function BucketsOf(t: seq<Item>): int
    requires HeaderReadable(t)
  {
    if t[0].b != 0 then Flip(t[5].n) else t[5].n
  }

  function ParseBody(t: seq<Item>): Parsed
    requires HeaderReadable(t) && t[3].n >= 0 && t[4].n >= 0
  {
    var nNew, nTried, nUBuckets := t[3].n, t[4].n, BucketsOf(t);
    if !EntriesAt(t, 6, nNew) || !EntriesAt(t, 6 + nNew, nTried) then Failed(Unreadable)
    else
      var lists := ListsFrom(t, 6 + nNew + nTried, Max(0, nUBuckets));
      if lists.None? then Failed(Unreadable)
      else Parsed(File(t[0].b, t[2].k, nUBuckets, EntriesFrom(t, 6, nNew), EntriesFrom(t, 6 + nNew, nTried), lists.value.0))
  }

  function Parse(t: seq<Item>): Parsed {
    if !(|t| >= 2 && t[0].Tiny? && t[1].Tiny?) then Failed(Unreadable)
    else if t[1].b != 32 then Failed(WrongKeySize)
    else if !HeaderReadable(t) then Failed(Unreadable)
    else if t[3].n > MAX_NEW then Failed(TooManyNew)
    else if t[4].n > MAX_TRIED then Failed(TooManyTried)
    else if t[3].n < 0 || t[4].n < 0 then Failed(NegativeCount)
    else ParseBody(t)
  }

  lemma {:induction false} ListsFromSize(t: seq<Item>, at: nat, k: nat)
    ensures ListsFrom(t, at, k).Some? ==> |ListsFrom(t, at, k).value.0| == k
  {
    if k > 0 {
      ListsFromSize(t, at, k - 1);
    }
  }

  /** Exactly when the manager read from a stream passes its consistency check, whatever the stream holds. */
  lemma ReadPassesIff(h: Hashes, t: seq<Item>)
    requires Parse(t).Parsed?
    ensures var f := Parse(t).file;
            Check(h, Build(h, f)) <==> f.nKey != 0 && AllPassing(Filled(h, f))
  {
    ListsFromSize(t, 6 + t[3].n + t[4].n, Max(0, BucketsOf(t)));
    BuildPassesIff(h, Parse(t).file);
  }

  /* ---- Reading what was written ---- */

  lemma {:induction false} ListsPrefix(lists: seq<seq<int>>, n: nat)
    requires n <= |lists|
    ensures ListItems(lists[..n]) <= ListItems(lists)
    decreases |lists|
  {
    if n == |lists| {
      assert lists[..n] == lists;
    } else {
      var rest := lists[..|lists| - 1];
      ListsPrefix(rest, n);
      assert rest[..n] == lists[..n];
    }
  }

  lemma ListBack(t: seq<Item>, pre: seq<Item>, list: seq<int>)
    requires pre + ListItem(list) <= t
    ensures ListFrom(t, |pre|) == Some((list, |pre| + |ListItem(list)|))
  {
    var whole := pre + ListItem(list);
    assert t[|pre|] == whole[|pre|] == Word(|list|);
    forall i | 0 <= i < |list|
      ensures t[|pre| + 1 + i] == Word(list[i])
    {
      assert t[|pre| + 1 + i] == whole[|pre| + 1 + i];
    }
    assert forall j | |pre| + 1 <= j < |pre| + 1 + |list| :: t[j] == Word(list[j - |pre| - 1]);
    assert WordsFrom(t, |pre| + 1, |list|) == list;
  }

  lemma {:induction false} ListsBack(pre: seq<Item>, lists: seq<seq<int>>, n: nat)
    requires n <= |lists|
    ensures ListsFrom(pre + ListItems(lists), |pre|, n) == Some((lists[..n], |pre| + |ListItems(lists[..n])|))
  {
    if n > 0 {
      ListsBack(pre, lists, n - 1);
      NextListBack(pre, lists, n - 1);
      ListsFromNext(pre + ListItems(lists), |pre|, n - 1, lists[..n - 1], |pre| + |ListItems(lists[..n - 1])|,
                    lists[n - 1], |pre| + |ListItems(lists[..n])|);
      assert lists[..n] == lists[..n - 1] + [lists[n - 1]];
    }
  }

  lemma ListsFromNext(t: seq<Item>, at: nat, k: nat, lists: seq<seq<int>>, next: nat, list: seq<int>, end: nat)
    requires ListsFrom(t, at, k) == Some((lists, next)) && ListFrom(t, next) == Some((list, end))
    ensures ListsFrom(t, at, k + 1) == Some((lists + [list], end))
  {
  }

  lemma NextListBack(pre: seq<Item>, lists: seq<seq<int>>, n: nat)
    requires n < |lists|
    ensures ListFrom(pre + ListItems(lists), |pre| + |ListItems(lists[..n])|) ==
              Some((lists[n], |pre| + |ListItems(lists[..n + 1])|))
  {
    ListsPrefix(lists, n + 1);
    ListItemsNext(lists, n);
    var before := pre + ListItems(lists[..n]);
    assert before + ListItem(lists[n]) == pre + ListItems(lists[..n + 1]);
    ListBack(pre + ListItems(lists), before, lists[n]);
  }

  lemma EntriesBack(t: seq<Item>, pre: seq<Item>, es: seq<Saved>)
    requires pre + EntryItems(es) <= t
    ensures EntriesAt(t, |pre|, |es|) && EntriesFrom(t, |pre|, |es|) == es
  {
    var whole := pre + EntryItems(es);
    forall i | 0 <= i < |es|
      ensures t[|pre| + i] == Entry(es[i])
    {
      assert t[|pre| + i] == whole[|pre| + i];
    }
    assert forall j | |pre| <= j < |pre| + |es| :: t[j] == Entry(es[j - |pre|]);
  }

  lemma HeaderBack(f: File)
    requires f.nVersion < 256
    ensures var t := Written(f);
            && HeaderReadable(t) && t[0].b == f.nVersion && t[1].b == 32 && t[2].k == f.nKey
            && t[3].n == |f.news| && t[4].n == |f.trieds| && BucketsOf(t) == f.nUBuckets
  {
    var t := Written(f);
    assert t == Header(f) + (EntryItems(f.news) + EntryItems(f.trieds) + ListItems(f.buckets));
    assert forall i | 0 <= i < 6 :: t[i] == Header(f)[i];
    FlipTwice(f.nUBuckets);
  }

  /** The parser reads back every file that can be written. */
  lemma ParseWritten(f: File)
    requires f.nVersion < 256 && |f.news| <= MAX_NEW && |f.trieds| <= MAX_TRIED && Complete(f)
    ensures Parse(Written(f)) == Parsed(f)
  {
    var t := Written(f);
    HeaderBack(f);
    var upto := Header(f) + EntryItems(f.news);
    assert upto <= t && upto + EntryItems(f.trieds) <= t;
    EntriesBack(t, Header(f), f.news);
    EntriesBack(t, upto, f.trieds);
    var pre := upto + EntryItems(f.trieds);
    assert t == pre + ListItems(f.buckets);
    ListsBack(pre, f.buckets, |f.buckets|);
    assert f.buckets[..|f.buckets|] == f.buckets;
  }

  /* ---- The tables bound the counters ---- */

  lemma {:induction false} RowBound(slots: set<Pos>, bucket: nat, n: nat)
    requires forall pos | pos in slots :: pos.bucket == bucket && pos.index < n
    ensures |slots| <= n
  {
    if n == 0 {
      assert slots == {};
    } else {
      RowBound(slots - {Pos(bucket, n - 1)}, bucket, n - 1);
    }
  }

  lemma {:induction false} GridBound(slots: set<Pos>, n: nat)
    requires forall pos | pos in slots :: pos.bucket < n && pos.index < BUCKET_SIZE
    ensures |slots| <= n * BUCKET_SIZE
  {
    if n == 0 {
      assert slots == {};
    } else {
      var row := set pos | pos in slots && pos.bucket == n - 1;
      RowBound(row, n - 1, BUCKET_SIZE);
      GridBound(slots - row, n - 1);
      assert slots == row + (slots - row);
    }
  }

  /** A table has at least as many slots as entries it refers to. */
  lemma {:induction false} SlotsCover(table: Table, ids: set<Id>)
    requires forall id | id in ids :: Refs(table, id) != {}
    ensures |ids| <= |table.Keys|
  {
    if ids != {} {
      var id := Pick(ids);
      var rest := table - Refs(table, id);
      forall x | x in ids - {id}
        ensures Refs(rest, x) != {}
      {
        var pos := Pick(Refs(table, x));
        assert pos in Refs(rest, x);
      }
      SlotsCover(rest, ids - {id});
      assert table.Keys == rest.Keys + Refs(table, id);
    }
  }

  /** The counters of a consistent manager are within the limits that reading enforces. */
  lemma CountersBounded(h: Hashes, s: State)
    requires Inv(h, s, {}, 0)
    ensures 0 <= s.nNew <= MAX_NEW && 0 <= s.nTried <= MAX_TRIED
  {
    forall pos | pos in s.news
      ensures pos.bucket < NEW_BUCKET_COUNT && pos.index < BUCKET_SIZE
    {
      assert NewSlotOk(h, s, pos);
    }
    GridBound(s.news.Keys, NEW_BUCKET_COUNT);
    forall id | id in NewIds(s.mapInfo)
      ensures Refs(s.news, id) != {}
    {
      assert EntryCounted(s, {}, id);
    }
    SlotsCover(s.news, NewIds(s.mapInfo));
    TriedBounded(h, s);
  }

  lemma TriedBounded(h: Hashes, s: State)
    requires Inv(h, s, {}, 0)
    ensures 0 <= s.nTried <= MAX_TRIED
  {
    forall pos | pos in s.tried
      ensures pos.bucket < TRIED_BUCKET_COUNT && pos.index < BUCKET_SIZE
    {
      assert TriedSlotOk(h, s, pos);
    }
    GridBound(s.tried.Keys, TRIED_BUCKET_COUNT);
    forall id | id in TriedIds(s.mapInfo)
      ensures Refs(s.tried, id) != {}
    {
      TriedOnce(h, s, id);
    }
    SlotsCover(s.tried, TriedIds(s.mapInfo));
  }

  /* ---- The round trip ---- */

  /**
   * Whatever stream a consistent manager writes is accepted, and gives back a consistent manager with
   * the same key, entries, reference counts and slots, its entries renumbered one to one.
   */
  lemma RoundTrip(h: Hashes, s: State)
    requires Inv(h, s, {}, 0)
    ensures Writable(s) && Listed(s) && ListsOnce(s)
    ensures Parse(Written(FileOf(s))) == Parsed(FileOf(s))
    ensures Restored(s, Build(h, FileOf(s))) && Inv(h, Build(h, FileOf(s)), {}, 0)
  {
    BuildRestores(h, s);
    WrittenIsSound(h, s);
    CountersBounded(h, s);
    ParseWritten(FileOf(s));
  }
}
