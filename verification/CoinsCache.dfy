/**
 * A stack of write-back caches over a coin database, as a value.
 *
 * Every cached entry carries the two flags of the source: DIRTY (may differ from the view below)
 * and FRESH (the view below has no unspent output for this transaction). The flags let a flush
 * skip or delete entries; `RunRefinesPlainMaps` says that no run of operations can tell the
 * stack of caches from a stack of plain maps.
 */
module CoinsCache {
  import opened Prelude
  import opened Coins

  type Txid = uint256

  datatype Entry = Entry(coins: Coins, isDirty: bool, isFresh: bool)

  datatype View =
    | Disk(db: map<Txid, Coins>)
    | Cache(entries: map<Txid, Entry>, usage: int, base: View)

  /** The coins a reader of the view sees; a missing transaction reads as pruned. */
  function At(v: View, t: Txid): Coins {
    match v
    case Disk(db) => if t in db then db[t] else EMPTY
    case Cache(entries, _, base) => if t in entries then entries[t].coins else At(base, t)
  }

  /** A read pulls the entry into every cache on the way down. */
  function GetCoins(v: View, t: Txid): (Option<Coins>, View) {
    match v
    case Disk(db) => (if t in db then Some(db[t]) else None, v)
    case Cache(entries, usage, base) =>
      if t in entries then
        (Some(entries[t].coins), v)
      else
        var (found, below) := GetCoins(base, t);
        match found
        case None => (None, Cache(entries, usage, below))
        case Some(c) => (found, Cache(entries[t := Entry(c, false, c.IsPruned())], usage + Usage(c), below))
  }

  /** What a modifier is opened on: the entry marked DIRTY, and the memory charged for it so far. */
  function BeginModify(v: View, t: Txid): (View, nat)
    requires v.Cache?
  {
    if t in v.entries then
      (v.(entries := v.entries[t := v.entries[t].(isDirty := true)]), Usage(v.entries[t].coins))
    else
      var (found, below) := GetCoins(v.base, t);
      var e := match found
        case None => Entry(EMPTY, true, true)
        case Some(c) => Entry(c, true, c.IsPruned());
      (Cache(v.entries[t := e], v.usage, below), 0)
  }

  /** Open a modifier on a transaction assumed new, without looking below. */
  function BeginModifyNew(v: View, t: Txid): (View, nat)
    requires v.Cache?
  {
    (v.(entries := v.entries[t := Entry(EMPTY, true, true)]), 0)
  }

  /** Release a modifier through which `updated` was written. */
  function EndModify(v: View, t: Txid, charged: nat, updated: Coins): View
    requires v.Cache? && t in v.entries
  {
    var c := updated.Cleanup();
    var e := v.entries[t];
    if e.isFresh && c.IsPruned() then
      v.(entries := v.entries - {t}, usage := v.usage - charged)
    else
      v.(entries := v.entries[t := e.(coins := c)], usage := v.usage - charged + Usage(c))
  }

  function Modify(v: View, t: Txid, updated: Coins): View
    requires v.Cache?
  {
    var (handle, charged) := BeginModify(v, t);
    EndModify(handle, t, charged, updated)
  }

  function ModifyNew(v: View, t: Txid, updated: Coins): View
    requires v.Cache?
  {
    var (handle, charged) := BeginModifyNew(v, t);
    EndModify(handle, t, charged, updated)
  }

  /** One child entry written into the parent's slot for the same transaction. */
  function MergeEntry(child: Entry, parent: Option<Entry>): Option<Entry> {
    if !child.isDirty then
      parent
    else
      match parent
      case None => if child.coins.IsPruned() then None else Some(Entry(child.coins, true, true))
      case Some(p) =>
        if p.isFresh && child.coins.IsPruned() then None else Some(Entry(child.coins, true, p.isFresh))
  }

  function MergeAt(child: map<Txid, Entry>, parent: map<Txid, Entry>, t: Txid): Option<Entry> {
    if t in child then MergeEntry(child[t], Get(parent, t)) else Get(parent, t)
  }

  function Merge(child: map<Txid, Entry>, parent: map<Txid, Entry>): (r: map<Txid, Entry>)
    ensures forall k :: Get(r, k) == MergeAt(child, parent, k)
  {
    map t | t in child.Keys + parent.Keys && MergeAt(child, parent, t).Some? :: MergeAt(child, parent, t).value
  }

  /** The database write: a pruned record is erased. */
  function MergeDiskAt(child: map<Txid, Entry>, db: map<Txid, Coins>, t: Txid): Option<Coins> {
    if t in child && child[t].isDirty then (if child[t].coins.IsPruned() then None else Some(child[t].coins))
    else Get(db, t)
  }

  function MergeDisk(child: map<Txid, Entry>, db: map<Txid, Coins>): (r: map<Txid, Coins>)
    ensures forall k :: Get(r, k) == MergeDiskAt(child, db, k)
  {
    map t | t in child.Keys + db.Keys && MergeDiskAt(child, db, t).Some? :: MergeDiskAt(child, db, t).value
  }

  ghost function BatchWrite(v: View, child: map<Txid, Entry>): View {
    match v
    case Disk(db) => Disk(MergeDisk(child, db))
    case Cache(entries, usage, base) =>
      var merged := Merge(child, entries);
      Cache(merged, usage + SumUsage(merged) - SumUsage(entries), base)
  }

  ghost function Flush(v: View): View
    requires v.Cache?
  {
    Cache(map[], 0, BatchWrite(v.base, v.entries))
  }

  /* ---- The invariant ---- */

  ghost predicate EntryOk(e: Entry, t: Txid, base: View) {
    && (e.isFresh ==> At(base, t).IsPruned())
    && (!e.isFresh && base.Cache? ==> t in base.entries)
    && (!e.isDirty ==> e.coins.Equiv(At(base, t)))
  }

  /** FRESH and DIRTY tell the truth at every level. */
  ghost predicate Valid(v: View) {
    match v
    case Disk(_) => true
    case Cache(entries, usage, base) =>
      && Valid(base)
      && (forall t | t in entries :: EntryOk(entries[t], t, base))
  }

  /** The memory charged for the coins cached in one layer. */
  ghost function SumUsage(entries: map<Txid, Entry>): nat {
    SumOver(entries, EntryUsage)
  }

  function EntryUsage(e: Entry): nat {
    Usage(e.coins)
  }

  lemma SumUsageSplit(entries: map<Txid, Entry>, t: Txid)
    requires t in entries
    ensures SumUsage(entries) == Usage(entries[t].coins) + SumUsage(entries - {t})
  {
    SumOverSplit(entries, EntryUsage, t);
  }

  lemma SumUsagePut(entries: map<Txid, Entry>, t: Txid, e: Entry)
    ensures SumUsage(entries[t := e]) == SumUsage(entries - {t}) + Usage(e.coins)
  {
    SumUsageSplit(entries[t := e], t);
    assert entries[t := e] - {t} == entries - {t};
  }

  /* ---- Reading ---- */

  /** A read returns what is visible, changes no visible coin, keeps every cached entry and the invariant. */
  lemma {:induction false} GetCoinsReads(v: View, t: Txid)
    requires Valid(v)
    ensures var (found, after) := GetCoins(v, t);
            && Valid(after)
            && (after.Cache? <==> v.Cache?)
            && (match found
                case None => At(v, t) == EMPTY
                case Some(c) => At(v, t) == c && (after.Cache? ==> t in after.entries))
            && (forall x :: At(after, x) == At(v, x))
            && (v.Cache? ==> v.entries.Keys <= after.entries.Keys)
  {
    match v
    case Disk(_) =>
    case Cache(entries, usage, base) =>
      if t !in entries {
        GetCoinsReads(base, t);
        var (found, below) := GetCoins(base, t);
        var after := GetCoins(v, t).1;
        forall x | x in after.entries
          ensures EntryOk(after.entries[x], x, below)
        {
          if x in entries {
            assert EntryOk(entries[x], x, base);
          }
        }
      }
  }

  /* ---- Writing ---- */

  /** Opening a modifier hands out the visible coins. */
  lemma BeginModifyReads(v: View, t: Txid)
    requires Valid(v) && v.Cache?
    ensures BeginModify(v, t).0.Cache? && t in BeginModify(v, t).0.entries
    ensures BeginModify(v, t).0.entries[t].coins == At(v, t)
  {
    GetCoinsReads(v.base, t);
  }

  /** A released modification changes the visible coins of its own transaction and of no other. */
  lemma ModifyWrites(v: View, t: Txid, updated: Coins)
    requires Valid(v) && v.Cache?
    ensures Valid(Modify(v, t, updated)) && Modify(v, t, updated).Cache?
    ensures At(Modify(v, t, updated), t).Equiv(updated.Cleanup())
    ensures forall x | x != t :: At(Modify(v, t, updated), x) == At(v, x)
    ensures forall x :: At(Modify(v, t, updated).base, x) == At(v.base, x)
    ensures Valid(Modify(v, t, updated).base)
    ensures Modify(v, t, updated).base.Cache? <==> v.base.Cache?
  {
    GetCoinsReads(v.base, t);
    var after := Modify(v, t, updated);
    forall x | x in after.entries
      ensures EntryOk(after.entries[x], x, after.base)
    {
      if x in v.entries {
        assert EntryOk(v.entries[x], x, v.base);
      }
    }
    if t in v.entries {
      assert EntryOk(v.entries[t], t, v.base);
    }
  }

  /** The same for a new transaction, provided the view below has no unspent output of it. */
  lemma ModifyNewWrites(v: View, t: Txid, updated: Coins)
    requires Valid(v) && v.Cache? && At(v.base, t).IsPruned()
    ensures Valid(ModifyNew(v, t, updated)) && ModifyNew(v, t, updated).Cache?
    ensures At(ModifyNew(v, t, updated), t).Equiv(updated.Cleanup())
    ensures forall x | x != t :: At(ModifyNew(v, t, updated), x) == At(v, x)
    ensures ModifyNew(v, t, updated).base == v.base
  {
    var after := ModifyNew(v, t, updated);
    forall x | x in after.entries
      ensures EntryOk(after.entries[x], x, after.base)
    {
      if x != t {
        assert EntryOk(v.entries[x], x, v.base);
      }
    }
  }

  /**
   * When the shortcut is safe. It is not enough that the transaction is invisible: opening it as new,
   * creating outputs and spending them all brings it back to invisible if and only if the view below
   * has no unspent output of it, because the FRESH entry is erased rather than written down.
   */
  lemma ModifyNewIsSafeIff(v: View, t: Txid, created: Coins)
    requires v.Cache? && !created.IsPruned()
    ensures At(Modify(ModifyNew(v, t, created), t, EMPTY), t).IsPruned() <==> At(v.base, t).IsPruned()
  {
    CleanupIsPruned(created);
    assert ModifyNew(v, t, created).entries[t].isFresh;
    assert EMPTY.Cleanup() == EMPTY;
  }

  /** A cache that has spent an output kept below, then re-creates and re-spends its transaction, shows it unspent again. */
  lemma ModifyNewResurrectsSpentOutput()
    ensures var c := Coins(false, [TxOut(5, [])], 1, 1);
            var v := Modify(Cache(map[], 0, Disk(map[7 := c])), 7, EMPTY);
            && Valid(v)
            && At(v, 7).IsPruned()
            && At(Modify(ModifyNew(v, 7, c), 7, EMPTY), 7) == c
            && !c.IsPruned()
  {
    var c := Coins(false, [TxOut(5, [])], 1, 1);
    assert !c.vout[0].IsNull();
    var v0 := Cache(map[], 0, Disk(map[7 := c]));
    ModifyWrites(v0, 7, EMPTY);
    assert EMPTY.Cleanup() == EMPTY;
    var v1 := ModifyNew(Modify(v0, 7, EMPTY), 7, c);
    assert c.Cleanup() == c;
    assert v1.entries[7] == Entry(c, true, true);
  }

  /* ---- Flushing ---- */

  /** The parent has an entry, or the child's entry is FRESH: the assertion made while merging. */
  ghost predicate FreshAssertion(child: map<Txid, Entry>, parent: map<Txid, Entry>) {
    forall t | t in child && child[t].isDirty && t !in parent && !child[t].coins.IsPruned() :: child[t].isFresh
  }

  lemma FreshAssertionHolds(v: View)
    requires Valid(v) && v.Cache? && v.base.Cache?
    ensures FreshAssertion(v.entries, v.base.entries)
  {
    forall t | t in v.entries && v.entries[t].isDirty && t !in v.base.entries && !v.entries[t].coins.IsPruned()
      ensures v.entries[t].isFresh
    {
      assert EntryOk(v.entries[t], t, v.base);
    }
  }

  lemma MergeEntryOk(v: View, t: Txid)
    requires Valid(v) && v.Cache? && v.base.Cache?
    ensures var m := MergeAt(v.entries, v.base.entries, t);
            && (match m
                case None => At(v.base.base, t).Equiv(At(v, t))
                case Some(e) => e.coins.Equiv(At(v, t)) && EntryOk(e, t, v.base.base))
  {
    if t in v.entries {
      assert EntryOk(v.entries[t], t, v.base);
    }
    if t in v.base.entries {
      assert EntryOk(v.base.entries[t], t, v.base.base);
    }
  }

  /** A flush leaves the visible coins of the flushed cache unchanged, gives them to the view below, and cannot trip the assertion. */
  lemma FlushKeepsView(v: View)
    requires Valid(v) && v.Cache?
    ensures Valid(Flush(v))
    ensures forall t :: At(Flush(v), t).Equiv(At(v, t))
    ensures forall t :: At(Flush(v).base, t).Equiv(At(v, t))
    ensures Flush(v).base.Cache? <==> v.base.Cache?
    ensures v.base.Cache? ==> FreshAssertion(v.entries, v.base.entries) && Flush(v).base.base == v.base.base
  {
    match v.base
    case Disk(db) =>
      forall t
        ensures At(Flush(v), t).Equiv(At(v, t))
      {
        if t in v.entries {
          assert EntryOk(v.entries[t], t, v.base);
        }
      }
    case Cache(entries, usage, grand) =>
      forall t
        ensures At(Flush(v), t).Equiv(At(v, t))
        ensures t in Flush(v).base.entries ==> EntryOk(Flush(v).base.entries[t], t, grand)
      {
        MergeEntryOk(v, t);
      }
      FreshAssertionHolds(v);
  }

  /* ---- Memory accounting ---- */

  ghost predicate Charged(v: View) {
    v.Cache? ==> v.usage == SumUsage(v.entries) && Charged(v.base)
  }

  lemma {:induction false} GetCoinsCharged(v: View, t: Txid)
    requires Charged(v)
    ensures Charged(GetCoins(v, t).1)
  {
    if v.Cache? && t !in v.entries {
      GetCoinsCharged(v.base, t);
      var (found, _) := GetCoins(v.base, t);
      if found.Some? {
        SumUsagePut(v.entries, t, Entry(found.value, false, found.value.IsPruned()));
        assert v.entries - {t} == v.entries;
      }
    }
  }

  /** Every modification, fetch and flush keeps each layer's counter equal to the memory of what it caches. */
  lemma ModifyCharged(v: View, t: Txid, updated: Coins)
    requires Charged(v) && v.Cache?
    ensures Charged(Modify(v, t, updated))
  {
    GetCoinsCharged(v.base, t);
    var (handle, charged) := BeginModify(v, t);
    EndModifyCharged(v.entries, handle, t, charged, updated);
  }

  lemma EndModifyCharged(before: map<Txid, Entry>, handle: View, t: Txid, charged: nat, updated: Coins)
    requires handle.Cache? && t in handle.entries
    requires handle.entries - {t} == before - {t} && handle.usage == SumUsage(before)
    ensures EndModify(handle, t, charged, updated).usage
         == SumUsage(EndModify(handle, t, charged, updated).entries) + (if t in before then Usage(before[t].coins) else 0) - charged
  {
    var after := EndModify(handle, t, charged, updated);
    if t in before {
      SumUsageSplit(before, t);
    } else {
      assert before - {t} == before;
    }
    if t in after.entries {
      SumUsageSplit(after.entries, t);
    }
    assert after.entries - {t} == before - {t};
    if t !in after.entries {
      assert after.entries - {t} == after.entries;
    }
  }

  /** The shortcut forgets what was charged before: the counter stays right exactly when that was nothing. */
  lemma ModifyNewChargedIff(v: View, t: Txid, updated: Coins)
    requires Charged(v) && v.Cache?
    ensures Charged(ModifyNew(v, t, updated)) <==> (t in v.entries ==> Usage(v.entries[t].coins) == 0)
  {
    EndModifyCharged(v.entries, BeginModifyNew(v, t).0, t, 0, updated);
  }

  /** By how the merge defines the counter; that the source's loop keeps it so is proved of the object. */
  lemma FlushCharged(v: View)
    requires Charged(v) && v.Cache?
    ensures Charged(Flush(v))
  {
  }

  /* ---- Whole runs ---- */

  /** Operations on the top of the stack; a written value stands for whatever the caller stored through its modifier. */
  datatype Step =
    | Fetch(t: Txid)
    | Write(t: Txid, c: Coins)
    | WriteNew(t: Txid, c: Coins)
    | FlushTop
    | PushCache
    | DropCache

  ghost function Exec(v: View, s: Step): View {
    if s.Fetch? then GetCoins(v, s.t).1
    else if s.PushCache? then Cache(map[], 0, v)
    else if v.Disk? then v
    else
      match s
      case Write(t, c) => Modify(v, t, c)
      case WriteNew(t, c) => ModifyNew(v, t, c)
      case FlushTop => Flush(v)
      case DropCache => v.base
  }

  /** The reference: one plain map per level, top first. */
  type Plain = seq<map<Txid, Coins>>

  function Lookup(m: map<Txid, Coins>, t: Txid): Coins {
    if t in m then m[t] else EMPTY
  }

  /** What the caller must guarantee, in terms of the plain maps only. */
  predicate Allowed(p: Plain, s: Step) {
    match s
    case Fetch(_) => |p| >= 1
    case PushCache => |p| >= 1
    case WriteNew(t, _) => |p| >= 2 && Lookup(p[1], t).IsPruned()
    case _ => |p| >= 2
  }

  function ExecPlain(p: Plain, s: Step): Plain
    requires Allowed(p, s)
  {
    match s
    case Fetch(_) => p
    case Write(t, c) => p[0 := p[0][t := c.Cleanup()]]
    case WriteNew(t, c) => p[0 := p[0][t := c.Cleanup()]]
    case FlushTop => p[1 := p[0]]
    case PushCache => [p[0]] + p
    case DropCache => p[1..]
  }

  ghost predicate Shows(v: View, m: map<Txid, Coins>) {
    forall t :: At(v, t).Equiv(Lookup(m, t))
  }

  ghost predicate Refines(v: View, p: Plain) {
    match v
    case Disk(_) => |p| == 1 && Shows(v, p[0])
    case Cache(_, _, base) => |p| >= 2 && Shows(v, p[0]) && Refines(base, p[1..])
  }

  predicate AllAllowed(p: Plain, run: seq<Step>)
    decreases |run|
  {
    run == [] || (Allowed(p, run[0]) && AllAllowed(ExecPlain(p, run[0]), run[1..]))
  }

  function RunPlain(p: Plain, run: seq<Step>): Plain
    requires AllAllowed(p, run)
    decreases |run|
  {
    if run == [] then p else RunPlain(ExecPlain(p, run[0]), run[1..])
  }

  ghost function Run(v: View, run: seq<Step>): View
    decreases |run|
  {
    if run == [] then v else Run(Exec(v, run[0]), run[1..])
  }

  /** Two views with the same visible coins at every level refine the same plain maps. */
  lemma {:induction false} GetCoinsRefines(v: View, t: Txid, p: Plain)
    requires Valid(v) && Refines(v, p)
    ensures Refines(GetCoins(v, t).1, p)
  {
    GetCoinsReads(v, t);
    if v.Cache? && t !in v.entries {
      GetCoinsRefines(v.base, t, p[1..]);
    }
  }

  lemma StepRefines(v: View, s: Step, p: Plain)
    requires Valid(v) && Refines(v, p) && Allowed(p, s)
    ensures Valid(Exec(v, s)) && Refines(Exec(v, s), ExecPlain(p, s))
  {
    match s
    case Fetch(t) =>
      GetCoinsReads(v, t);
      GetCoinsRefines(v, t, p);
    case Write(t, c) =>
      ModifyWrites(v, t, c);
      GetCoinsRefines(v.base, t, p[1..]);
      assert ExecPlain(p, s)[1..] == p[1..];
    case WriteNew(t, c) =>
      assert At(v.base, t).Equiv(Lookup(p[1..][0], t));
      ModifyNewWrites(v, t, c);
      assert ExecPlain(p, s)[1..] == p[1..];
    case FlushTop =>
      FlushKeepsView(v);
      assert ExecPlain(p, s)[1..] == [p[0]] + p[2..];
      assert p[1..][1..] == p[2..];
    case PushCache =>
      assert ExecPlain(p, s)[1..] == p;
    case DropCache =>
  }

  /**
   * For every stack of caches and every run of reads, modifications, creations, flushes, pushed and
   * dropped caches, each level shows exactly what one plain map per level would hold.
   */
  lemma {:induction false} RunRefinesPlainMaps(v: View, run: seq<Step>, p: Plain)
    requires Valid(v) && Refines(v, p) && AllAllowed(p, run)
    ensures Valid(Run(v, run)) && Refines(Run(v, run), RunPlain(p, run))
    decreases |run|
  {
    if run != [] {
      StepRefines(v, run[0], p);
      RunRefinesPlainMaps(Exec(v, run[0]), run[1..], ExecPlain(p, run[0]));
    }
  }

  /* ---- What the database holds ---- */

  /** No record of the database is pruned, and no cache keeps a transaction that was created and spent above it. */
  ghost predicate Tidy(v: View) {
    match v
    case Disk(db) => forall t | t in db :: !db[t].IsPruned()
    case Cache(entries, _, base) =>
      && Tidy(base)
      && forall t | t in entries :: !(entries[t].isDirty && entries[t].isFresh && entries[t].coins.IsPruned())
  }

  lemma {:induction false} GetCoinsTidy(v: View, t: Txid)
    requires Tidy(v)
    ensures Tidy(GetCoins(v, t).1)
  {
    if v.Cache? && t !in v.entries {
      GetCoinsTidy(v.base, t);
    }
  }

  lemma FlushTidy(v: View)
    requires Tidy(v) && v.Cache?
    ensures Tidy(Flush(v))
  {
    if v.base.Disk? {
      var db := Flush(v).base.db;
      forall t | t in db
        ensures !db[t].IsPruned()
      {
        assert Get(db, t) == MergeDiskAt(v.entries, v.base.db, t);
      }
    } else {
      var merged := Flush(v).base.entries;
      forall t | t in merged
        ensures !(merged[t].isDirty && merged[t].isFresh && merged[t].coins.IsPruned())
      {
        assert Get(merged, t) == MergeAt(v.entries, v.base.entries, t);
      }
    }
  }

  lemma StepTidy(v: View, s: Step)
    requires Tidy(v)
    ensures Tidy(Exec(v, s))
  {
    match s
    case Fetch(t) => GetCoinsTidy(v, t);
    case Write(t, c) => if v.Cache? { GetCoinsTidy(v.base, t); }
    case WriteNew(t, c) =>
    case FlushTop => if v.Cache? { FlushTidy(v); }
    case PushCache =>
    case DropCache =>
  }

  predicate Unspent(vout: seq<TxOut>) {
    exists i | 0 <= i < |vout| :: vout[i].nValue != -1
  }

  function Bottom(v: View): View {
    match v
    case Disk(_) => v
    case Cache(_, _, base) => Bottom(base)
  }

  lemma {:induction false} BottomRefines(v: View, p: Plain)
    requires Refines(v, p) && Tidy(v)
    ensures |p| > 0 && Bottom(v).Disk? && Tidy(Bottom(v)) && Shows(Bottom(v), p[|p| - 1])
  {
    if v.Cache? {
      BottomRefines(v.base, p[1..]);
    }
  }

  /** A database has records of exactly the transactions of which a plain map has an unspent output, and reads find those. */
  ghost predicate RecordsAre(disk: View, m: map<Txid, Coins>) {
    disk.Disk? && forall t ::
      && (t in disk.db <==> Unspent(Lookup(m, t).vout))
      && GetCoins(disk, t).0 == if t in disk.db then Some(Lookup(m, t)) else None
  }

  lemma BottomRecords(v: View, p: Plain)
    requires Valid(v) && Refines(v, p) && Tidy(v)
    ensures RecordsAre(Bottom(v), p[|p| - 1])
  {
    BottomRefines(v, p);
    forall t
      ensures Lookup(p[|p| - 1], t).Equiv(At(Bottom(v), t))
    {
      assert At(Bottom(v), t).Equiv(Lookup(p[|p| - 1], t));
    }
  }

  /** Over every run, the database has a record exactly of the transactions that have an unspent output at the bottom. */
  lemma {:induction false} RunKeepsDatabaseTidy(v: View, run: seq<Step>, p: Plain)
    requires Valid(v) && Refines(v, p) && AllAllowed(p, run) && Tidy(v)
    ensures Tidy(Run(v, run)) && |RunPlain(p, run)| > 0
    ensures RecordsAre(Bottom(Run(v, run)), RunPlain(p, run)[|RunPlain(p, run)| - 1])
    decreases |run|
  {
    if run != [] {
      StepRefines(v, run[0], p);
      StepTidy(v, run[0]);
      RunKeepsDatabaseTidy(Exec(v, run[0]), run[1..], ExecPlain(p, run[0]));
    } else {
      BottomRecords(v, p);
    }
  }

  /* ---- What a flush writes ---- */

  /** The transactions that a flush of the topmost cache would write. */
  function Pending(v: View): set<Txid> {
    if v.Disk? then {} else set t | t in v.entries && v.entries[t].isDirty
  }

  /** A view knows a transaction if some level below or here has an entry of it, pruned or not. */
  predicate Knows(v: View, t: Txid) {
    match v
    case Disk(db) => t in db
    case Cache(entries, _, base) => t in entries || Knows(base, t)
  }

  ghost predicate SamePending(v: View, after: View) {
    && Pending(after) == Pending(v)
    && (v.Cache? <==> after.Cache?)
    && (v.Cache? ==> SamePending(v.base, after.base))
  }

  /** A read finds exactly what some level knows, lets no level forget or learn of more, and leaves nothing to write. */
  lemma {:induction false} ReadsLeaveNothing(v: View, t: Txid)
    ensures GetCoins(v, t).0.Some? <==> Knows(v, t)
    ensures SamePending(v, GetCoins(v, t).1)
    ensures v.Cache? ==> GetCoins(v, t).1.entries.Keys == v.entries.Keys + (if Knows(v, t) then {t} else {})
  {
    if v.Cache? && t !in v.entries {
      ReadsLeaveNothing(v.base, t);
    } else {
      SamePendingSelf(v);
    }
  }

  lemma {:induction false} SamePendingSelf(v: View)
    ensures SamePending(v, v)
  {
    if v.Cache? {
      SamePendingSelf(v.base);
    }
  }

  /**
   * A flush passes on what is pending and nothing else: every other record and entry below stays as it is, and
   * in a cache below the written entries are pending in their turn.
   */
  lemma FlushPasses(v: View, t: Txid)
    requires v.Cache?
    ensures v.base.Disk? && t !in Pending(v) ==> Get(Flush(v).base.db, t) == Get(v.base.db, t)
    ensures v.base.Cache? && t !in Pending(v) ==> Get(Flush(v).base.entries, t) == Get(v.base.entries, t)
    ensures v.base.Cache? ==> Flush(v).base.base == v.base.base
    ensures v.base.Cache? && t in Pending(v) ==>
              var below := Get(Flush(v).base.entries, t);
              below.None? || (t in Pending(Flush(v).base) && below.value.coins == v.entries[t].coins)
  {
    if v.base.Disk? {
      assert Get(Flush(v).base.db, t) == MergeDiskAt(v.entries, v.base.db, t);
    } else {
      assert Get(Flush(v).base.entries, t) == MergeAt(v.entries, v.base.entries, t);
    }
  }

  /** Only what was written since the last flush is pending, and a flush leaves an empty cache. */
  lemma StepPending(v: View, s: Step)
    requires v.Cache?
    ensures Exec(v, s).Cache? && !s.DropCache? ==>
              match s
              case Fetch(_) => Pending(Exec(v, s)) == Pending(v)
              case Write(t, _) => Pending(v) - {t} <= Pending(Exec(v, s)) <= Pending(v) + {t}
              case WriteNew(t, _) => Pending(v) - {t} <= Pending(Exec(v, s)) <= Pending(v) + {t}
              case _ => Pending(Exec(v, s)) == {} && Exec(v, s).entries == map[] && Exec(v, s).usage == 0
    ensures (s.Write? || s.WriteNew?) && Unspent(s.c.vout) ==> s.t in Pending(Exec(v, s))
  {
    if s.Fetch? {
      ReadsLeaveNothing(v, s.t);
    } else if s.Write? || s.WriteNew? {
      CleanupIsPruned(s.c);
    }
  }

  /* ---- Memory accounting over whole runs ---- */

  /** Every stored value has been trimmed, so that a pruned one occupies no memory. */
  ghost predicate Trimmed(v: View) {
    match v
    case Disk(db) => forall t | t in db :: db[t].Cleanup() == db[t]
    case Cache(entries, _, base) => Trimmed(base) && forall t | t in entries :: entries[t].coins.Cleanup() == entries[t].coins
  }

  lemma {:induction false} GetCoinsTrimmed(v: View, t: Txid)
    requires Trimmed(v)
    ensures Trimmed(GetCoins(v, t).1)
    ensures GetCoins(v, t).0.Some? ==> GetCoins(v, t).0.value.Cleanup() == GetCoins(v, t).0.value
  {
    if v.Cache? && t !in v.entries {
      GetCoinsTrimmed(v.base, t);
    }
  }

  lemma {:induction false} TrimIdempotent(vout: seq<TxOut>)
    ensures Trim(Trim(vout)) == Trim(vout)
  {
  }

  lemma EndModifyTrimmed(v: View, t: Txid, charged: nat, updated: Coins)
    requires v.Cache? && t in v.entries && Trimmed(v)
    ensures Trimmed(EndModify(v, t, charged, updated))
  {
    TrimIdempotent(updated.vout);
  }

  lemma StepTrimmed(v: View, s: Step)
    requires Trimmed(v)
    ensures Trimmed(Exec(v, s))
  {
    assert EMPTY.Cleanup() == EMPTY;
    match s
    case Fetch(t) =>
      GetCoinsTrimmed(v, t);
    case Write(t, c) =>
      if v.Cache? {
        GetCoinsTrimmed(v.base, t);
        EndModifyTrimmed(BeginModify(v, t).0, t, BeginModify(v, t).1, c);
      }
    case WriteNew(t, c) =>
      if v.Cache? {
        EndModifyTrimmed(BeginModifyNew(v, t).0, t, BeginModifyNew(v, t).1, c);
      }
    case FlushTop =>
      if v.Cache? {
        FlushTrimmed(v);
      }
    case PushCache =>
    case DropCache =>
  }

  lemma FlushTrimmed(v: View)
    requires v.Cache? && Trimmed(v)
    ensures Trimmed(Flush(v))
  {
  }

  /** A transaction is created as new only while its outputs are invisible here as well as below. */
  predicate CreatesUnseen(p: Plain, run: seq<Step>)
    requires AllAllowed(p, run)
    decreases |run|
  {
    run == [] ||
    (&& (run[0].WriteNew? ==> Lookup(p[0], run[0].t).IsPruned())
     && CreatesUnseen(ExecPlain(p, run[0]), run[1..]))
  }

  lemma StepCharged(v: View, s: Step)
    requires Charged(v)
    requires s.WriteNew? && v.Cache? && s.t in v.entries ==> Usage(v.entries[s.t].coins) == 0
    ensures Charged(Exec(v, s))
  {
    match s
    case Fetch(t) => GetCoinsCharged(v, t);
    case Write(t, c) => if v.Cache? { ModifyCharged(v, t, c); }
    case WriteNew(t, c) => if v.Cache? { ModifyNewChargedIff(v, t, c); }
    case FlushTop => if v.Cache? { FlushCharged(v); }
    case PushCache =>
    case DropCache =>
  }

  /** Over every such run the usage counter of each level is exactly the memory of the coins it caches. */
  lemma {:induction false} RunCharged(v: View, run: seq<Step>, p: Plain)
    requires Valid(v) && Refines(v, p) && AllAllowed(p, run) && CreatesUnseen(p, run)
    requires Charged(v) && Trimmed(v)
    ensures Charged(Run(v, run))
    decreases |run|
  {
    if run != [] {
      var s := run[0];
      if s.WriteNew? && s.t in v.entries {
        assert At(v, s.t).Equiv(Lookup(p[0], s.t));
        CleanupIsPruned(v.entries[s.t].coins);
      }
      StepCharged(v, s);
      StepTrimmed(v, s);
      StepRefines(v, s, p);
      RunCharged(Exec(v, s), run[1..], ExecPlain(p, s));
    }
  }
}
