/**
 * The revealed nullifiers of one shielded pool, through a stack of caches. Unlike coins and anchors a
 * negative answer is cached too, so a cache may hold many entries that say nothing new.
 */
module NullifierCache {
  import opened Prelude

  type Nullifier = uint256

  datatype Entry = Entry(entered: bool, isDirty: bool)

  datatype View =
    | Disk(spent: set<Nullifier>)
    | Cache(entries: map<Nullifier, Entry>, base: View)

  predicate Spent(v: View, n: Nullifier) {
    match v
    case Disk(spent) => n in spent
    case Cache(entries, base) => if n in entries then entries[n].entered else Spent(base, n)
  }

  function GetNullifier(v: View, n: Nullifier): (bool, View) {
    match v
    case Disk(spent) => (n in spent, v)
    case Cache(entries, base) =>
      if n in entries then (entries[n].entered, v)
      else
        var (tmp, below) := GetNullifier(base, n);
        (tmp, Cache(entries[n := Entry(tmp, false)], below))
  }

  /** Mark the nullifiers of a transaction, in order. */
  function SetNullifiers(v: View, ns: seq<Nullifier>, spent: bool): View
    requires v.Cache?
    decreases |ns|
  {
    if ns == [] then v
    else SetNullifiers(v.(entries := v.entries[ns[0] := Entry(spent, true)]), ns[1..], spent)
  }

  function MergeEntry(child: Entry, parent: Option<Entry>): Option<Entry> {
    if !child.isDirty then parent
    else if parent.None? then Some(Entry(child.entered, true))
    else if parent.value.entered != child.entered then Some(Entry(child.entered, true))
    else parent
  }

  function MergeAt(child: map<Nullifier, Entry>, parent: map<Nullifier, Entry>, n: Nullifier): Option<Entry> {
    if n in child then MergeEntry(child[n], Get(parent, n)) else Get(parent, n)
  }

  function Merge(child: map<Nullifier, Entry>, parent: map<Nullifier, Entry>): (r: map<Nullifier, Entry>)
    ensures forall k :: Get(r, k) == MergeAt(child, parent, k)
  {
    map n | n in child.Keys + parent.Keys && MergeAt(child, parent, n).Some? :: MergeAt(child, parent, n).value
  }

  function MergeDisk(child: map<Nullifier, Entry>, spent: set<Nullifier>): set<Nullifier> {
    set n | n in child.Keys + spent && (if n in child && child[n].isDirty then child[n].entered else n in spent)
  }

  function BatchWrite(v: View, child: map<Nullifier, Entry>): View {
    match v
    case Disk(spent) => Disk(MergeDisk(child, spent))
    case Cache(entries, base) => Cache(Merge(child, entries), base)
  }

  function Flush(v: View): View
    requires v.Cache?
  {
    Cache(map[], BatchWrite(v.base, v.entries))
  }

  /** The nullifiers that a flush of the topmost cache would write. */
  function Pending(v: View): set<Nullifier> {
    if v.Disk? then {} else set n | n in v.entries && v.entries[n].isDirty
  }

  /**
   * A flush passes on what is pending and nothing else. In a cache below, only the entries that it adds or
   * changes become pending.
   */
  lemma FlushPasses(v: View, n: Nullifier)
    requires v.Cache?
    ensures v.base.Disk? && n !in Pending(v) ==> (n in Flush(v).base.spent <==> n in v.base.spent)
    ensures v.base.Cache? ==>
              var was, now := Get(v.base.entries, n), Get(Flush(v).base.entries, n);
              if n !in Pending(v) || (was.Some? && was.value.entered == v.entries[n].entered) then now == was
              else n in Pending(Flush(v).base) && now.value.entered == v.entries[n].entered
    ensures v.base.Cache? ==> Flush(v).base.base == v.base.base
  {
    if v.base.Cache? {
      assert Get(Flush(v).base.entries, n) == MergeAt(v.entries, v.base.entries, n);
    }
  }

  /** A marked nullifier is pending, and a lookup leaves nothing to write. */
  lemma {:induction false} MarksPending(v: View, ns: seq<Nullifier>, spent: bool)
    requires v.Cache?
    ensures Pending(SetNullifiers(v, ns, spent)) == Pending(v) + (set n | n in ns)
    ensures forall n :: Pending(GetNullifier(v, n).1) == Pending(v)
    decreases |ns|
  {
    if ns != [] {
      var w := v.(entries := v.entries[ns[0] := Entry(spent, true)]);
      MarksPending(w, ns[1..], spent);
      assert Pending(w) == Pending(v) + {ns[0]};
      assert (set n | n in ns) == {ns[0]} + (set n | n in ns[1..]);
    }
    forall n
      ensures Pending(GetNullifier(v, n).1) == Pending(v)
    {
      assert forall m | m in v.entries :: m in GetNullifier(v, n).1.entries;
    }
  }

  /** An entry that is not DIRTY agrees with the view below. */
  ghost predicate Valid(v: View) {
    v.Cache? ==> Valid(v.base) && forall n | n in v.entries && !v.entries[n].isDirty :: v.entries[n].entered == Spent(v.base, n)
  }

  datatype Step = Read(n: Nullifier) | Mark(ns: seq<Nullifier>, spent: bool) | FlushTop | PushCache | DropCache

  /** The reference: one plain set of spent nullifiers per level. */
  type Plain = seq<set<Nullifier>>

  function Elements(ns: seq<Nullifier>): set<Nullifier> {
    set n | n in ns
  }

  predicate Allowed(p: Plain, s: Step) {
    |p| >= (if s.Read? || s.PushCache? then 1 else 2)
  }

  function ExecPlain(p: Plain, s: Step): Plain
    requires Allowed(p, s)
  {
    match s
    case Read(_) => p
    case Mark(ns, spent) => p[0 := if spent then p[0] + Elements(ns) else p[0] - Elements(ns)]
    case FlushTop => p[1 := p[0]]
    case PushCache => [p[0]] + p
    case DropCache => p[1..]
  }

  ghost function Exec(v: View, s: Step): View {
    if s.Read? then GetNullifier(v, s.n).1
    else if s.PushCache? then Cache(map[], v)
    else if v.Disk? then v
    else
      match s
      case Mark(ns, spent) => SetNullifiers(v, ns, spent)
      case FlushTop => Flush(v)
      case DropCache => v.base
  }

  ghost predicate Shows(v: View, s: set<Nullifier>) {
    forall n :: Spent(v, n) <==> n in s
  }

  ghost predicate Refines(v: View, p: Plain) {
    match v
    case Disk(_) => |p| == 1 && Shows(v, p[0])
    case Cache(_, base) => |p| >= 2 && Shows(v, p[0]) && Refines(base, p[1..])
  }

  lemma {:induction false} GetReads(v: View, n: Nullifier, p: Plain)
    requires Valid(v) && Refines(v, p)
    ensures var (tmp, after) := GetNullifier(v, n);
            && tmp == Spent(v, n) && Valid(after) && Refines(after, p)
            && forall x :: Spent(after, x) == Spent(v, x)
  {
    if v.Cache? && n !in v.entries {
      GetReads(v.base, n, p[1..]);
    }
  }

  lemma {:induction false} SetMarks(v: View, ns: seq<Nullifier>, spent: bool)
    requires Valid(v) && v.Cache?
    ensures var after := SetNullifiers(v, ns, spent);
            && Valid(after) && after.Cache? && after.base == v.base
            && forall x :: Spent(after, x) == (if x in ns then spent else Spent(v, x))
    decreases |ns|
  {
    if ns != [] {
      SetMarks(v.(entries := v.entries[ns[0] := Entry(spent, true)]), ns[1..], spent);
    }
  }

  lemma FlushKeepsSpent(v: View)
    requires Valid(v) && v.Cache?
    ensures Valid(Flush(v))
    ensures forall n :: Spent(Flush(v), n) == Spent(v, n)
    ensures forall n :: Spent(Flush(v).base, n) == Spent(v, n)
  {
    if v.base.Cache? {
      forall n
        ensures Spent(Flush(v).base, n) == Spent(v, n)
      {
        var m := MergeAt(v.entries, v.base.entries, n);
        assert n in Flush(v).base.entries <==> m.Some?;
      }
    }
  }

  lemma StepRefines(v: View, s: Step, p: Plain)
    requires Valid(v) && Refines(v, p) && Allowed(p, s)
    ensures Valid(Exec(v, s)) && Refines(Exec(v, s), ExecPlain(p, s))
  {
    match s
    case Read(n) =>
      GetReads(v, n, p);
    case Mark(ns, spent) =>
      SetMarks(v, ns, spent);
      assert ExecPlain(p, s)[1..] == p[1..];
    case FlushTop =>
      FlushKeepsSpent(v);
      assert ExecPlain(p, s)[1..][1..] == p[1..][1..];
    case PushCache =>
      assert ExecPlain(p, s)[1..] == p;
    case DropCache =>
  }

  predicate AllAllowed(p: Plain, run: seq<Step>)
    decreases |run|
  {
    run == [] || (Allowed(p, run[0]) && AllAllowed(ExecPlain(p, run[0]), run[1..]))
  }

  function RunPlain(p: Plain, run: seq<Step>): Plain
    requires AllAllowed(p, run)
    decreases |run|
  {
    if run == [] then p else RunPlain(ExecPlain(p, run[0]), run[1..])
  }

  ghost function Run(v: View, run: seq<Step>): View
    decreases |run|
  {
    if run == [] then v else Run(Exec(v, run[0]), run[1..])
  }

  /** Every run through the caches is a run on plain sets, so no cached negative answer can hide a double spend. */
  lemma {:induction false} RunRefinesPlainSets(v: View, run: seq<Step>, p: Plain)
    requires Valid(v) && Refines(v, p) && AllAllowed(p, run)
    ensures Valid(Run(v, run)) && Refines(Run(v, run), RunPlain(p, run))
    decreases |run|
  {
    if run != [] {
      StepRefines(v, run[0], p);
      RunRefinesPlainSets(Exec(v, run[0]), run[1..], ExecPlain(p, run[0]));
    }
  }
}
