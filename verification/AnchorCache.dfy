/**
 * The note-commitment anchors of one shielded pool, through a stack of caches.
 *
 * A cached entry is either entered (visible) or not; both kinds keep the tree. A flush copies the
 * `entered` flag into an existing parent entry but not the tree: that is sound because every entry,
 * entered or not, holds a tree whose root is its key. The root function is a parameter.
 */
module AnchorCache {
  import opened Prelude

  type Root = uint256
  /** An incremental tree, as the commitments appended to it. */
  type Tree = seq<uint256>

  datatype Entry = Entry(entered: bool, tree: Tree, isDirty: bool)

  datatype View =
    | Disk(db: map<Root, Tree>, tip: Root)
    | Cache(entries: map<Root, Entry>, best: Option<Root>, usage: int, base: View)

  /** Memory charged for a tree: one unit per commitment and one for the tree itself. */
  function TreeUsage(tree: Tree): nat {
    1 + |tree|
  }

  /** The tree visible under a root. The database always knows the empty tree. */
  function At(root: Tree -> Root, v: View, rt: Root): Option<Tree> {
    match v
    case Disk(db, _) =>
      if rt == root([]) then Some([]) else if rt in db then Some(db[rt]) else None
    case Cache(entries, _, _, base) =>
      if rt in entries then (if entries[rt].entered then Some(entries[rt].tree) else None) else At(root, base, rt)
  }

  function GetAnchorAt(root: Tree -> Root, v: View, rt: Root): (Option<Tree>, View) {
    match v
    case Disk(_, _) => (At(root, v, rt), v)
    case Cache(entries, best, usage, base) =>
      if rt in entries then
        (if entries[rt].entered then Some(entries[rt].tree) else None, v)
      else
        var (found, below) := GetAnchorAt(root, base, rt);
        if found.None? then (None, Cache(entries, best, usage, below))
        else (found, Cache(entries[rt := Entry(true, found.value, false)], best, usage + TreeUsage(found.value), below))
  }

  /** The best anchor a reader would be given. */
  function Best(v: View): Root {
    match v
    case Disk(_, tip) => tip
    case Cache(_, best, _, base) => if best.Some? then best.value else Best(base)
  }

  /** Reading the best anchor remembers it in every cache that did not know it. */
  function LoadBest(v: View): View {
    match v
    case Disk(_, _) => v
    case Cache(entries, best, usage, base) =>
      if best.Some? then v else Cache(entries, Some(Best(base)), usage, LoadBest(base))
  }

  function PushAnchor(root: Tree -> Root, v: View, tree: Tree): View
    requires v.Cache?
  {
    var v1 := LoadBest(v);
    if Best(v) == root(tree) then v1
    else v1.(entries := v1.entries[root(tree) := Entry(true, tree, true)], best := Some(root(tree)),
             usage := if root(tree) in v1.entries then v1.usage else v1.usage + TreeUsage(tree))
  }

  /** `None` is the failed assertion that the current best anchor can be read. */
  function PopAnchor(root: Tree -> Root, v: View, newrt: Root): Option<View>
    requires v.Cache?
  {
    var v1 := LoadBest(v);
    var cur := Best(v);
    if cur == newrt then Some(v1)
    else
      var (found, v2) := GetAnchorAt(root, v1, cur);
      if found.None? || v2.Disk? || cur !in v2.entries then None
      else Some(v2.(entries := v2.entries[cur := v2.entries[cur].(entered := false, isDirty := true)], best := Some(newrt)))
  }

  function MergeEntry(child: Entry, parent: Option<Entry>): Option<Entry> {
    if !child.isDirty then parent
    else if parent.None? then Some(child)
    else if parent.value.entered != child.entered then Some(parent.value.(entered := child.entered, isDirty := true))
    else parent
  }

  function MergeAt(child: map<Root, Entry>, parent: map<Root, Entry>, rt: Root): Option<Entry> {
    if rt in child then MergeEntry(child[rt], Get(parent, rt)) else Get(parent, rt)
  }

  function Merge(child: map<Root, Entry>, parent: map<Root, Entry>): (r: map<Root, Entry>)
    ensures forall k :: Get(r, k) == MergeAt(child, parent, k)
  {
    map rt | rt in child.Keys + parent.Keys && MergeAt(child, parent, rt).Some? :: MergeAt(child, parent, rt).value
  }

  /** The database write; the empty tree is never stored. */
  function MergeDiskAt(root: Tree -> Root, child: map<Root, Entry>, db: map<Root, Tree>, rt: Root): Option<Tree> {
    if rt in child && child[rt].isDirty && !child[rt].entered then None
    else if rt in child && child[rt].isDirty && rt != root([]) then Some(child[rt].tree)
    else Get(db, rt)
  }

  function MergeDisk(root: Tree -> Root, child: map<Root, Entry>, db: map<Root, Tree>): (r: map<Root, Tree>)
    ensures forall k :: Get(r, k) == MergeDiskAt(root, child, db, k)
  {
    map rt | rt in child.Keys + db.Keys && MergeDiskAt(root, child, db, rt).Some? :: MergeDiskAt(root, child, db, rt).value
  }

  /** The parent takes the child's best anchor as it is, even when the child never learnt it. */
  ghost function BatchWrite(root: Tree -> Root, v: View, child: map<Root, Entry>, best: Option<Root>): View {
    match v
    case Disk(db, tip) => Disk(MergeDisk(root, child, db), if best.Some? then best.value else tip)
    case Cache(entries, _, usage, base) =>
      var merged := Merge(child, entries);
      Cache(merged, best, usage + SumTrees(merged) - SumTrees(entries), base)
  }

  ghost function Flush(root: Tree -> Root, v: View): View
    requires v.Cache?
  {
    Cache(map[], v.best, 0, BatchWrite(root, v.base, v.entries, v.best))
  }

  /** The anchors that a flush of the topmost cache would write. */
  function Pending(v: View): set<Root> {
    if v.Disk? then {} else set rt | rt in v.entries && v.entries[rt].isDirty
  }

  /**
   * A flush writes what is pending and nothing else. In a cache below, only the entries that it adds or whose
   * visibility it changes become pending, and an entry that is there keeps its tree.
   */
  lemma FlushPasses(root: Tree -> Root, v: View, rt: Root)
    requires v.Cache?
    ensures v.base.Disk? && rt !in Pending(v) ==> Get(Flush(root, v).base.db, rt) == Get(v.base.db, rt)
    ensures v.base.Cache? ==>
              var was, now := Get(v.base.entries, rt), Get(Flush(root, v).base.entries, rt);
              if rt !in Pending(v) || (was.Some? && was.value.entered == v.entries[rt].entered) then now == was
              else rt in Pending(Flush(root, v).base) && now.value.entered == v.entries[rt].entered
                   && now.value.tree == if was.Some? then was.value.tree else v.entries[rt].tree
    ensures v.base.Cache? ==> Flush(root, v).base.base == v.base.base
  {
    if v.base.Disk? {
      assert Get(Flush(root, v).base.db, rt) == MergeDiskAt(root, v.entries, v.base.db, rt);
    } else {
      assert Get(Flush(root, v).base.entries, rt) == MergeAt(v.entries, v.base.entries, rt);
    }
  }

  /** The memory charged for the trees cached in one layer, entered or not. */
  ghost function SumTrees(entries: map<Root, Entry>): nat {
    SumOver(entries, EntryUsage)
  }

  function EntryUsage(e: Entry): nat {
    TreeUsage(e.tree)
  }

  lemma SumTreesPut(entries: map<Root, Entry>, rt: Root, e: Entry)
    ensures SumTrees(entries[rt := e]) ==
      SumTrees(entries) - (if rt in entries then TreeUsage(entries[rt].tree) else 0) + TreeUsage(e.tree)
  {
    SumOverSplit(entries[rt := e], EntryUsage, rt);
    assert entries[rt := e] - {rt} == entries - {rt};
    if rt in entries {
      SumOverSplit(entries, EntryUsage, rt);
    } else {
      assert entries - {rt} == entries;
    }
  }

  /* ---- The invariant ---- */

  ghost predicate EntryOk(root: Tree -> Root, e: Entry, rt: Root, base: View) {
    && root(e.tree) == rt
    && (!e.isDirty ==> (e.entered <==> At(root, base, rt).Some?))
  }

  /** Every stored tree, visible or not, is filed under its own root. */
  ghost predicate Valid(root: Tree -> Root, v: View) {
    match v
    case Disk(db, _) => forall rt | rt in db :: root(db[rt]) == rt
    case Cache(entries, _, _, base) =>
      Valid(root, base) && forall rt | rt in entries :: EntryOk(root, entries[rt], rt, base)
  }

  lemma {:induction false} VisibleTreeHasItsRoot(root: Tree -> Root, v: View, rt: Root)
    requires Valid(root, v)
    ensures At(root, v, rt).Some? ==> root(At(root, v, rt).value) == rt
  {
    if v.Cache? && rt !in v.entries {
      VisibleTreeHasItsRoot(root, v.base, rt);
    } else if v.Cache? {
      assert EntryOk(root, v.entries[rt], rt, v.base);
    }
  }

  lemma {:induction false} GetAnchorReads(root: Tree -> Root, v: View, rt: Root)
    requires Valid(root, v)
    ensures var (found, after) := GetAnchorAt(root, v, rt);
            && Valid(root, after) && (after.Cache? <==> v.Cache?)
            && found == At(root, v, rt)
            && Best(after) == Best(v)
            && (forall x :: At(root, after, x) == At(root, v, x))
            && (v.Cache? ==> (found.Some? ==> rt in after.entries) && after.best == v.best)
  {
    if v.Cache? && rt !in v.entries {
      GetAnchorReads(root, v.base, rt);
      VisibleTreeHasItsRoot(root, v.base, rt);
      var after := GetAnchorAt(root, v, rt).1;
      forall x | x in after.entries
        ensures EntryOk(root, after.entries[x], x, after.base)
      {
        if x in v.entries {
          assert EntryOk(root, v.entries[x], x, v.base);
        }
      }
    }
  }

  lemma {:induction false} LoadBestReads(root: Tree -> Root, v: View)
    requires Valid(root, v)
    ensures Valid(root, LoadBest(v)) && (LoadBest(v).Cache? <==> v.Cache?)
    ensures Best(LoadBest(v)) == Best(v)
    ensures forall x :: At(root, LoadBest(v), x) == At(root, v, x)
    ensures v.Cache? ==> LoadBest(v).best == Some(Best(v)) && LoadBest(v).entries == v.entries
  {
    if v.Cache? && v.best.None? {
      LoadBestReads(root, v.base);
      forall x | x in v.entries
        ensures EntryOk(root, v.entries[x], x, LoadBest(v).base)
      {
        assert EntryOk(root, v.entries[x], x, v.base);
      }
    }
  }

  /* ---- Flushing ---- */

  /** Whether a flush to the database would un-enter the empty tree, which the database shows regardless. */
  predicate DropsEmptyTree(root: Tree -> Root, v: View)
    requires v.Cache?
  {
    v.base.Disk? && root([]) in v.entries && v.entries[root([])].isDirty && !v.entries[root([])].entered
  }

  lemma MergeEntryOk(root: Tree -> Root, v: View, rt: Root)
    requires Valid(root, v) && v.Cache? && v.base.Cache?
    ensures match MergeAt(v.entries, v.base.entries, rt)
            case None => At(root, v, rt).Some? <==> At(root, v.base.base, rt).Some?
            case Some(e) => (e.entered <==> At(root, v, rt).Some?) && EntryOk(root, e, rt, v.base.base)
  {
    if rt in v.entries {
      assert EntryOk(root, v.entries[rt], rt, v.base);
    }
    if rt in v.base.entries {
      assert EntryOk(root, v.base.entries[rt], rt, v.base.base);
    }
  }

  ghost predicate SameAnchors(root: Tree -> Root, v: View, w: View) {
    forall rt :: At(root, v, rt).Some? <==> At(root, w, rt).Some?
  }

  /** A flush keeps the set of visible anchors at both levels exactly when it does not drop the empty tree. */
  lemma FlushKeepsAnchorsIff(root: Tree -> Root, v: View)
    requires Valid(root, v) && v.Cache?
    ensures Valid(root, Flush(root, v))
    ensures SameAnchors(root, Flush(root, v), v) <==> !DropsEmptyTree(root, v)
    ensures forall rt :: At(root, Flush(root, v), rt) == At(root, Flush(root, v).base, rt)
    ensures Flush(root, v).base.Cache? <==> v.base.Cache?
    ensures v.base.Cache? ==> Flush(root, v).base.base == v.base.base
  {
    var after := Flush(root, v);
    match v.base
    case Disk(db, tip) =>
      forall rt | rt in after.base.db
        ensures root(after.base.db[rt]) == rt
      {
        if rt in v.entries {
          assert EntryOk(root, v.entries[rt], rt, v.base);
        }
      }
      if DropsEmptyTree(root, v) {
        var rt := root([]);
        assert rt in v.entries && !v.entries[rt].entered;
        assert At(root, v, rt).None?;
        assert At(root, Flush(root, v), rt).Some?;
      } else {
        forall rt
          ensures At(root, after, rt).Some? <==> At(root, v, rt).Some?
        {
          if rt in v.entries {
            assert EntryOk(root, v.entries[rt], rt, v.base);
          }
        }
      }
    case Cache(entries, best, _, grand) =>
      forall rt
        ensures At(root, after, rt).Some? <==> At(root, v, rt).Some?
        ensures rt in after.base.entries ==> EntryOk(root, after.base.entries[rt], rt, grand)
      {
        MergeEntryOk(root, v, rt);
      }
  }

  /** No two of the given trees share a root. */
  ghost predicate CollisionFree(root: Tree -> Root, trees: set<Tree>) {
    [] in trees && forall a, b | a in trees && b in trees && root(a) == root(b) :: a == b
  }

  /** Only the given trees are stored, at any level. */
  ghost predicate Within(v: View, trees: set<Tree>) {
    match v
    case Disk(db, _) => forall rt | rt in db :: db[rt] in trees
    case Cache(entries, _, _, base) => Within(base, trees) && forall rt | rt in entries :: entries[rt].tree in trees
  }

  lemma {:induction false} VisibleIsWithin(root: Tree -> Root, v: View, trees: set<Tree>, rt: Root)
    requires Within(v, trees) && [] in trees
    ensures At(root, v, rt).Some? ==> At(root, v, rt).value in trees
  {
    if v.Cache? && rt !in v.entries {
      VisibleIsWithin(root, v.base, trees, rt);
    }
  }

  lemma FlushWithin(root: Tree -> Root, v: View, trees: set<Tree>)
    requires Within(v, trees) && v.Cache?
    ensures Within(Flush(root, v), trees)
  {
    var below := Flush(root, v).base;
    match v.base
    case Disk(db, _) =>
      forall rt | rt in below.db
        ensures below.db[rt] in trees
      {
        assert Get(below.db, rt) == MergeDiskAt(root, v.entries, db, rt);
      }
    case Cache(entries, _, _, _) =>
      forall rt | rt in below.entries
        ensures below.entries[rt].tree in trees
      {
        assert Get(below.entries, rt) == MergeAt(v.entries, entries, rt);
      }
  }

  /** If no two stored trees share a root even the trees are the same, although existing parent entries keep their own copy. */
  lemma FlushKeepsTrees(root: Tree -> Root, v: View, trees: set<Tree>, rt: Root)
    requires Valid(root, v) && v.Cache? && !DropsEmptyTree(root, v)
    requires CollisionFree(root, trees) && Within(v, trees)
    ensures At(root, Flush(root, v), rt) == At(root, v, rt)
    ensures At(root, Flush(root, v).base, rt) == At(root, v, rt)
  {
    FlushKeepsAnchorsIff(root, v);
    FlushWithin(root, v, trees);
    VisibleIsWithin(root, v, trees, rt);
    VisibleIsWithin(root, Flush(root, v), trees, rt);
    VisibleTreeHasItsRoot(root, v, rt);
    VisibleTreeHasItsRoot(root, Flush(root, v), rt);
  }

  /** A flush passes the best anchor on if and only if the cache had learnt it or the parent would re-read the same one. */
  lemma FlushKeepsBestIff(root: Tree -> Root, v: View)
    requires v.Cache?
    ensures Best(Flush(root, v)) == Best(v) && Best(Flush(root, v).base) == Best(v)
       <==> v.best.Some? || v.base.Disk? || Best(v.base.base) == Best(v.base)
  {
  }

  /** A cache that only read anchors makes its parent forget a best anchor the parent had pushed. */
  lemma FlushForgetsParentsBest(root: Tree -> Root)
    requires root([1]) != root([])
    ensures var parent := PushAnchor(root, Cache(map[], None, 0, Disk(map[], root([]))), [1]);
            && Best(parent) == root([1])
            && Best(Flush(root, Cache(map[], None, 0, parent)).base) == root([])
  {
    var v0 := Cache(map[], None, 0, Disk(map[], root([])));
    assert LoadBest(v0).base == v0.base;
    var parent := PushAnchor(root, v0, [1]);
    var child := Cache(map[], None, 0, parent);
    var flushed := Flush(root, child).base;
    assert flushed.best == None && flushed.base == v0.base;
    assert Best(flushed) == Best(v0.base);
  }

  /* ---- Whole runs ---- */

  datatype Step = ReadAnchor(rt: Root) | ReadBest | Push(tree: Tree) | Pop(rt: Root) | FlushTop | PushCache | DropCache

  /** The reference per level: the set of anchors, the best one, and whether the level has learnt it. */
  datatype Level = Level(anchors: set<Root>, best: Root, learnt: bool)
  type Plain = seq<Level>

  function Learn(p: Plain): Plain {
    if p == [] || p[0].learnt then p else [p[0].(learnt := true)] + Learn(p[1..])
  }

  predicate Allowed(root: Tree -> Root, p: Plain, s: Step) {
    match s
    case ReadAnchor(_) => true
    case ReadBest => true
    case PushCache => true
    case Push(_) => |p| >= 2
    case Pop(rt) => |p| >= 2 && (rt == p[0].best || (rt in p[0].anchors && p[0].best != root([])))
    case FlushTop => |p| >= 2 && p[0].learnt
    case DropCache => |p| >= 2
  }

  function ExecPlain(root: Tree -> Root, p: Plain, s: Step): Plain
    requires p != [] && Allowed(root, p, s)
    ensures ExecPlain(root, p, s) != []
  {
    match s
    case ReadAnchor(_) => p
    case ReadBest => LearnNonempty(p); Learn(p)
    case Push(tree) =>
      LearnNonempty(p);
      Learn(p)[0 := Level(p[0].anchors + {root(tree)}, root(tree), true)]
    case Pop(rt) =>
      LearnNonempty(p);
      if rt == p[0].best then Learn(p) else Learn(p)[0 := Level(p[0].anchors - {p[0].best}, rt, true)]
    case FlushTop => p[1 := p[0].(learnt := true)]
    case PushCache => [p[0].(learnt := false)] + p
    case DropCache => p[1..]
  }

  lemma LearnNonempty(p: Plain)
    ensures |Learn(p)| == |p|
    ensures p != [] ==> Learn(p)[0] == p[0].(learnt := true)
  {
  }

  /** The best anchor of every level is one of its anchors, and so is the empty tree. */
  predicate PlainOk(root: Tree -> Root, p: Plain) {
    forall i | 0 <= i < |p| :: p[i].best in p[i].anchors && root([]) in p[i].anchors
  }

  ghost predicate Shows(root: Tree -> Root, v: View, l: Level) {
    && Best(v) == l.best
    && (l.learnt <==> (v.Cache? ==> v.best.Some?))
    && forall rt :: At(root, v, rt).Some? <==> rt in l.anchors
  }

  ghost predicate Refines(root: Tree -> Root, v: View, p: Plain) {
    match v
    case Disk(_, _) => |p| == 1 && Shows(root, v, p[0])
    case Cache(_, _, _, base) => |p| >= 2 && Shows(root, v, p[0]) && Refines(root, base, p[1..])
  }

  ghost function Exec(root: Tree -> Root, v: View, s: Step): Option<View> {
    if s.ReadAnchor? then Some(GetAnchorAt(root, v, s.rt).1)
    else if s.ReadBest? then Some(LoadBest(v))
    else if s.PushCache? then Some(Cache(map[], None, 0, v))
    else if v.Disk? then Some(v)
    else
      match s
      case Push(tree) => Some(PushAnchor(root, v, tree))
      case Pop(rt) => PopAnchor(root, v, rt)
      case FlushTop => Some(Flush(root, v))
      case DropCache => Some(v.base)
  }

  lemma {:induction false} GetAnchorRefines(root: Tree -> Root, v: View, rt: Root, p: Plain)
    requires Valid(root, v) && Refines(root, v, p)
    ensures Refines(root, GetAnchorAt(root, v, rt).1, p)
  {
    GetAnchorReads(root, v, rt);
    if v.Cache? && rt !in v.entries {
      GetAnchorRefines(root, v.base, rt, p[1..]);
    }
  }

  lemma {:induction false} LoadBestRefines(root: Tree -> Root, v: View, p: Plain)
    requires Valid(root, v) && Refines(root, v, p)
    ensures Refines(root, LoadBest(v), Learn(p))
  {
    LoadBestReads(root, v);
    if v.Cache? && v.best.None? {
      LoadBestRefines(root, v.base, p[1..]);
      assert Learn(p)[1..] == Learn(p[1..]);
    }
  }

  lemma LearnPlainOk(root: Tree -> Root, p: Plain)
    requires PlainOk(root, p)
    ensures PlainOk(root, Learn(p))
  {
    if p != [] && !p[0].learnt {
      LearnPlainOk(root, p[1..]);
      LearnNonempty(p);
      LearnNonempty(p[1..]);
      assert forall i | 1 <= i < |p| :: Learn(p)[i] == Learn(p[1..])[i - 1];
    }
  }

  lemma PushRefines(root: Tree -> Root, v: View, tree: Tree, p: Plain)
    requires Valid(root, v) && Refines(root, v, p) && v.Cache? && PlainOk(root, p)
    ensures Valid(root, PushAnchor(root, v, tree)) && Refines(root, PushAnchor(root, v, tree), ExecPlain(root, p, Push(tree)))
  {
    LoadBestReads(root, v);
    LoadBestRefines(root, v, p);
    LearnNonempty(p);
    var v1, after, q := LoadBest(v), PushAnchor(root, v, tree), ExecPlain(root, p, Push(tree));
    assert q[1..] == Learn(p)[1..];
    if Best(v) != root(tree) {
      forall x | x in after.entries
        ensures EntryOk(root, after.entries[x], x, after.base)
      {
        if x in v1.entries {
          assert EntryOk(root, v1.entries[x], x, v1.base);
        }
      }
    }
  }

  lemma PopRefines(root: Tree -> Root, v: View, rt: Root, p: Plain)
    requires Valid(root, v) && Refines(root, v, p) && v.Cache? && PlainOk(root, p) && Allowed(root, p, Pop(rt))
    ensures PopAnchor(root, v, rt).Some?
    ensures Valid(root, PopAnchor(root, v, rt).value)
    ensures Refines(root, PopAnchor(root, v, rt).value, ExecPlain(root, p, Pop(rt)))
  {
    LoadBestReads(root, v);
    LoadBestRefines(root, v, p);
    LearnNonempty(p);
    var v1, cur := LoadBest(v), Best(v);
    GetAnchorReads(root, v1, cur);
    GetAnchorRefines(root, v1, cur, Learn(p));
    var v2, q := GetAnchorAt(root, v1, cur).1, ExecPlain(root, p, Pop(rt));
    assert q[1..] == Learn(p)[1..];
    if cur != rt {
      assert At(root, v1, cur).Some?;
      var after := PopAnchor(root, v, rt).value;
      forall x | x in after.entries
        ensures EntryOk(root, after.entries[x], x, after.base)
      {
        assert EntryOk(root, v2.entries[x], x, v2.base);
      }
    }
  }

  lemma FlushRefines(root: Tree -> Root, v: View, p: Plain)
    requires Valid(root, v) && Refines(root, v, p) && v.Cache? && PlainOk(root, p) && Allowed(root, p, FlushTop)
    ensures Valid(root, Flush(root, v)) && Refines(root, Flush(root, v), ExecPlain(root, p, FlushTop))
  {
    FlushKeepsAnchorsIff(root, v);
    assert At(root, v, root([])).Some?;
    var q := ExecPlain(root, p, FlushTop);
    assert p[1..][1..] == q[1..][1..];
    assert Shows(root, Flush(root, v), q[0]);
    assert Shows(root, Flush(root, v).base, q[1]);
  }

  /** One step: the asserted read of the best anchor succeeds, and the step acts on the plain levels. */
  lemma StepRefines(root: Tree -> Root, v: View, s: Step, p: Plain)
    requires Valid(root, v) && Refines(root, v, p) && PlainOk(root, p) && Allowed(root, p, s)
    ensures Exec(root, v, s).Some? && Valid(root, Exec(root, v, s).value)
    ensures Refines(root, Exec(root, v, s).value, ExecPlain(root, p, s)) && PlainOk(root, ExecPlain(root, p, s))
  {
    LearnPlainOk(root, p);
    LearnNonempty(p);
    match s
    case ReadAnchor(rt) =>
      GetAnchorReads(root, v, rt);
      GetAnchorRefines(root, v, rt, p);
    case ReadBest =>
      LoadBestReads(root, v);
      LoadBestRefines(root, v, p);
    case Push(tree) =>
      PushRefines(root, v, tree, p);
    case Pop(rt) =>
      PopRefines(root, v, rt, p);
    case FlushTop =>
      FlushRefines(root, v, p);
    case PushCache =>
      assert ExecPlain(root, p, s)[1..] == p;
    case DropCache =>
  }

  predicate AllAllowed(root: Tree -> Root, p: Plain, run: seq<Step>)
    requires p != []
    decreases |run|
  {
    run == [] || (Allowed(root, p, run[0]) && AllAllowed(root, ExecPlain(root, p, run[0]), run[1..]))
  }

  function RunPlain(root: Tree -> Root, p: Plain, run: seq<Step>): Plain
    requires p != [] && AllAllowed(root, p, run)
    decreases |run|
  {
    if run == [] then p else RunPlain(root, ExecPlain(root, p, run[0]), run[1..])
  }

  ghost function Run(root: Tree -> Root, v: View, run: seq<Step>): Option<View>
    decreases |run|
  {
    if run == [] then Some(v)
    else
      var next := Exec(root, v, run[0]);
      if next.None? then None else Run(root, next.value, run[1..])
  }

  /** Over every allowed run no assertion fails and every level shows its plain set of anchors and best anchor. */
  lemma {:induction false} RunRefinesPlainLevels(root: Tree -> Root, v: View, run: seq<Step>, p: Plain)
    requires Valid(root, v) && Refines(root, v, p) && PlainOk(root, p) && AllAllowed(root, p, run)
    ensures Run(root, v, run).Some? && Valid(root, Run(root, v, run).value)
    ensures Refines(root, Run(root, v, run).value, RunPlain(root, p, run))
    decreases |run|
  {
    if run != [] {
      StepRefines(root, v, run[0], p);
      RunRefinesPlainLevels(root, Exec(root, v, run[0]).value, run[1..], ExecPlain(root, p, run[0]));
    }
  }

  /**
   * Pushing a tree and popping back to the previous anchor restores the best anchor; it restores the
   * visible anchors if and only if the pushed root was the current one or was not visible before.
   */
  lemma PushPopRestoresIff(root: Tree -> Root, v: View, tree: Tree)
    requires Valid(root, v) && v.Cache?
    ensures var back := PopAnchor(root, PushAnchor(root, v, tree), Best(v));
            && back.Some?
            && Best(back.value) == Best(v)
            && (SameAnchors(root, back.value, v) <==> root(tree) == Best(v) || At(root, v, root(tree)).None?)
  {
    LoadBestReads(root, v);
    var pushed := PushAnchor(root, v, tree);
    assert LoadBest(pushed) == pushed;
    if root(tree) != Best(v) {
      assert GetAnchorAt(root, pushed, root(tree)) == (Some(tree), pushed);
      var back := PopAnchor(root, pushed, Best(v)).value;
      assert At(root, back, root(tree)).None?;
      forall rt | rt != root(tree)
        ensures At(root, back, rt) == At(root, v, rt)
      {
        assert At(root, LoadBest(v), rt) == At(root, v, rt);
      }
    }
  }

  /** Pushing the empty tree, which was visible all along, and popping back makes it invisible. */
  lemma PopForgetsEarlierAnchor(root: Tree -> Root)
    requires root([1]) != root([])
    ensures var v := Cache(map[], None, 0, Disk(map[root([1]) := [1]], root([1])));
            var back := PopAnchor(root, PushAnchor(root, v, []), root([1]));
            && Valid(root, v) && Best(v) == root([1]) && At(root, v, root([])) == Some([])
            && back.Some? && At(root, back.value, root([])) == None
  {
    var v := Cache(map[], None, 0, Disk(map[root([1]) := [1]], root([1])));
    var pushed := PushAnchor(root, v, []);
    assert LoadBest(v) == v.(best := Some(root([1])));
    assert LoadBest(pushed) == pushed && GetAnchorAt(root, pushed, root([])) == (Some([]), pushed);
  }

  /* ---- Memory accounting ---- */

  /** Each level's counter is the memory of the trees it caches. */
  ghost predicate Charged(v: View) {
    v.Cache? ==> v.usage == SumTrees(v.entries) && Charged(v.base)
  }

  lemma {:induction false} GetAnchorCharged(root: Tree -> Root, v: View, rt: Root)
    requires Charged(v)
    ensures Charged(GetAnchorAt(root, v, rt).1)
  {
    if v.Cache? && rt !in v.entries {
      GetAnchorCharged(root, v.base, rt);
      var found := GetAnchorAt(root, v.base, rt).0;
      if found.Some? {
        SumTreesPut(v.entries, rt, Entry(true, found.value, false));
      }
    }
  }

  lemma {:induction false} LoadBestCharged(v: View)
    requires Charged(v)
    ensures Charged(LoadBest(v)) && (v.Cache? ==> LoadBest(v).Cache? && LoadBest(v).entries == v.entries)
  {
    if v.Cache? && v.best.None? {
      LoadBestCharged(v.base);
    }
  }

  /** A push over a cached tree charges nothing, which is right exactly if the new tree takes the same memory. */
  lemma PushChargedIff(root: Tree -> Root, v: View, tree: Tree)
    requires Charged(v) && v.Cache?
    ensures Charged(PushAnchor(root, v, tree)) <==>
      root(tree) == Best(v) || (root(tree) in v.entries ==> TreeUsage(v.entries[root(tree)].tree) == TreeUsage(tree))
  {
    LoadBestCharged(v);
    SumTreesPut(v.entries, root(tree), Entry(true, tree, true));
  }

  lemma PopCharged(root: Tree -> Root, v: View, rt: Root)
    requires Charged(v) && v.Cache? && PopAnchor(root, v, rt).Some?
    ensures Charged(PopAnchor(root, v, rt).value)
  {
    LoadBestCharged(v);
    if Best(v) != rt {
      GetAnchorCharged(root, LoadBest(v), Best(v));
      var v2 := GetAnchorAt(root, LoadBest(v), Best(v)).1;
      SumTreesPut(v2.entries, Best(v), v2.entries[Best(v)].(entered := false, isDirty := true));
    }
  }

  /** By how the merge defines the counter; that the source's loop keeps it so is proved of the object. */
  lemma FlushCharged(root: Tree -> Root, v: View)
    requires Charged(v) && v.Cache?
    ensures Charged(Flush(root, v))
  {
  }

  lemma {:induction false} GetAnchorWithin(root: Tree -> Root, v: View, trees: set<Tree>, rt: Root)
    requires Within(v, trees) && [] in trees
    ensures Within(GetAnchorAt(root, v, rt).1, trees)
    ensures GetAnchorAt(root, v, rt).0.Some? ==> GetAnchorAt(root, v, rt).0.value in trees
  {
    if v.Cache? && rt !in v.entries {
      GetAnchorWithin(root, v.base, trees, rt);
    } else if v.Disk? {
      VisibleIsWithin(root, v, trees, rt);
    }
  }

  lemma {:induction false} LoadBestWithin(v: View, trees: set<Tree>)
    requires Within(v, trees)
    ensures Within(LoadBest(v), trees)
  {
    if v.Cache? && v.best.None? {
      LoadBestWithin(v.base, trees);
    }
  }

  lemma StepWithin(root: Tree -> Root, v: View, s: Step, trees: set<Tree>)
    requires Within(v, trees) && [] in trees && (s.Push? ==> s.tree in trees) && Exec(root, v, s).Some?
    ensures Within(Exec(root, v, s).value, trees)
  {
    match s
    case ReadAnchor(rt) => GetAnchorWithin(root, v, trees, rt);
    case ReadBest => LoadBestWithin(v, trees);
    case Push(tree) => LoadBestWithin(v, trees);
    case Pop(rt) =>
      LoadBestWithin(v, trees);
      GetAnchorWithin(root, LoadBest(v), trees, Best(v));
    case FlushTop =>
      if v.Cache? {
        FlushWithin(root, v, trees);
      }
    case PushCache =>
    case DropCache =>
  }

  /**
   * Over every allowed run, if no two of the trees in play share a root, each level's counter is the memory
   * of the trees it caches.
   */
  lemma {:induction false} RunCharged(root: Tree -> Root, v: View, run: seq<Step>, p: Plain, trees: set<Tree>)
    requires Valid(root, v) && Refines(root, v, p) && PlainOk(root, p) && AllAllowed(root, p, run) && Charged(v)
    requires CollisionFree(root, trees) && Within(v, trees) && forall s | s in run && s.Push? :: s.tree in trees
    ensures Run(root, v, run).Some? && Charged(Run(root, v, run).value)
    decreases |run|
  {
    if run != [] {
      StepRefines(root, v, run[0], p);
      StepCharged(root, v, run[0], trees);
      StepWithin(root, v, run[0], trees);
      RunCharged(root, Exec(root, v, run[0]).value, run[1..], ExecPlain(root, p, run[0]), trees);
    }
  }

  lemma StepCharged(root: Tree -> Root, v: View, s: Step, trees: set<Tree>)
    requires Valid(root, v) && Charged(v) && Exec(root, v, s).Some?
    requires CollisionFree(root, trees) && Within(v, trees) && (s.Push? ==> s.tree in trees)
    ensures Charged(Exec(root, v, s).value)
  {
    match s
    case ReadAnchor(rt) => GetAnchorCharged(root, v, rt);
    case ReadBest => LoadBestCharged(v);
    case Push(tree) =>
      if v.Cache? {
        PushChargedIff(root, v, tree);
        assert root(tree) in v.entries ==> EntryOk(root, v.entries[root(tree)], root(tree), v.base);
      }
    case Pop(rt) =>
      if v.Cache? {
        PopCharged(root, v, rt);
      }
    case FlushTop =>
      if v.Cache? {
        FlushCharged(root, v);
      }
    case PushCache =>
    case DropCache =>
  }
}
