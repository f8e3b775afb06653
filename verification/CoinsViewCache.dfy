/**
 * The cache objects themselves: mutable maps, flags and counters, each object backed by another cache
 * or by the database. Every method is proved to act on the stack of caches as the corresponding
 * function of CoinsCache, AnchorCache or NullifierCache, on which the properties are proved.
 */
module CoinsViewCaches {
  import opened Prelude
  import Coins
  import CC = CoinsCache
  import AC = AnchorCache
  import NC = NullifierCache

  class CoinsViewDB {
    var coins: map<CC.Txid, Coins.Coins>
    var anchors: map<AC.Root, AC.Tree>
    var bestAnchor: AC.Root
    var nullifiers: set<NC.Nullifier>

    constructor (coins: map<CC.Txid, Coins.Coins>, anchors: map<AC.Root, AC.Tree>, bestAnchor: AC.Root, nullifiers: set<NC.Nullifier>)
      ensures this.coins == coins && this.anchors == anchors && this.bestAnchor == bestAnchor && this.nullifiers == nullifiers
    {
      this.coins, this.anchors, this.bestAnchor, this.nullifiers := coins, anchors, bestAnchor, nullifiers;
    }

    method WriteCoins(mapCoins: map<CC.Txid, CC.Entry>)
      modifies this`coins
      ensures coins == CC.MergeDisk(mapCoins, old(coins))
    {
      var todo := mapCoins.Keys;
      while todo != {}
        invariant todo <= mapCoins.Keys
        invariant forall t :: Get(coins, t) == (if t in todo then Get(old(coins), t) else CC.MergeDiskAt(mapCoins, old(coins), t))
        decreases todo
      {
        var t :| t in todo;
        todo := todo - {t};
        assert Get(coins, t) == Get(old(coins), t);
        if mapCoins[t].isDirty {
          coins := if mapCoins[t].coins.IsPruned() then coins - {t} else coins[t := mapCoins[t].coins];
        }
      }
      SameMap(coins, CC.MergeDisk(mapCoins, old(coins)));
    }

    method WriteAnchors(root: AC.Tree -> AC.Root, mapAnchors: map<AC.Root, AC.Entry>, best: Option<AC.Root>)
      modifies this`anchors, this`bestAnchor
      ensures anchors == AC.MergeDisk(root, mapAnchors, old(anchors))
      ensures bestAnchor == (if best.Some? then best.value else old(bestAnchor))
    {
      var todo := mapAnchors.Keys;
      while todo != {}
        invariant todo <= mapAnchors.Keys && bestAnchor == old(bestAnchor)
        invariant forall t :: Get(anchors, t) == (if t in todo then Get(old(anchors), t) else AC.MergeDiskAt(root, mapAnchors, old(anchors), t))
        decreases todo
      {
        var t :| t in todo;
        todo := todo - {t};
        assert Get(anchors, t) == Get(old(anchors), t);
        if mapAnchors[t].isDirty {
          if !mapAnchors[t].entered {
            anchors := anchors - {t};
          } else if t != root([]) {
            anchors := anchors[t := mapAnchors[t].tree];
          }
        }
      }
      SameMap(anchors, AC.MergeDisk(root, mapAnchors, old(anchors)));
      if best.Some? {
        bestAnchor := best.value;
      }
    }

    method WriteNullifiers(mapNullifiers: map<NC.Nullifier, NC.Entry>)
      modifies this`nullifiers
      ensures nullifiers == NC.MergeDisk(mapNullifiers, old(nullifiers))
    {
      var todo := mapNullifiers.Keys;
      while todo != {}
        invariant todo <= mapNullifiers.Keys
        invariant forall t | t in todo :: t in nullifiers <==> t in old(nullifiers)
        invariant nullifiers == NC.MergeDisk(map t | t in mapNullifiers && t !in todo :: mapNullifiers[t], old(nullifiers))
        decreases todo
      {
        var t :| t in todo;
        todo := todo - {t};
        if mapNullifiers[t].isDirty {
          nullifiers := if mapNullifiers[t].entered then nullifiers + {t} else nullifiers - {t};
        }
      }
      assert mapNullifiers == map t | t in mapNullifiers && t !in todo :: mapNullifiers[t];
    }
  }

  class CoinsViewCache {
    const root: AC.Tree -> AC.Root
    /** The cache below, if any, and the database at the bottom of the stack. */
    const base: CoinsViewCache?
    const backend: CoinsViewDB
    ghost const Repr: set<object>

    var hasModifier: bool
    var cacheCoins: map<CC.Txid, CC.Entry>
    /** The memory charged for coins and trees together, and the trees' share of it. */
    var cachedCoinsUsage: int
    ghost var treesUsage: int
    var hashAnchor: Option<AC.Root>
    var cacheAnchors: map<AC.Root, AC.Entry>
    var cacheNullifiers: map<NC.Nullifier, NC.Entry>

    /** The shape of the stack; only its top may have an open modifier. */
    ghost predicate Valid()
      reads this, Repr
      decreases Repr
    {
      && this in Repr && backend in Repr
      && (base != null ==>
            && base in Repr && base.Repr <= Repr && this !in base.Repr
            && base.backend == backend && base.root == root && base.Valid() && !base.hasModifier)
    }

    ghost function CoinsView(): (v: CC.View)
      requires Valid()
      reads this, Repr
      ensures v.Cache? && v.entries == cacheCoins
      decreases Repr, 0
    {
      CC.Cache(cacheCoins, cachedCoinsUsage - treesUsage, CoinsBelow())
    }

    /** What this cache is on top of does not depend on its own maps. */
    ghost function CoinsBelow(): CC.View
      requires base != null ==> base.Valid()
      reads backend, base, if base == null then {} else base.Repr
      decreases if base == null then {} else base.Repr, 1
    {
      if base == null then CC.Disk(backend.coins) else base.CoinsView()
    }

    ghost function AnchorView(): AC.View
      requires Valid()
      reads this, Repr
      decreases Repr, 0
    {
      AC.Cache(cacheAnchors, hashAnchor, treesUsage, AnchorsBelow())
    }

    ghost function AnchorsBelow(): AC.View
      requires base != null ==> base.Valid()
      reads backend, base, if base == null then {} else base.Repr
      decreases if base == null then {} else base.Repr, 1
    {
      if base == null then AC.Disk(backend.anchors, backend.bestAnchor) else base.AnchorView()
    }

    ghost function NullifierView(): NC.View
      requires Valid()
      reads this, Repr
      decreases Repr, 0
    {
      NC.Cache(cacheNullifiers, NullifiersBelow())
    }

    ghost function NullifiersBelow(): NC.View
      requires base != null ==> base.Valid()
      reads backend, base, if base == null then {} else base.Repr
      decreases if base == null then {} else base.Repr, 1
    {
      if base == null then NC.Disk(backend.nullifiers) else base.NullifierView()
    }

    constructor OnDatabase(root: AC.Tree -> AC.Root, db: CoinsViewDB)
      ensures Valid() && !hasModifier && fresh(this) && Repr == {this, db}
      ensures CoinsView() == CC.Cache(map[], 0, CC.Disk(db.coins))
      ensures AnchorView() == AC.Cache(map[], None, 0, AC.Disk(db.anchors, db.bestAnchor))
      ensures NullifierView() == NC.Cache(map[], NC.Disk(db.nullifiers))
    {
      this.root, base, backend, Repr := root, null, db, {this, db};
      hasModifier, cacheCoins, cachedCoinsUsage, hashAnchor, cacheAnchors, cacheNullifiers := false, map[], 0, None, map[], map[];
      treesUsage := 0;
    }

    constructor OnCache(below: CoinsViewCache)
      requires below.Valid() && !below.hasModifier
      ensures Valid() && !hasModifier && fresh(this) && Repr == {this} + below.Repr && base == below
      ensures CoinsView() == CC.Cache(map[], 0, below.CoinsView())
      ensures AnchorView() == AC.Cache(map[], None, 0, below.AnchorView())
      ensures NullifierView() == NC.Cache(map[], below.NullifierView())
    {
      root, base, backend, Repr := below.root, below, below.backend, {this} + below.Repr;
      hasModifier, cacheCoins, cachedCoinsUsage, hashAnchor, cacheAnchors, cacheNullifiers := false, map[], 0, None, map[], map[];
      treesUsage := 0;
    }

    method GetCoins(t: CC.Txid) returns (found: Option<Coins.Coins>)
      requires Valid()
      modifies Repr
      ensures Valid() && hasModifier == old(hasModifier)
      ensures (found, CoinsView()) == CC.GetCoins(old(CoinsView()), t)
      ensures AnchorView() == old(AnchorView()) && NullifierView() == old(NullifierView())
      decreases Repr
    {
      if t in cacheCoins {
        return Some(cacheCoins[t].coins);
      }
      if base == null {
        found := if t in backend.coins then Some(backend.coins[t]) else None;
      } else {
        found := base.GetCoins(t);
      }
      if found.Some? {
        cacheCoins := cacheCoins[t := CC.Entry(found.value, false, found.value.IsPruned())];
        cachedCoinsUsage := cachedCoinsUsage + Coins.Usage(found.value);
      }
    }

    /** Open a modifier; the caller then works on the coins of `t` in the cache. */
    method ModifyCoins(t: CC.Txid) returns (charged: nat)
      requires Valid() && !hasModifier
      modifies Repr
      ensures Valid() && hasModifier
      ensures (CoinsView(), charged) == CC.BeginModify(old(CoinsView()), t)
      ensures AnchorView() == old(AnchorView()) && NullifierView() == old(NullifierView())
    {
      charged := 0;
      var e;
      if t !in cacheCoins {
        var found;
        if base == null {
          found := if t in backend.coins then Some(backend.coins[t]) else None;
        } else {
          found := base.GetCoins(t);
        }
        if found.None? {
          e := CC.Entry(Coins.EMPTY, false, true);
        } else {
          e := CC.Entry(found.value, false, found.value.IsPruned());
        }
      } else {
        e := cacheCoins[t];
        charged := Coins.Usage(e.coins);
      }
      cacheCoins := cacheCoins[t := e.(isDirty := true)];
      hasModifier := true;
    }

    method ModifyNewCoins(t: CC.Txid) returns (charged: nat)
      requires Valid() && !hasModifier
      modifies this
      ensures Valid() && hasModifier
      ensures (CoinsView(), charged) == CC.BeginModifyNew(old(CoinsView()), t)
      ensures AnchorView() == old(AnchorView()) && NullifierView() == old(NullifierView())
    {
      cacheCoins := cacheCoins[t := CC.Entry(Coins.EMPTY, true, true)];
      charged := 0;
      hasModifier := true;
    }

    /** The destructor of the modifier, through which `updated` was written. */
    method ReleaseModifier(t: CC.Txid, charged: nat, updated: Coins.Coins)
      requires Valid() && hasModifier && t in cacheCoins
      modifies this
      ensures Valid() && !hasModifier
      ensures CoinsView() == CC.EndModify(old(CoinsView()), t, charged, updated)
      ensures AnchorView() == old(AnchorView()) && NullifierView() == old(NullifierView())
    {
      hasModifier := false;
      var c := updated.Cleanup();
      cachedCoinsUsage := cachedCoinsUsage - charged;
      if cacheCoins[t].isFresh && c.IsPruned() {
        cacheCoins := cacheCoins - {t};
      } else {
        cacheCoins := cacheCoins[t := cacheCoins[t].(coins := c)];
        cachedCoinsUsage := cachedCoinsUsage + Coins.Usage(c);
      }
    }

    /** Charge a tree. */
    method Charge(size: nat)
      modifies this`cachedCoinsUsage, this`treesUsage
      ensures cachedCoinsUsage == old(cachedCoinsUsage) + size && treesUsage == old(treesUsage) + size
    {
      cachedCoinsUsage := cachedCoinsUsage + size;
      treesUsage := treesUsage + size;
    }

    method GetAnchorAt(rt: AC.Root) returns (found: Option<AC.Tree>)
      requires Valid()
      modifies Repr
      ensures Valid() && hasModifier == old(hasModifier) && hashAnchor == old(hashAnchor)
      ensures (found, AnchorView()) == AC.GetAnchorAt(root, old(AnchorView()), rt)
      ensures CoinsView() == old(CoinsView()) && NullifierView() == old(NullifierView())
      decreases Repr
    {
      if rt in cacheAnchors {
        return if cacheAnchors[rt].entered then Some(cacheAnchors[rt].tree) else None;
      }
      if base == null {
        found := if rt == root([]) then Some([]) else if rt in backend.anchors then Some(backend.anchors[rt]) else None;
      } else {
        found := base.GetAnchorAt(rt);
      }
      if found.Some? {
        cacheAnchors := cacheAnchors[rt := AC.Entry(true, found.value, false)];
        Charge(AC.TreeUsage(found.value));
      }
    }

    method GetBestAnchor() returns (best: AC.Root)
      requires Valid()
      modifies Repr
      ensures Valid() && hasModifier == old(hasModifier)
      ensures best == AC.Best(old(AnchorView())) && AnchorView() == AC.LoadBest(old(AnchorView()))
      ensures CoinsView() == old(CoinsView()) && NullifierView() == old(NullifierView())
      decreases Repr
    {
      if hashAnchor.None? {
        if base == null {
          best := backend.bestAnchor;
        } else {
          best := base.GetBestAnchor();
        }
        hashAnchor := Some(best);
      }
      best := hashAnchor.value;
    }

    method PushAnchor(tree: AC.Tree)
      requires Valid()
      modifies Repr
      ensures Valid() && hasModifier == old(hasModifier)
      ensures AnchorView() == AC.PushAnchor(root, old(AnchorView()), tree)
      ensures CoinsView() == old(CoinsView()) && NullifierView() == old(NullifierView())
    {
      var newrt := root(tree);
      var currentRoot := GetBestAnchor();
      if currentRoot != newrt {
        var inserted := newrt !in cacheAnchors;
        cacheAnchors := cacheAnchors[newrt := AC.Entry(true, tree, true)];
        if inserted {
          Charge(AC.TreeUsage(tree));
        }
        hashAnchor := Some(newrt);
      }
    }

    /** The asserted read of the source is the precondition; `AnchorCache.PopRefines` shows it holds in every run. */
    method PopAnchor(newrt: AC.Root)
      requires Valid()
      requires AC.PopAnchor(root, AnchorView(), newrt).Some?
      modifies Repr
      ensures Valid() && hasModifier == old(hasModifier)
      ensures AnchorView() == AC.PopAnchor(root, old(AnchorView()), newrt).value
      ensures CoinsView() == old(CoinsView()) && NullifierView() == old(NullifierView())
    {
      var currentRoot := GetBestAnchor();
      if currentRoot != newrt {
        var tree := GetAnchorAt(currentRoot);
        assert tree.Some?;
        cacheAnchors := cacheAnchors[currentRoot := cacheAnchors[currentRoot].(entered := false, isDirty := true)];
        hashAnchor := Some(newrt);
      }
    }

    method GetNullifier(n: NC.Nullifier) returns (spent: bool)
      requires Valid()
      modifies Repr
      ensures Valid() && hasModifier == old(hasModifier)
      ensures (spent, NullifierView()) == NC.GetNullifier(old(NullifierView()), n)
      ensures CoinsView() == old(CoinsView()) && AnchorView() == old(AnchorView())
      decreases Repr
    {
      if n in cacheNullifiers {
        return cacheNullifiers[n].entered;
      }
      if base == null {
        spent := n in backend.nullifiers;
      } else {
        spent := base.GetNullifier(n);
      }
      cacheNullifiers := cacheNullifiers[n := NC.Entry(spent, false)];
    }

    method SetNullifiers(ns: seq<NC.Nullifier>, spent: bool)
      requires Valid()
      modifies this
      ensures Valid() && hasModifier == old(hasModifier)
      ensures NullifierView() == NC.SetNullifiers(old(NullifierView()), ns, spent)
      ensures CoinsView() == old(CoinsView()) && AnchorView() == old(AnchorView())
    {
      var i := 0;
      while i < |ns|
        invariant i <= |ns|
        invariant Valid() && hasModifier == old(hasModifier)
        invariant NC.SetNullifiers(NullifierView(), ns[i..], spent) == NC.SetNullifiers(old(NullifierView()), ns, spent)
        invariant CoinsView() == old(CoinsView()) && AnchorView() == old(AnchorView())
      {
        cacheNullifiers := cacheNullifiers[ns[i] := NC.Entry(spent, true)];
        assert ns[i..][1..] == ns[i + 1..];
        i := i + 1;
      }
    }

    method WriteCoins(mapCoins: map<CC.Txid, CC.Entry>)
      requires CC.FreshAssertion(mapCoins, cacheCoins)
      modifies this`cacheCoins, this`cachedCoinsUsage
      ensures cacheCoins == CC.Merge(mapCoins, old(cacheCoins))
      ensures cachedCoinsUsage == old(cachedCoinsUsage) + CC.SumUsage(cacheCoins) - CC.SumUsage(old(cacheCoins))
    {
      var todo := mapCoins.Keys;
      while todo != {}
        invariant todo <= mapCoins.Keys
        invariant forall t :: Get(cacheCoins, t)
                     == (if t in todo then Get(old(cacheCoins), t) else CC.MergeAt(mapCoins, old(cacheCoins), t))
        invariant cachedCoinsUsage == old(cachedCoinsUsage) + CC.SumUsage(cacheCoins) - CC.SumUsage(old(cacheCoins))
        decreases todo
      {
        var t :| t in todo;
        todo := todo - {t};
        assert Get(cacheCoins, t) == Get(old(cacheCoins), t);
        WriteCoin(t, mapCoins[t]);
      }
      SameMap(cacheCoins, CC.Merge(mapCoins, old(cacheCoins)));
    }

    /** One iteration of the merge loop, with the assertion made there. */
    method WriteCoin(t: CC.Txid, child: CC.Entry)
      requires child.isDirty && t !in cacheCoins && !child.coins.IsPruned() ==> child.isFresh
      modifies this`cacheCoins, this`cachedCoinsUsage
      ensures forall x :: Get(cacheCoins, x) == (if x == t then CC.MergeEntry(child, Get(old(cacheCoins), t)) else Get(old(cacheCoins), x))
      ensures cachedCoinsUsage - CC.SumUsage(cacheCoins) == old(cachedCoinsUsage) - CC.SumUsage(old(cacheCoins))
    {
      if child.isDirty {
        if t !in cacheCoins {
          if !child.coins.IsPruned() {
            assert child.isFresh;
            CC.SumUsagePut(cacheCoins, t, CC.Entry(child.coins, true, true));
            assert cacheCoins - {t} == cacheCoins;
            cacheCoins := cacheCoins[t := CC.Entry(child.coins, true, true)];
            cachedCoinsUsage := cachedCoinsUsage + Coins.Usage(child.coins);
          }
        } else {
          CC.SumUsageSplit(cacheCoins, t);
          if cacheCoins[t].isFresh && child.coins.IsPruned() {
            cachedCoinsUsage := cachedCoinsUsage - Coins.Usage(cacheCoins[t].coins);
            cacheCoins := cacheCoins - {t};
          } else {
            CC.SumUsagePut(cacheCoins, t, CC.Entry(child.coins, true, cacheCoins[t].isFresh));
            cachedCoinsUsage := cachedCoinsUsage - Coins.Usage(cacheCoins[t].coins);
            cacheCoins := cacheCoins[t := CC.Entry(child.coins, true, cacheCoins[t].isFresh)];
            cachedCoinsUsage := cachedCoinsUsage + Coins.Usage(cacheCoins[t].coins);
          }
        }
      }
    }

    method WriteAnchors(mapAnchors: map<AC.Root, AC.Entry>)
      modifies this`cacheAnchors, this`cachedCoinsUsage, this`treesUsage
      ensures cacheAnchors == AC.Merge(mapAnchors, old(cacheAnchors))
      ensures treesUsage == old(treesUsage) + AC.SumTrees(cacheAnchors) - AC.SumTrees(old(cacheAnchors))
      ensures cachedCoinsUsage - treesUsage == old(cachedCoinsUsage - treesUsage)
    {
      var todo := mapAnchors.Keys;
      while todo != {}
        invariant todo <= mapAnchors.Keys
        invariant forall t :: Get(cacheAnchors, t)
                     == (if t in todo then Get(old(cacheAnchors), t) else AC.MergeAt(mapAnchors, old(cacheAnchors), t))
        invariant treesUsage - AC.SumTrees(cacheAnchors) == old(treesUsage) - AC.SumTrees(old(cacheAnchors))
        invariant cachedCoinsUsage - treesUsage == old(cachedCoinsUsage - treesUsage)
        decreases todo
      {
        var t :| t in todo;
        todo := todo - {t};
        assert Get(cacheAnchors, t) == Get(old(cacheAnchors), t);
        WriteAnchor(t, mapAnchors[t]);
      }
      SameMap(cacheAnchors, AC.Merge(mapAnchors, old(cacheAnchors)));
    }

    /** One iteration of the merge loop: a new entry is charged, an existing one keeps its tree. */
    method WriteAnchor(t: AC.Root, child: AC.Entry)
      modifies this`cacheAnchors, this`cachedCoinsUsage, this`treesUsage
      ensures forall x :: Get(cacheAnchors, x) == (if x == t then AC.MergeEntry(child, Get(old(cacheAnchors), t)) else Get(old(cacheAnchors), x))
      ensures treesUsage - AC.SumTrees(cacheAnchors) == old(treesUsage) - AC.SumTrees(old(cacheAnchors))
      ensures cachedCoinsUsage - treesUsage == old(cachedCoinsUsage - treesUsage)
    {
      if child.isDirty {
        if t !in cacheAnchors {
          AC.SumTreesPut(cacheAnchors, t, AC.Entry(child.entered, child.tree, true));
          cacheAnchors := cacheAnchors[t := AC.Entry(child.entered, child.tree, true)];
          Charge(AC.TreeUsage(child.tree));
        } else if cacheAnchors[t].entered != child.entered {
          AC.SumTreesPut(cacheAnchors, t, cacheAnchors[t].(entered := child.entered, isDirty := true));
          cacheAnchors := cacheAnchors[t := cacheAnchors[t].(entered := child.entered, isDirty := true)];
        }
      }
    }

    method WriteNullifiers(mapNullifiers: map<NC.Nullifier, NC.Entry>)
      modifies this`cacheNullifiers
      ensures cacheNullifiers == NC.Merge(mapNullifiers, old(cacheNullifiers))
    {
      var todo := mapNullifiers.Keys;
      while todo != {}
        invariant todo <= mapNullifiers.Keys
        invariant forall t :: Get(cacheNullifiers, t)
                     == (if t in todo then Get(old(cacheNullifiers), t) else NC.MergeAt(mapNullifiers, old(cacheNullifiers), t))
        decreases todo
      {
        var t :| t in todo;
        todo := todo - {t};
        assert Get(cacheNullifiers, t) == Get(old(cacheNullifiers), t);
        var child := mapNullifiers[t];
        if child.isDirty {
          if t !in cacheNullifiers {
            cacheNullifiers := cacheNullifiers[t := NC.Entry(child.entered, true)];
          } else if cacheNullifiers[t].entered != child.entered {
            cacheNullifiers := cacheNullifiers[t := NC.Entry(child.entered, true)];
          }
        }
      }
      SameMap(cacheNullifiers, NC.Merge(mapNullifiers, old(cacheNullifiers)));
    }

    method BatchCoins(mapCoins: map<CC.Txid, CC.Entry>)
      requires Valid() && CC.FreshAssertion(mapCoins, cacheCoins)
      modifies this`cacheCoins, this`cachedCoinsUsage
      ensures Valid() && CoinsView() == CC.BatchWrite(old(CoinsView()), mapCoins)
      ensures AnchorView() == old(AnchorView()) && NullifierView() == old(NullifierView())
    {
      WriteCoins(mapCoins);
    }

    method BatchAnchors(mapAnchors: map<AC.Root, AC.Entry>, best: Option<AC.Root>)
      requires Valid()
      modifies this`cacheAnchors, this`cachedCoinsUsage, this`treesUsage, this`hashAnchor
      ensures Valid() && AnchorView() == AC.BatchWrite(root, old(AnchorView()), mapAnchors, best)
      ensures CoinsView() == old(CoinsView()) && NullifierView() == old(NullifierView())
    {
      WriteAnchors(mapAnchors);
      hashAnchor := best;
    }

    method BatchNullifiers(mapNullifiers: map<NC.Nullifier, NC.Entry>)
      requires Valid()
      modifies this`cacheNullifiers
      ensures Valid() && NullifierView() == NC.BatchWrite(old(NullifierView()), mapNullifiers)
      ensures CoinsView() == old(CoinsView()) && AnchorView() == old(AnchorView())
    {
      WriteNullifiers(mapNullifiers);
    }

    /** Write the changes of the layer below its own child into this cache. */
    method BatchWrite(mapCoins: map<CC.Txid, CC.Entry>, best: Option<AC.Root>,
                      mapAnchors: map<AC.Root, AC.Entry>, mapNullifiers: map<NC.Nullifier, NC.Entry>)
      requires Valid() && !hasModifier
      requires CC.FreshAssertion(mapCoins, cacheCoins)
      modifies this
      ensures Valid() && !hasModifier
      ensures CoinsView() == CC.BatchWrite(old(CoinsView()), mapCoins)
      ensures AnchorView() == AC.BatchWrite(root, old(AnchorView()), mapAnchors, best)
      ensures NullifierView() == NC.BatchWrite(old(NullifierView()), mapNullifiers)
    {
      BatchCoins(mapCoins);
      BatchAnchors(mapAnchors, best);
      BatchNullifiers(mapNullifiers);
    }

    /** Hand the three maps and the best anchor to the view below. */
    method WriteToDatabase()
      requires Valid() && base == null
      modifies backend
      ensures Valid()
      ensures CoinsBelow() == CC.BatchWrite(old(CoinsBelow()), cacheCoins)
      ensures AnchorsBelow() == AC.BatchWrite(root, old(AnchorsBelow()), cacheAnchors, hashAnchor)
      ensures NullifiersBelow() == NC.BatchWrite(old(NullifiersBelow()), cacheNullifiers)
    {
      backend.WriteCoins(cacheCoins);
      backend.WriteAnchors(root, cacheAnchors, hashAnchor);
      backend.WriteNullifiers(cacheNullifiers);
    }

    method WriteToCache()
      requires Valid() && base != null
      requires CC.Valid(CoinsView())
      modifies base
      ensures Valid()
      ensures CoinsBelow() == CC.BatchWrite(old(CoinsBelow()), cacheCoins)
      ensures AnchorsBelow() == AC.BatchWrite(root, old(AnchorsBelow()), cacheAnchors, hashAnchor)
      ensures NullifiersBelow() == NC.BatchWrite(old(NullifiersBelow()), cacheNullifiers)
    {
      assert CoinsView().base == base.CoinsView();
      CC.FreshAssertionHolds(CoinsView());
      base.BatchWrite(cacheCoins, hashAnchor, cacheAnchors, cacheNullifiers);
    }

    /** Push everything down one level. The invariant on the coins makes the assertion in the merge hold. */
    method Flush()
      requires Valid() && !hasModifier
      requires CC.Valid(CoinsView())
      modifies Repr
      ensures Valid() && !hasModifier
      ensures CoinsView() == CC.Flush(old(CoinsView()))
      ensures AnchorView() == AC.Flush(root, old(AnchorView()))
      ensures NullifierView() == NC.Flush(old(NullifierView()))
    {
      WriteDown();
      ForgetMaps();
    }

    method WriteDown()
      requires Valid() && CC.Valid(CoinsView())
      modifies if base == null then {backend as object} else {base as object}
      ensures Valid()
      ensures CoinsBelow() == CC.BatchWrite(old(CoinsBelow()), cacheCoins)
      ensures AnchorsBelow() == AC.BatchWrite(root, old(AnchorsBelow()), cacheAnchors, hashAnchor)
      ensures NullifiersBelow() == NC.BatchWrite(old(NullifiersBelow()), cacheNullifiers)
      ensures unchanged(this)
    {
      if base == null {
        WriteToDatabase();
      } else {
        WriteToCache();
      }
    }

    method ForgetMaps()
      modifies this`cacheCoins, this`cacheAnchors, this`cacheNullifiers, this`cachedCoinsUsage, this`treesUsage
      ensures cacheCoins == map[] && cacheAnchors == map[] && cacheNullifiers == map[] && cachedCoinsUsage == treesUsage == 0
    {
      cacheCoins, cacheAnchors, cacheNullifiers, cachedCoinsUsage := map[], map[], map[], 0;
      treesUsage := 0;
    }
  }
}
