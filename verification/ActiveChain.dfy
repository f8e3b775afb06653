/** The active chain as an array indexed by height, and what is looked up in it. */
module ActiveChain {
  import opened Arithmetic
  import opened Prelude
  import opened BlockTree

  ghost predicate EntryOk(s: seq<BlockIndex?>, i: nat)
    requires i < |s|
  {
    s[i] != null && Linked(s[i]) && s[i].nHeight == i && (i > 0 ==> s[i].pprev == s[i - 1])
  }

  /** Each entry is the parent of the next one. */
  ghost predicate ChainOk(s: seq<BlockIndex?>) {
    forall i: nat | i < |s| :: EntryOk(s, i)
  }

  /** From height `k` on, the entries are a block and its ancestors. */
  ghost predicate PathFrom(s: seq<BlockIndex?>, tip: BlockIndex, k: int)
    requires Linked(tip)
  {
    |s| == tip.nHeight + 1 && forall i: nat | k <= i < |s| :: s[i] == Ancestor(tip, i)
  }

  lemma {:induction false} EntryAncestor(s: seq<BlockIndex?>, i: nat, j: nat)
    requires ChainOk(s) && i <= j < |s|
    ensures s[j] != null && Linked(s[j]) && s[j].nHeight == j && s[i] == Ancestor(s[j], i)
    decreases j
  {
    assert EntryOk(s, j);
    if i < j {
      EntryAncestor(s, i, j - 1);
    }
  }

  lemma PathIsChain(s: seq<BlockIndex?>, tip: BlockIndex)
    requires Linked(tip) && PathFrom(s, tip, 0)
    ensures ChainOk(s)
  {
    forall i: nat | i < |s|
      ensures EntryOk(s, i)
    {
      if i > 0 {
        AncestorOfAncestor(tip, i, i - 1);
      }
    }
  }

  /** Where the walk from the new tip meets a block of the old chain, everything below is already right. */
  lemma MeetsOldChain(before: seq<BlockIndex?>, s: seq<BlockIndex?>, tip: BlockIndex, b: BlockIndex)
    requires ChainOk(before) && Linked(tip) && Linked(b) && b.nHeight <= tip.nHeight && b == Ancestor(tip, b.nHeight)
    requires PathFrom(s, tip, b.nHeight + 1) && s[b.nHeight] == b
    requires forall i | 0 <= i <= b.nHeight :: s[i] == if i < |before| then before[i] else null
    ensures PathFrom(s, tip, 0)
  {
    forall i: nat | i < |s|
      ensures s[i] == Ancestor(tip, i)
    {
      if i <= b.nHeight {
        EntryAncestor(before, i, b.nHeight);
        AncestorOfAncestor(tip, b.nHeight, i);
      }
    }
  }

  /** The heights that a walk down from a block has still to see. */
  function Below(b: BlockIndex?): int {
    if b == null then 0 else b.nHeight + 1
  }

  /** Where a walk from a block down to its ancestors may stand. */
  ghost predicate OnPath(tip: BlockIndex, b: BlockIndex?)
    requires Linked(tip)
  {
    b == null || (Linked(b) && b.nHeight <= tip.nHeight && b == Ancestor(tip, b.nHeight))
  }

  lemma ParentOnPath(tip: BlockIndex, b: BlockIndex)
    requires Linked(tip) && OnPath(tip, b)
    ensures OnPath(tip, b.pprev) && Below(b.pprev) == b.nHeight
  {
    if b.pprev != null {
      AncestorOfAncestor(tip, b.nHeight, b.nHeight - 1);
    }
  }

  class Chain {
    var vChain: seq<BlockIndex?>

    ghost predicate Valid()
      reads this
    {
      ChainOk(vChain)
    }

    constructor ()
      ensures Valid() && vChain == []
    {
      vChain := [];
    }

    function Tip(): BlockIndex?
      reads this
    {
      if |vChain| > 0 then vChain[|vChain| - 1] else null
    }

    function Height(): int
      reads this
    {
      |vChain| - 1
    }

    /** The entry at a height, or null. */
    function At(height: int): BlockIndex?
      reads this
    {
      if 0 <= height < |vChain| then vChain[height] else null
    }

    predicate Contains(b: BlockIndex)
      reads this
    {
      At(b.nHeight) == b
    }

    /** The child of a block on the chain, or null for the tip and for a block that is not on it. */
    function Next(b: BlockIndex): BlockIndex?
      reads this, b
    {
      if Contains(b) then At(b.nHeight + 1) else null
    }

    /** `vector::resize`: cut off, or fill up with null. */
    method Resize(n: nat)
      modifies this
      ensures |vChain| == n && forall i | 0 <= i < n :: vChain[i] == if i < |old(vChain)| then old(vChain)[i] else null
    {
      if n <= |vChain| {
        vChain := vChain[..n];
      } else {
        vChain := vChain + seq(n - |vChain|, i => null);
      }
    }

    /** Make a block the tip: the chain becomes exactly that block and its ancestors. */
    method SetTip(tip: BlockIndex?)
      requires Valid() && (tip != null ==> Linked(tip))
      modifies this
      ensures Valid()
      ensures tip == null ==> vChain == []
      ensures tip != null ==> PathFrom(vChain, tip, 0)
    {
      if tip == null {
        vChain := [];
        return;
      }
      ghost var before := vChain;
      Resize(tip.nHeight + 1);
      var pindex: BlockIndex? := tip;
      while pindex != null && vChain[pindex.nHeight] != pindex
        invariant OnPath(tip, pindex) && PathFrom(vChain, tip, Below(pindex))
        invariant forall i | 0 <= i < Below(pindex) :: vChain[i] == if i < |before| then before[i] else null
        decreases Below(pindex)
      {
        ParentOnPath(tip, pindex);
        vChain := vChain[pindex.nHeight := pindex];
        pindex := pindex.pprev;
      }
      if pindex != null {
        MeetsOldChain(before, vChain, tip, pindex);
      }
      PathIsChain(vChain, tip);
    }

    /** The last block that a block's ancestry has in common with the chain, or null if there is none. */
    method FindFork(b: BlockIndex) returns (pindex: BlockIndex?)
      requires Valid() && Linked(b) && SkipsOk(b)
      ensures OnPath(b, pindex) && (pindex != null ==> Contains(pindex))
      ensures forall k: nat | Below(pindex) <= k <= b.nHeight :: !Contains(Ancestor(b, k))
    {
      pindex := b;
      if b.nHeight > Height() {
        var found, _ := b.GetAncestor(Height());
        pindex := found;
      }
      while pindex != null && !Contains(pindex)
        invariant OnPath(b, pindex)
        invariant forall k: nat | Below(pindex) <= k <= b.nHeight :: !Contains(Ancestor(b, k))
        decreases Below(pindex)
      {
        ParentOnPath(b, pindex);
        pindex := pindex.pprev;
      }
    }

    /**
     * The blocks named in a locator for a block, by default the tip: that block, the ten before it, and from
     * there on in steps that double each time, down to the genesis block.
     */
    method GetLocator(b: BlockIndex?) returns (vHave: seq<BlockIndex>)
      requires Valid() && (b != null ==> Linked(b) && SkipsOk(b))
      requires Tip() != null ==> Linked(Tip()) && SkipsOk(Tip())
      ensures b == null && vChain == [] ==> vHave == []
      ensures b != null ==> IsLocator(b, vHave)
      ensures b == null && Tip() != null ==> IsLocator(Tip(), vHave)
    {
      var pindex := b;
      if pindex == null {
        pindex := Tip();
      }
      if pindex == null {
        assert vChain == [] || EntryOk(vChain, |vChain| - 1);
        return [];
      }
      vHave := LocatorFrom(pindex);
    }

    method LocatorFrom(start: BlockIndex) returns (vHave: seq<BlockIndex>)
      requires Valid() && Linked(start) && SkipsOk(start)
      ensures IsLocator(start, vHave)
    {
      var nStep := 1;
      vHave := [];
      var pindex := start;
      while true
        invariant Linked(pindex) && SkipsOk(pindex) && nStep == Step(|vHave|)
        invariant LocatorSoFar(start, vHave) && pindex == LocatorEntry(start, |vHave|)
        decreases pindex.nHeight
      {
        ghost var before := vHave;
        vHave := vHave + [pindex];
        if pindex.nHeight == 0 {
          assert vHave[..|vHave| - 1] == before;
          return;
        }
        NextEntry(start, |before|);
        pindex := StepBack(pindex, if pindex.nHeight > nStep then pindex.nHeight - nStep else 0);
        if |vHave| > 10 {
          nStep := nStep * 2;
        }
      }
    }

    /** An ancestor, from the chain if the block is on it and over skip pointers otherwise. */
    method StepBack(b: BlockIndex, height: nat) returns (r: BlockIndex)
      requires Valid() && Linked(b) && SkipsOk(b) && height <= b.nHeight
      ensures r == Ancestor(b, height) && SkipsOk(r)
    {
      AncestorSkipsOk(b, height);
      if Contains(b) {
        EntryAncestor(vChain, height, b.nHeight);
        r := vChain[height];
      } else {
        var found, _ := b.GetAncestor(height);
        r := found;
      }
    }
  }

  /** The height of the chain is its tip's. */
  lemma TipHeight(c: Chain)
    requires c.Valid()
    ensures c.Tip() == null <==> c.vChain == []
    ensures c.Tip() != null ==> Linked(c.Tip())
    ensures c.Height() == if c.Tip() == null then -1 else c.Tip().nHeight
  {
    if c.vChain != [] {
      EntryAncestor(c.vChain, |c.vChain| - 1, |c.vChain| - 1);
    }
  }

  /** One look at a block's own height tells whether it is anywhere on the chain, that is, an ancestor of the tip. */
  lemma ContainsIff(c: Chain, b: BlockIndex)
    requires c.Valid() && Linked(b)
    ensures c.Contains(b) <==> b in c.vChain
    ensures c.Contains(b) <==> c.Tip() != null && Linked(c.Tip()) && OnPath(c.Tip(), b)
  {
    TipHeight(c);
    forall i: nat | i < |c.vChain|
      ensures c.vChain[i] != null && c.vChain[i].nHeight == i && c.vChain[i] == Ancestor(c.Tip(), i)
    {
      EntryAncestor(c.vChain, i, i);
      EntryAncestor(c.vChain, i, |c.vChain| - 1);
    }
  }

  /** The block after one on the chain is its child there; only the tip and blocks off the chain have none. */
  lemma NextIsChild(c: Chain, b: BlockIndex)
    requires c.Valid()
    ensures c.Next(b) != null <==> c.Contains(b) && c.Tip() != b
    ensures c.Next(b) != null ==> c.Next(b).pprev == b && c.Contains(c.Next(b))
  {
    TipHeight(c);
    if c.Contains(b) && b.nHeight < c.Height() {
      assert EntryOk(c.vChain, b.nHeight + 1);
    }
  }

  /** Two chains with the same tip hold the same blocks. */
  lemma SameTip(c: Chain, d: Chain)
    requires c.Valid() && d.Valid() && c.Tip() == d.Tip()
    ensures c.vChain == d.vChain
  {
    TipHeight(c);
    TipHeight(d);
    forall i: nat | i < |c.vChain|
      ensures c.vChain[i] == d.vChain[i]
    {
      EntryAncestor(c.vChain, i, |c.vChain| - 1);
      EntryAncestor(d.vChain, i, |d.vChain| - 1);
    }
  }

  /** How far back from the first block entry `i` of a locator is. */
  function Offset(i: nat): (r: nat)
    ensures r >= i
  {
    if i <= 10 then i else 9 + Pow2(i - 10)
  }

  function Step(i: nat): (r: nat)
    ensures r == Offset(i + 1) - Offset(i) > 0
  {
    if i <= 10 then 1 else Pow2(i - 10)
  }

  ghost function LocatorEntry(b: BlockIndex, i: nat): BlockIndex
    requires Linked(b)
  {
    Ancestor(b, if b.nHeight > Offset(i) then b.nHeight - Offset(i) else 0)
  }

  /** The entries so far are the right ones, and none of them is the genesis block. */
  ghost predicate LocatorSoFar(b: BlockIndex, have: seq<BlockIndex>)
    requires Linked(b)
  {
    forall i: nat | i < |have| :: have[i] == LocatorEntry(b, i) && have[i].nHeight > 0
  }

  ghost predicate IsLocator(b: BlockIndex, have: seq<BlockIndex>)
    requires Linked(b)
  {
    && have != [] && have[|have| - 1].nHeight == 0 && have[|have| - 1] == LocatorEntry(b, |have| - 1)
    && LocatorSoFar(b, have[..|have| - 1])
  }

  lemma NextEntry(b: BlockIndex, i: nat)
    requires Linked(b) && LocatorEntry(b, i).nHeight > 0
    ensures var h := LocatorEntry(b, i).nHeight;
            LocatorEntry(b, i + 1) == Ancestor(LocatorEntry(b, i), if h > Step(i) then h - Step(i) else 0)
  {
    var h := LocatorEntry(b, i).nHeight;
    AncestorOfAncestor(b, h, if h > Step(i) then h - Step(i) else 0);
  }

  /** How often one has to be doubled to reach a number. */
  function CeilLog2(h: nat): (r: nat)
    ensures Pow2(r) >= h && (r > 0 ==> Pow2(r - 1) < h)
  {
    if h <= 1 then 0 else 1 + CeilLog2((h + 1) / 2)
  }

  /** A locator starts with the block, goes strictly down its ancestors to the genesis block, and is short. */
  lemma LocatorShape(b: BlockIndex, have: seq<BlockIndex>)
    requires Linked(b) && IsLocator(b, have)
    ensures have[0] == b && have[|have| - 1] == Ancestor(b, 0)
    ensures forall i: nat | i < |have| :: OnPath(b, have[i])
    ensures forall i, j | 0 <= i < j < |have| :: have[i].nHeight > have[j].nHeight
    ensures |have| <= 11 + CeilLog2(b.nHeight)
  {
    var n := |have|;
    forall i: nat | i < n
      ensures have[i] == LocatorEntry(b, i) && (i < n - 1 ==> have[i].nHeight > 0)
    {
      assert i < n - 1 ==> have[..n - 1][i] == have[i];
    }
    forall i, j | 0 <= i < j < n
      ensures have[i].nHeight > have[j].nHeight
    {
      OffsetGrows(i, j);
    }
    if n > 12 {
      assert have[n - 2].nHeight > 0;
      if CeilLog2(b.nHeight) <= n - 12 {
        Pow2Monotone(CeilLog2(b.nHeight), n - 12);
      }
    } else if n == 12 {
      assert have[10].nHeight > 0;
      assert CeilLog2(b.nHeight) > 0;
    }
  }

  /** The first twelve entries are consecutive; from there on the gap doubles with every entry, until the genesis block cuts it short. */
  lemma LocatorGaps(b: BlockIndex, have: seq<BlockIndex>, i: nat)
    requires Linked(b) && IsLocator(b, have) && i + 1 < |have|
    ensures have[i + 1].nHeight == Max(0, have[i].nHeight - if i <= 10 then 1 else Pow2(i - 10))
  {
    var n := |have|;
    assert have[..n - 1][i] == have[i] == LocatorEntry(b, i);
    assert i + 1 < n - 1 ==> have[..n - 1][i + 1] == have[i + 1];
    assert Step(i) == Offset(i + 1) - Offset(i);
  }

  lemma {:induction false} OffsetGrows(i: nat, j: nat)
    requires i < j
    ensures Offset(i) < Offset(j)
  {
    if i + 1 < j {
      OffsetGrows(i, j - 1);
    }
    assert Step(j - 1) == Offset(j) - Offset(j - 1);
  }
}
