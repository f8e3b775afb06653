/**
 * The block tree: every block index entry points to its parent, and to one earlier ancestor so that
 * ancestors far back are found in few steps.
 */
module BlockTree {
  import opened SkipHeights

  class BlockIndex {
    const pprev: BlockIndex?
    const nHeight: int
    const nTime: int
    var pskip: BlockIndex?
    /** The block and all its ancestors. */
    ghost const family: set<BlockIndex>

    /** Add a block to the tree, under its parent. */
    constructor (prev: BlockIndex?, time: int)
      requires prev != null ==> Linked(prev) && SkipsOk(prev)
      ensures pprev == prev && nTime == time && nHeight == (if prev == null then 0 else prev.nHeight + 1)
      ensures Linked(this) && SkipsOk(this)
      ensures prev == null || SkipsSet(prev) ==> SkipsSet(this)
      ensures pskip == if prev == null then null else Ancestor(prev, GetSkipHeight(nHeight))
    {
      pprev := prev;
      nHeight := if prev == null then 0 else prev.nHeight + 1;
      nTime := time;
      pskip := null;
      family := if prev == null then {this} else {this} + prev.family;
      new;
      BuildSkip();
    }

    method BuildSkip()
      requires Linked(this) && (if pprev == null then pskip == null else SkipsOk(pprev))
      modifies this
      ensures SkipsOk(this)
      ensures pskip == if pprev == null then old(pskip) else Ancestor(pprev, GetSkipHeight(nHeight))
    {
      if pprev != null {
        var skip, _ := pprev.GetAncestor(GetSkipHeight(nHeight));
        pskip := skip;
        FamilyBelow(pprev);
      }
    }

    /** The ancestor at a height, or null if there is none, and the rounds that the search took. */
    method GetAncestor(height: int) returns (pindexWalk: BlockIndex?, ghost rounds: nat)
      requires Linked(this) && SkipsOk(this)
      ensures pindexWalk == if 0 <= height <= nHeight then Ancestor(this, height) else null
      ensures SkipsSet(this) && 0 <= height <= nHeight ==> rounds == Rounds(nHeight, height)
    {
      rounds := 0;
      if height > nHeight || height < 0 {
        return null, 0;
      }
      pindexWalk := this;
      var heightWalk := nHeight;
      while heightWalk > height
        invariant pindexWalk != null && Linked(pindexWalk) && SkipsOk(pindexWalk)
        invariant height <= heightWalk == pindexWalk.nHeight
        invariant Ancestor(pindexWalk, height) == Ancestor(this, height)
        invariant SkipsSet(this) ==> SkipsSet(pindexWalk) && rounds + Rounds(heightWalk, height) == Rounds(nHeight, height)
      {
        rounds := rounds + 1;
        var heightSkip := GetSkipHeight(heightWalk);
        var heightSkipPrev := GetSkipHeight(heightWalk - 1);
        if pindexWalk.pskip != null && (heightSkip == height || (heightSkip > height && !(heightSkipPrev < heightSkip - 2 && heightSkipPrev >= height))) {
          AncestorOfAncestor(pindexWalk, heightSkip, height);
          AncestorSkipsOk(pindexWalk, heightSkip);
          pindexWalk := pindexWalk.pskip;
          heightWalk := heightSkip;
        } else {
          AncestorSkipsOk(pindexWalk, heightWalk - 1);
          pindexWalk := pindexWalk.pprev;
          heightWalk := heightWalk - 1;
        }
      }
    }
  }

  /** A block's parents lead down to a genesis block, one height at a time. */
  ghost predicate Linked(b: BlockIndex)
    decreases b.nHeight
  {
    && b.nHeight >= 0
    && if b.nHeight == 0 then b.pprev == null && b.family == {b}
       else b.pprev != null && b.pprev.nHeight == b.nHeight - 1 && b.family == {b} + b.pprev.family && Linked(b.pprev)
  }

  /** The ancestor at a height, found by walking from parent to parent. */
  ghost function Ancestor(b: BlockIndex, height: nat): (r: BlockIndex)
    requires Linked(b) && height <= b.nHeight
    ensures Linked(r) && r.nHeight == height
    decreases b.nHeight
  {
    if height == b.nHeight then b else Ancestor(b.pprev, height)
  }

  lemma {:induction false} FamilyBelow(b: BlockIndex)
    requires Linked(b)
    ensures forall a | a in b.family :: Linked(a) && a.nHeight <= b.nHeight
    decreases b.nHeight
  {
    if b.nHeight > 0 {
      FamilyBelow(b.pprev);
    }
  }

  /** Skip pointers of a block and its ancestors, where set, point to the ancestor at the skip height. */
  ghost predicate SkipsOk(b: BlockIndex)
    requires Linked(b)
    reads b.family
  {
    FamilyBelow(b);
    forall a | a in b.family :: SkipOk(a)
  }

  ghost predicate SkipOk(a: BlockIndex)
    requires Linked(a)
    reads a
  {
    a.pskip == null || a.pskip == Ancestor(a, GetSkipHeight(a.nHeight))
  }

  /** Every block of a block's ancestry but the genesis block has its skip pointer. */
  ghost predicate SkipsSet(b: BlockIndex)
    reads b.family
  {
    forall a | a in b.family :: a.pprev != null ==> a.pskip != null
  }

  lemma {:induction false} AncestorOfAncestor(b: BlockIndex, mid: nat, height: nat)
    requires Linked(b) && height <= mid <= b.nHeight
    ensures Ancestor(Ancestor(b, mid), height) == Ancestor(b, height)
    decreases b.nHeight
  {
    if mid < b.nHeight {
      AncestorOfAncestor(b.pprev, mid, height);
    }
  }

  lemma {:induction false} AncestorSkipsOk(b: BlockIndex, height: nat)
    requires Linked(b) && height <= b.nHeight && SkipsOk(b)
    ensures SkipsOk(Ancestor(b, height)) && Ancestor(b, height) in b.family
    ensures SkipsSet(b) ==> SkipsSet(Ancestor(b, height)) && (b.nHeight > 0 ==> b.pskip != null)
    decreases b.nHeight
  {
    if height < b.nHeight {
      AncestorSkipsOk(b.pprev, height);
    }
  }
}
