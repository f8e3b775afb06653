/** Median time past: the median of the times of a block and its ten closest ancestors. */
module MedianTime {
  import opened BlockTree

  const MEDIAN_TIME_SPAN := 11

  /* ---- Sorting and counting ---- */

  function Insert(x: int, s: seq<int>): seq<int> {
    if s == [] || x <= s[0] then [x] + s else [s[0]] + Insert(x, s[1..])
  }

  function Sort(s: seq<int>): seq<int> {
    if s == [] then [] else Insert(s[|s| - 1], Sort(s[..|s| - 1]))
  }

  predicate Sorted(s: seq<int>) {
    forall i, j | 0 <= i < j < |s| :: s[i] <= s[j]
  }

  /** How many elements are at least `v`. */
  function AtLeast(s: seq<int>, v: int): nat {
    if s == [] then 0 else AtLeast(s[..|s| - 1], v) + (if s[|s| - 1] >= v then 1 else 0)
  }

  lemma {:induction false} AtLeastFront(x: int, s: seq<int>, v: int)
    ensures AtLeast([x] + s, v) == AtLeast(s, v) + (if x >= v then 1 else 0)
  {
    if s != [] {
      assert ([x] + s)[..|s|] == [x] + s[..|s| - 1];
      AtLeastFront(x, s[..|s| - 1], v);
    }
  }

  lemma {:induction false} InsertCounts(x: int, s: seq<int>, v: int)
    ensures AtLeast(Insert(x, s), v) == AtLeast(s, v) + (if x >= v then 1 else 0)
  {
    if s == [] || x <= s[0] {
      AtLeastFront(x, s, v);
    } else {
      InsertCounts(x, s[1..], v);
      AtLeastFront(s[0], s[1..], v);
      assert [s[0]] + s[1..] == s;
      AtLeastFront(s[0], Insert(x, s[1..]), v);
    }
  }

  lemma {:induction false} InsertSorts(x: int, s: seq<int>)
    requires Sorted(s)
    ensures Sorted(Insert(x, s)) && |Insert(x, s)| == |s| + 1
    ensures Insert(x, s)[0] == if s == [] || x <= s[0] then x else s[0]
  {
    if s != [] && x > s[0] {
      InsertSorts(x, s[1..]);
      SortedCons(s[0], Insert(x, s[1..]));
    }
  }

  lemma SortedCons(x: int, s: seq<int>)
    requires Sorted(s) && (s != [] ==> x <= s[0])
    ensures Sorted([x] + s)
  {
    assert s != [] ==> forall j | 0 <= j < |s| :: s[0] <= s[j];
  }

  lemma {:induction false} SortSorts(s: seq<int>, v: int)
    ensures Sorted(Sort(s)) && |Sort(s)| == |s| && AtLeast(Sort(s), v) == AtLeast(s, v)
  {
    if s != [] {
      SortSorts(s[..|s| - 1], v);
      InsertSorts(s[|s| - 1], Sort(s[..|s| - 1]));
      InsertCounts(s[|s| - 1], Sort(s[..|s| - 1]), v);
    }
  }

  lemma {:induction false} SortedCount(s: seq<int>, k: nat, v: int)
    requires Sorted(s) && k < |s|
    ensures s[k] >= v <==> AtLeast(s, v) >= |s| - k
    ensures AtLeast(s, v) <= |s|
  {
    var init, last := s[..|s| - 1], s[|s| - 1];
    if k < |s| - 1 {
      SortedCount(init, k, v);
    } else if init != [] {
      SortedCount(init, k - 1, v);
    }
  }

  /** The median is at least `v` exactly if that holds for at least half of the elements, rounded up. */
  lemma MedianAtLeast(s: seq<int>, v: int)
    requires s != []
    ensures |Sort(s)| == |s| && (Sort(s)[|s| / 2] >= v <==> AtLeast(s, v) >= |s| - |s| / 2)
  {
    SortSorts(s, v);
    SortedCount(Sort(s), |s| / 2, v);
  }

  /* ---- The window ---- */

  /** The times of a block and its ancestors, at most `k` of them, oldest first. */
  ghost function Window(b: BlockIndex?, k: nat): (r: seq<int>)
    requires b != null ==> Linked(b)
    ensures |r| == if b == null then 0 else if k <= b.nHeight then k else b.nHeight + 1
    decreases k
  {
    if k == 0 || b == null then [] else Window(b.pprev, k - 1) + [b.nTime]
  }

  ghost function MedianTimePast(b: BlockIndex): int
    requires Linked(b)
  {
    var w := Window(b, MEDIAN_TIME_SPAN);
    MedianAtLeast(w, 0);
    Sort(w)[|w| / 2]
  }

  /** The source's `GetMedianTimePast`: a buffer filled from its end, then sorted. */
  method GetMedianTimePast(b: BlockIndex) returns (median: int)
    requires Linked(b)
    ensures median == MedianTimePast(b)
  {
    var times := LastTimes(b, MEDIAN_TIME_SPAN);
    median := SortedMiddle(times);
  }

  method LastTimes(b: BlockIndex, span: nat) returns (times: seq<int>)
    requires Linked(b)
    ensures times == Window(b, span)
  {
    var pmedian := new int[span];
    var pbegin: nat := span;
    var pindex: BlockIndex? := b;
    var i := 0;
    while i < span && pindex != null
      invariant 0 <= i <= span && pbegin == span - i
      invariant pindex != null ==> Linked(pindex)
      invariant Window(b, span) == Window(pindex, span - i) + pmedian[pbegin..]
    {
      ghost var before := pmedian[pbegin..];
      WindowStep(pindex, span - i, before);
      pbegin := pbegin - 1;
      pmedian[pbegin] := pindex.nTime;
      assert pmedian[pbegin..] == [pindex.nTime] + before;
      pindex := pindex.pprev;
      i := i + 1;
    }
    assert Window(pindex, span - i) == [];
    times := pmedian[pbegin..];
  }

  method SortedMiddle(times: seq<int>) returns (median: int)
    requires times != []
    ensures |Sort(times)| == |times| && median == Sort(times)[|times| / 2]
  {
    MedianAtLeast(times, 0);
    median := Sort(times)[|times| / 2];
  }

  lemma WindowStep(b: BlockIndex, k: nat, rest: seq<int>)
    requires Linked(b) && k > 0
    ensures Window(b, k) + rest == Window(b.pprev, k - 1) + ([b.nTime] + rest)
  {
  }

  /* ---- Monotonicity ---- */

  /** A longer window has at most one older time in front. */
  lemma {:induction false} WindowLonger(b: BlockIndex?, k: nat)
    requires b != null ==> Linked(b)
    ensures |Window(b, k + 1)| == |Window(b, k)| ==> Window(b, k + 1) == Window(b, k)
    ensures |Window(b, k + 1)| != |Window(b, k)| ==> Window(b, k + 1) == [Window(b, k + 1)[0]] + Window(b, k)
    decreases k
  {
    if k > 0 && b != null {
      WindowLonger(b.pprev, k - 1);
    }
  }

  /** A block no earlier than its parent's median time past does not lower the median. */
  lemma MedianNotBelowParents(b: BlockIndex)
    requires Linked(b) && b.pprev != null && b.nTime >= MedianTimePast(b.pprev)
    ensures MedianTimePast(b) >= MedianTimePast(b.pprev)
  {
    var m := MedianTimePast(b.pprev);
    var before, kept, after := Window(b.pprev, MEDIAN_TIME_SPAN), Window(b.pprev, MEDIAN_TIME_SPAN - 1), Window(b, MEDIAN_TIME_SPAN);
    WindowLonger(b.pprev, MEDIAN_TIME_SPAN - 1);
    if before != kept {
      AtLeastFront(before[0], kept, m);
    }
    assert after[..|after| - 1] == kept;
    MedianAtLeast(before, m);
    MedianAtLeast(after, m);
  }

  /** A block and all its ancestors are no earlier than their parents' median time past. */
  ghost predicate TimesOk(b: BlockIndex)
    requires Linked(b)
    decreases b.nHeight
  {
    b.pprev != null ==> b.nTime >= MedianTimePast(b.pprev) && TimesOk(b.pprev)
  }

  /** Along a chain that obeys the rule, median time past never decreases, from the genesis block on. */
  lemma {:induction false} MedianNeverDecreases(b: BlockIndex, height: nat)
    requires Linked(b) && TimesOk(b) && height <= b.nHeight
    ensures MedianTimePast(Ancestor(b, height)) <= MedianTimePast(b)
    decreases b.nHeight
  {
    if height < b.nHeight {
      MedianNotBelowParents(b);
      MedianNeverDecreases(b.pprev, height);
    }
  }
}
