/**
 * The Merkle mountain range of block history: which of the stored nodes are its peaks, and which further
 * nodes are needed to take the last leaf off again.
 */
module HistoryTree {
  import opened Prelude
  import opened Arithmetic

  /* ---- Machine arithmetic ---- */

  /** `1 << k` in the source's signed 32-bit arithmetic. */
  function Shift1(k: uint32): (r: uint32)
    requires k <= 30
    ensures r as int == Pow2(k as nat)
  {
    Pow2Monotone(k as nat, 30);
    Pow2Values();
    Pow2(k as nat) as uint32
  }

  function Log2(x: nat): (r: nat)
    requires x > 0
    ensures Pow2(r) <= x < Pow2(r + 1)
  {
    if x == 1 then 0 else 1 + Log2(x / 2)
  }

  method FloorLog2(x: uint32) returns (log: uint32)
    requires x > 0
    ensures log as nat == Log2(x as nat)
  {
    log := 0;
    var rest := x;
    while rest / 2 != 0
      invariant rest > 0 && log as nat + Log2(rest as nat) == Log2(x as nat)
    {
      rest, log := rest / 2, log + 1;
    }
  }

  /** The height of the first mountain of a range with `n` nodes. */
  method Altitude(n: uint32) returns (alt: uint32)
    requires 0 < n as int < UINT32_LIMIT - 1
    ensures alt as nat == Log2(n as nat + 1) - 1
    ensures n < 0x7fff_ffff ==> alt <= 29
  {
    var log := FloorLog2(n + 1);
    alt := log - 1;
    if alt >= 30 {
      Pow2Monotone(31, log as nat);
      Pow2Values();
    }
  }

  /* ---- The mountain range as it grows ---- */

  /** A stored node: a leaf, or the parent of two earlier nodes. */
  datatype Shape = Leaf | Inner(left: nat, right: nat)

  datatype Peak = Peak(alt: nat, pos: nat)

  /** The stored nodes in the order they were appended, and the roots of the mountains from left to right. */
  datatype Range = Range(nodes: seq<Shape>, peaks: seq<Peak>)

  function Last<T>(s: seq<T>): T
    requires s != []
  {
    s[|s| - 1]
  }

  function Init<T>(s: seq<T>): seq<T>
    requires s != []
  {
    s[..|s| - 1]
  }

  /** Join the last two mountains for as long as they are equally high. */
  function Merge(nodes: seq<Shape>, peaks: seq<Peak>, last: Peak): Range
    decreases |peaks|
  {
    if peaks != [] && Last(peaks).alt == last.alt then
      Merge(nodes + [Inner(Last(peaks).pos, last.pos)], Init(peaks), Peak(last.alt + 1, |nodes|))
    else
      Range(nodes, peaks + [last])
  }

  /** Append a leaf. */
  function Push(r: Range): Range {
    Merge(r.nodes + [Leaf], r.peaks, Peak(0, |r.nodes|))
  }

  /** The range of `m` leaves. */
  function Built(m: nat): Range {
    if m == 0 then Range([], []) else Push(Built(m - 1))
  }

  /** The nodes in a mountain. */
  function Width(alt: nat): (r: nat)
    ensures r >= 1
  {
    if alt == 0 then 1 else 2 * Width(alt - 1) + 1
  }

  lemma {:induction false} WidthIsPow2(alt: nat)
    ensures Width(alt) + 1 == Pow2(alt + 1)
  {
    if alt > 0 {
      WidthIsPow2(alt - 1);
    }
  }

  lemma {:induction false} WidthMonotone(a: nat, b: nat)
    requires a <= b
    ensures Width(a) <= Width(b)
  {
    if a < b {
      WidthMonotone(a, b - 1);
    }
  }

  function Leaves(t: seq<Peak>): nat {
    if t == [] then 0 else Leaves(Init(t)) + Pow2(Last(t).alt)
  }

  /** Where mountain `k` begins. */
  function Start(t: seq<Peak>, k: nat): nat
    requires k <= |t|
  {
    if k == 0 then 0 else t[k - 1].pos + 1
  }

  /** Mountain `k` begins where the one before it ends, and is lower. */
  predicate Fits(t: seq<Peak>, k: nat)
    requires k < |t|
  {
    && t[k].pos + 1 == Start(t, k) + Width(t[k].alt)
    && (k > 0 ==> t[k - 1].alt > t[k].alt)
  }

  /** Mountains of strictly descending height that cover each of the first `length` positions exactly once. */
  predicate Tiles(t: seq<Peak>, length: nat) {
    && (forall k: nat | k < |t| :: Fits(t, k))
    && Start(t, |t|) == length
  }

  /** The nodes below a mountain's root are those of a perfect binary tree, children before parents. */
  predicate Perfect(nodes: seq<Shape>, p: Peak)
    decreases p.alt
  {
    && p.pos < |nodes| && Width(p.alt) <= p.pos + 1
    && if p.alt == 0 then nodes[p.pos] == Leaf
       else nodes[p.pos] == Inner(LeftOf(p).pos, RightOf(p).pos) && Perfect(nodes, LeftOf(p)) && Perfect(nodes, RightOf(p))
  }

  function LeftOf(p: Peak): Peak
    requires p.alt > 0 && Width(p.alt) <= p.pos + 1
  {
    Peak(p.alt - 1, p.pos - 1 - Width(p.alt - 1))
  }

  function RightOf(p: Peak): Peak
    requires p.alt > 0 && Width(p.alt) <= p.pos + 1
  {
    Peak(p.alt - 1, p.pos - 1)
  }

  predicate PerfectAt(nodes: seq<Shape>, t: seq<Peak>, k: nat)
    requires k < |t|
  {
    Perfect(nodes, t[k])
  }

  predicate AllPerfect(nodes: seq<Shape>, t: seq<Peak>) {
    forall k: nat | k < |t| :: PerfectAt(nodes, t, k)
  }

  ghost predicate Sound(r: Range, m: nat) {
    Tiles(r.peaks, |r.nodes|) && Leaves(r.peaks) == m && AllPerfect(r.nodes, r.peaks)
  }

  lemma {:induction false} PerfectFrame(nodes: seq<Shape>, node: Shape, p: Peak)
    requires Perfect(nodes, p)
    ensures Perfect(nodes + [node], p)
    decreases p.alt
  {
    if p.alt > 0 {
      PerfectFrame(nodes, node, LeftOf(p));
      PerfectFrame(nodes, node, RightOf(p));
    }
  }

  lemma AllPerfectFrame(nodes: seq<Shape>, node: Shape, t: seq<Peak>)
    requires AllPerfect(nodes, t)
    ensures AllPerfect(nodes + [node], t)
  {
    forall k: nat | k < |t|
      ensures PerfectAt(nodes + [node], t, k)
    {
      assert PerfectAt(nodes, t, k);
      PerfectFrame(nodes, node, t[k]);
    }
  }

  lemma TilesInit(t: seq<Peak>, length: nat)
    requires Tiles(t, length) && t != []
    ensures Tiles(Init(t), Start(t, |t| - 1)) && Fits(t, |t| - 1)
  {
    forall k: nat | k < |t| - 1
      ensures Fits(Init(t), k)
    {
      assert Fits(t, k);
    }
  }

  lemma TilesAppend(t: seq<Peak>, length: nat, p: Peak)
    requires Tiles(t, length) && p.pos + 1 == length + Width(p.alt) && (t != [] ==> Last(t).alt > p.alt)
    ensures Tiles(t + [p], p.pos + 1)
    ensures Leaves(t + [p]) == Leaves(t) + Pow2(p.alt)
  {
    assert Init(t + [p]) == t;
    forall k: nat | k < |t| + 1
      ensures Fits(t + [p], k)
    {
      assert k < |t| ==> Fits(t, k);
    }
  }

  /** What holds between the steps of an append: only the last two mountains may be equally high. */
  ghost predicate Merging(nodes: seq<Shape>, peaks: seq<Peak>, last: Peak, m: nat) {
    && Tiles(peaks, Start(peaks, |peaks|)) && (peaks != [] ==> Last(peaks).alt >= last.alt)
    && last.pos + 1 == |nodes| == Start(peaks, |peaks|) + Width(last.alt)
    && Leaves(peaks) + Pow2(last.alt) == m
    && AllPerfect(nodes, peaks) && Perfect(nodes, last)
  }

  /** Joining equally high neighbours keeps the cover, and the parent's children are where the source looks. */
  lemma MergeStep(nodes: seq<Shape>, peaks: seq<Peak>, last: Peak, m: nat)
    requires Merging(nodes, peaks, last, m) && peaks != [] && Last(peaks).alt == last.alt
    ensures Merging(nodes + [Inner(Last(peaks).pos, last.pos)], Init(peaks), Peak(last.alt + 1, |nodes|), m)
  {
    var left, rest := Last(peaks), Init(peaks);
    var node := Inner(left.pos, last.pos);
    TilesInit(peaks, Start(peaks, |peaks|));
    assert PerfectAt(nodes, peaks, |peaks| - 1);
    AllPerfectFrame(nodes, node, peaks);
    PerfectFrame(nodes, node, left);
    PerfectFrame(nodes, node, last);
    assert RightOf(Peak(last.alt + 1, |nodes|)) == last;
    assert LeftOf(Peak(last.alt + 1, |nodes|)) == left;
    forall k: nat | k < |rest|
      ensures PerfectAt(nodes + [node], rest, k)
    {
      assert PerfectAt(nodes + [node], peaks, k);
    }
    assert peaks != [] && rest != [] ==> Fits(peaks, |peaks| - 1);
  }

  lemma {:induction false} MergeSound(nodes: seq<Shape>, peaks: seq<Peak>, last: Peak, m: nat)
    requires Merging(nodes, peaks, last, m)
    ensures Sound(Merge(nodes, peaks, last), m)
    decreases |peaks|
  {
    if peaks != [] && Last(peaks).alt == last.alt {
      MergeStep(nodes, peaks, last, m);
      MergeSound(nodes + [Inner(Last(peaks).pos, last.pos)], Init(peaks), Peak(last.alt + 1, |nodes|), m);
    } else {
      TilesAppend(peaks, Start(peaks, |peaks|), last);
      forall k: nat | k < |peaks| + 1
        ensures PerfectAt(nodes, peaks + [last], k)
      {
        assert k < |peaks| ==> PerfectAt(nodes, peaks, k);
      }
    }
  }

  /** Any number of appends leaves perfect mountains of strictly descending height that cover all nodes. */
  lemma {:induction false} BuiltSound(m: nat)
    ensures Sound(Built(m), m)
  {
    if m > 0 {
      BuiltSound(m - 1);
      var r := Built(m - 1);
      AllPerfectFrame(r.nodes, Leaf, r.peaks);
      MergeSound(r.nodes + [Leaf], r.peaks, Peak(0, |r.nodes|), m);
    }
  }

  /* ---- How many nodes a range has ---- */

  function Popcount(m: nat): nat {
    if m == 0 then 0 else m % 2 + Popcount(m / 2)
  }

  /** The nodes of a range with `m` leaves. */
  function Size(m: nat): int {
    2 * m - Popcount(m)
  }

  lemma {:induction false} PopcountShifted(a: nat, y: nat)
    ensures Popcount(Pow2(a) * y) == Popcount(y)
  {
    if a > 0 && y > 0 {
      MulAssoc(2, Pow2(a - 1), y);
      PopcountShifted(a - 1, y);
      MulMonotone(Pow2(a), 1, y);
    }
  }

  lemma OneMoreBit(a: nat, d: nat, z: nat) returns (y: nat)
    requires d > 0
    ensures Pow2(a + d) * z + Pow2(a) == Pow2(a) * y && Popcount(y) == Popcount(z) + 1
  {
    var w := Pow2(d - 1) * z;
    y := 2 * w + 1;
    PopcountShifted(d - 1, z);
    PopcountOdd(w);
    Pow2Sum(a, d);
    MulAssoc(2, Pow2(d - 1), z);
    FactorOut(Pow2(a), Pow2(d), z);
  }

  lemma PopcountOdd(w: nat)
    ensures Popcount(2 * w + 1) == Popcount(w) + 1
  {
    assert (2 * w + 1) / 2 == w;
  }

  lemma FactorOut(a: int, d: int, z: int)
    ensures a * d * z + a == a * (d * z + 1)
  {
    MulAssoc(a, d, z);
    MulDistributes(a, d * z, 1);
  }

  lemma {:induction false} TilesLength(t: seq<Peak>, length: nat)
    requires Tiles(t, length)
    ensures length == 2 * Leaves(t) - |t|
  {
    if t != [] {
      TilesInit(t, length);
      WidthIsPow2(Last(t).alt);
      TilesLength(Init(t), Start(t, |t| - 1));
    }
  }

  /** A range has one mountain for each one in the binary notation of its number of leaves. */
  lemma {:induction false} TilesPopcount(t: seq<Peak>, length: nat) returns (y: nat)
    requires Tiles(t, length)
    ensures Popcount(Leaves(t)) == |t|
    ensures t != [] ==> Leaves(t) == Pow2(Last(t).alt) * y && Popcount(y) == |t|
  {
    y := 0;
    if t != [] {
      TilesInit(t, length);
      var rest, a := Init(t), Last(t).alt;
      var z := TilesPopcount(rest, Start(t, |t| - 1));
      if rest == [] {
        y := 1;
      } else {
        y := OneMoreBit(a, Last(rest).alt - a, z);
      }
      PopcountShifted(a, y);
    }
  }

  lemma BuiltSize(m: nat)
    ensures Tiles(Built(m).peaks, |Built(m).nodes|)
    ensures |Built(m).nodes| == Size(m) && |Built(m).peaks| == Popcount(m)
  {
    BuiltSound(m);
    TilesLength(Built(m).peaks, |Built(m).nodes|);
    var y := TilesPopcount(Built(m).peaks, |Built(m).nodes|);
  }

  /* ---- Finding the peaks from the number of nodes alone ---- */

  /** The peaks the source's loop takes from a candidate position and altitude on, after those already taken. */
  function Walk(n: nat, p: Peak, taken: seq<Peak>): seq<Peak>
    requires Width(p.alt) <= p.pos + 1
    decreases p.alt, if p.pos < n then n - p.pos else 0
  {
    if p.alt == 0 then taken
    else
      var q := if p.pos >= n then LeftOf(p) else p;
      if q.pos < n then Walk(n, Peak(q.alt, q.pos + Width(q.alt)), taken + [q]) else Walk(n, q, taken)
  }

  lemma WalkOn(n: nat, p: Peak, taken: seq<Peak>)
    requires Width(p.alt) <= p.pos + 1 && p.alt > 0
    ensures var q := if p.pos >= n then LeftOf(p) else p;
            && Width(q.alt) <= q.pos + 1
            && Walk(n, p, taken) == if q.pos < n then Walk(n, Peak(q.alt, q.pos + Width(q.alt)), taken + [q]) else Walk(n, q, taken)
  {
  }

  /** The first candidate: the highest mountain that can begin at position 0. */
  function FirstCandidate(n: nat): (p: Peak)
    requires n > 0
    ensures Width(p.alt) == p.pos + 1 <= n < Width(p.alt + 1)
  {
    var alt := Log2(n + 1) - 1;
    WidthIsPow2(alt);
    WidthIsPow2(alt + 1);
    Peak(alt, Pow2(alt + 1) - 2)
  }

  function Peaks(n: nat): seq<Peak> {
    if n == 0 then [] else if n == 1 then [Peak(0, 0)] else Walk(n, FirstCandidate(n), [])
  }

  lemma {:induction false} RestBound(t: seq<Peak>, length: nat, k: nat)
    requires Tiles(t, length) && k < |t|
    ensures length < Start(t, k) + Width(t[k].alt + 1)
    ensures length >= Start(t, k) + Width(t[k].alt)
    decreases |t| - k
  {
    assert Fits(t, k);
    if k + 1 < |t| {
      assert Fits(t, k + 1);
      RestBound(t, length, k + 1);
      WidthMonotone(t[k + 1].alt + 1, t[k].alt);
    }
  }

  /** A candidate at least as high as the next mountain is within the range exactly if it is that mountain. */
  lemma CandidateIsNext(n: nat, p: Peak, t: seq<Peak>, k: nat)
    requires Tiles(t, n) && k < |t| && p.pos + 1 == Start(t, k) + Width(p.alt) && t[k].alt <= p.alt
    ensures p.pos < n <==> t[k] == p
    ensures p.pos >= n ==> t[k].alt < p.alt
  {
    assert Fits(t, k);
    RestBound(t, n, k);
    if t[k].alt < p.alt {
      WidthMonotone(t[k].alt + 1, p.alt);
    }
  }

  /** The walk takes exactly the mountains of any proper cover: none is skipped and none is invented. */
  lemma {:induction false} WalkFinds(n: nat, p: Peak, t: seq<Peak>, k: nat)
    requires Tiles(t, n) && k <= |t| && p.pos + 1 == Start(t, k) + Width(p.alt)
    requires k < |t| ==> t[k].alt <= p.alt
    requires p.alt == 0 ==> k == |t|
    ensures Walk(n, p, t[..k]) == t
    decreases p.alt, if p.pos < n then n - p.pos else 0
  {
    if p.alt > 0 {
      var q := if p.pos >= n then LeftOf(p) else p;
      if k < |t| {
        CandidateIsNext(n, p, t, k);
        CandidateIsNext(n, q, t, k);
      }
      if q.pos < n {
        assert k + 1 < |t| ==> Fits(t, k + 1);
        assert t[..k] + [q] == t[..k + 1];
        WalkFinds(n, Peak(q.alt, q.pos + Width(q.alt)), t, k + 1);
      } else {
        WalkFinds(n, q, t, k);
      }
    } else {
      assert t[..k] == t;
    }
  }

  /** A proper cover of `n` positions is what the source finds; in particular there is at most one. */
  lemma PeaksFindCover(n: nat, t: seq<Peak>)
    requires Tiles(t, n)
    ensures Peaks(n) == t
  {
    if t != [] {
      assert Fits(t, 0);
      assert |t| > 1 ==> Fits(t, 1);
      RestBound(t, n, 0);
      if n == 1 {
        assert t == [Peak(0, 0)];
      } else {
        var p := FirstCandidate(n);
        if t[0].alt < p.alt {
          WidthMonotone(t[0].alt + 1, p.alt);
        } else if t[0].alt > p.alt {
          WidthMonotone(p.alt + 1, t[0].alt);
        }
        WalkFinds(n, p, t, 0);
        assert t[..0] == [];
      }
    }
  }

  /** The peaks found are those of the range that has this many nodes. */
  lemma PeaksAreTheRanges(m: nat)
    ensures Size(m) == |Built(m).nodes| && Peaks(|Built(m).nodes|) == Built(m).peaks
  {
    BuiltSize(m);
    PeaksFindCover(|Built(m).nodes|, Built(m).peaks);
  }

  /** The peaks found properly cover the nodes if and only if there is a range with this many nodes. */
  lemma PeaksCoverIff(n: nat)
    ensures Tiles(Peaks(n), n) <==> exists m: nat :: n == Size(m)
  {
    if Tiles(Peaks(n), n) {
      TilesLength(Peaks(n), n);
      var y := TilesPopcount(Peaks(n), n);
      assert n == Size(Leaves(Peaks(n)));
    }
    if m: nat :| n == Size(m) {
      BuiltSize(m);
      PeaksAreTheRanges(m);
    }
  }

  /* ---- The nodes needed for taking the last leaf off ---- */

  /** The nodes the source's second loop takes below a peak, after those already taken. */
  function Extra(p: Peak, taken: seq<Peak>): seq<Peak>
    requires Width(p.alt) <= p.pos + 1
    decreases p.alt
  {
    if p.alt == 0 then taken else Extra(RightOf(p), taken + [LeftOf(p)] + [RightOf(p)])
  }

  /** The positions of the children down the right slope of a node, as the stored nodes themselves tell. */
  function RightSlope(nodes: seq<Shape>, pos: nat, taken: seq<nat>): seq<nat>
    decreases pos
  {
    if pos < |nodes| && nodes[pos].Inner? && nodes[pos].right < pos then
      RightSlope(nodes, nodes[pos].right, taken + [nodes[pos].left] + [nodes[pos].right])
    else taken
  }

  function Positions(t: seq<Peak>): (r: seq<nat>)
    ensures |r| == |t| && forall k | 0 <= k < |t| :: r[k] == t[k].pos
  {
    if t == [] then [] else Positions(Init(t)) + [Last(t).pos]
  }

  /** The extra nodes are the right slope of the last mountain with the siblings, all of them stored nodes. */
  lemma {:induction false} ExtraIsRightSlope(nodes: seq<Shape>, p: Peak, taken: seq<Peak>)
    requires Perfect(nodes, p) && AllPerfect(nodes, taken)
    ensures Positions(Extra(p, taken)) == RightSlope(nodes, p.pos, Positions(taken))
    ensures AllPerfect(nodes, Extra(p, taken))
    decreases p.alt
  {
    if p.alt > 0 {
      AllPerfectAppend(nodes, taken, LeftOf(p));
      AllPerfectAppend(nodes, taken + [LeftOf(p)], RightOf(p));
      ExtraIsRightSlope(nodes, RightOf(p), taken + [LeftOf(p)] + [RightOf(p)]);
    }
  }

  lemma AllPerfectAppend(nodes: seq<Shape>, t: seq<Peak>, p: Peak)
    requires AllPerfect(nodes, t) && Perfect(nodes, p)
    ensures AllPerfect(nodes, t + [p]) && Positions(t + [p]) == Positions(t) + [p.pos]
  {
    assert Init(t + [p]) == t;
    forall k: nat | k < |t| + 1
      ensures PerfectAt(nodes, t + [p], k)
    {
      assert k < |t| ==> PerfectAt(nodes, t, k);
    }
  }

  /** The left siblings along the right slope. */
  function Lefts(p: Peak, taken: seq<Peak>): seq<Peak>
    requires Width(p.alt) <= p.pos + 1
    decreases p.alt
  {
    if p.alt == 0 then taken else Lefts(RightOf(p), taken + [LeftOf(p)])
  }

  lemma {:induction false} LeftsAreExtra(p: Peak, taken: seq<Peak>, more: seq<Peak>)
    requires Width(p.alt) <= p.pos + 1 && forall q | q in taken :: q in more
    ensures forall q | q in Lefts(p, taken) :: q in Extra(p, more)
    decreases p.alt
  {
    if p.alt > 0 {
      LeftsAreExtra(RightOf(p), taken + [LeftOf(p)], more + [LeftOf(p)] + [RightOf(p)]);
    }
  }

  lemma {:induction false} LeftsTile(t: seq<Peak>, length: nat, p: Peak)
    requires Tiles(t, length) && p.pos + 1 == length + Width(p.alt) && (t != [] ==> Last(t).alt >= p.alt)
    ensures p.pos >= p.alt && Tiles(Lefts(p, t), p.pos - p.alt) && Leaves(Lefts(p, t)) == Leaves(t) + Pow2(p.alt) - 1
    decreases p.alt
  {
    if p.alt > 0 {
      var q := LeftOf(p);
      TilesAppend(t, length, q);
      LeftsTile(t + [q], q.pos + 1, RightOf(p));
    }
  }

  /** With the last leaf gone, the last mountain falls apart into the left siblings among the extra nodes. */
  lemma PopPeaks(m: nat)
    requires m > 0
    ensures Built(m).peaks != [] && Width(Last(Built(m).peaks).alt) <= Last(Built(m).peaks).pos + 1
    ensures Built(m - 1).peaks == Lefts(Last(Built(m).peaks), Init(Built(m).peaks))
    ensures AllInBounds(Peaks(|Built(m).nodes|), |Built(m).nodes|)
    ensures forall q | q in Built(m - 1).peaks :: q in Picked(|Built(m).nodes|, true)
  {
    BuiltSound(m);
    PopCover(Built(m).peaks, |Built(m).nodes|);
  }

  lemma PopCover(t: seq<Peak>, length: nat)
    requires Tiles(t, length) && Leaves(t) > 0
    ensures t != [] && Width(Last(t).alt) <= Last(t).pos + 1
    ensures Built(Leaves(t) - 1).peaks == Lefts(Last(t), Init(t))
    ensures AllInBounds(Peaks(length), length)
    ensures forall q | q in Lefts(Last(t), Init(t)) :: q in Picked(length, true)
  {
    PeaksFindCover(length, t);
    PeaksInBounds(length);
    TilesInit(t, length);
    var p := Last(t);
    LeftsTile(Init(t), Start(t, |t| - 1), p);
    LeftsAreExtra(p, Init(t), t);
    CoverIsBuilt(Lefts(p, Init(t)), p.pos - p.alt);
  }

  /** Every proper cover is the one that arises by appending its leaves one after another. */
  lemma CoverIsBuilt(t: seq<Peak>, n: nat)
    requires Tiles(t, n)
    ensures Built(Leaves(t)).peaks == t
  {
    TilesLength(t, n);
    var y := TilesPopcount(t, n);
    BuiltSize(Leaves(t));
    PeaksFindCover(n, t);
    PeaksFindCover(n, Built(Leaves(t)).peaks);
  }

  /* ---- The source's function ---- */

  /** A node drafted for the tree: its data, and the array positions of its children. */
  datatype Entry<N> = LeafEntry(data: N) | NodeEntry(data: N, left: nat, right: nat)

  predicate InBounds(p: Peak, length: nat) {
    Width(p.alt) <= p.pos + 1 <= length
  }

  function Draft<N>(history: seq<N>, p: Peak): Entry<N>
    requires InBounds(p, |history|)
  {
    if p.alt == 0 then LeafEntry(history[p.pos]) else NodeEntry(history[p.pos], LeftOf(p).pos, RightOf(p).pos)
  }

  /** The entries and indices are the drafts of the picked nodes, in order, and all of them exist. */
  ghost predicate Drafted<N>(history: seq<N>, picked: seq<Peak>, entries: seq<Entry<N>>, indices: seq<uint32>)
  {
    && |entries| == |indices| == |picked|
    && forall k | 0 <= k < |picked| :: InBounds(picked[k], |history|) && entries[k] == Draft(history, picked[k]) && indices[k] as int == picked[k].pos
  }

  /** The nodes preloaded from a history of `n` nodes. */
  function Picked(n: nat, extra: bool): seq<Peak>
    requires AllInBounds(Peaks(n), n)
  {
    if extra && Peaks(n) != [] then Extra(Last(Peaks(n)), Peaks(n)) else Peaks(n)
  }

  predicate AllInBounds(t: seq<Peak>, length: nat) {
    forall k | 0 <= k < |t| :: InBounds(t[k], length)
  }

  lemma {:induction false} WalkInBounds(n: nat, p: Peak, taken: seq<Peak>)
    requires Width(p.alt) <= p.pos + 1 && AllInBounds(taken, n)
    ensures AllInBounds(Walk(n, p, taken), n)
    decreases p.alt, if p.pos < n then n - p.pos else 0
  {
    if p.alt > 0 {
      var q := if p.pos >= n then LeftOf(p) else p;
      if q.pos < n {
        WalkInBounds(n, Peak(q.alt, q.pos + Width(q.alt)), taken + [q]);
      } else {
        WalkInBounds(n, q, taken);
      }
    }
  }

  lemma PeaksInBounds(n: nat)
    ensures AllInBounds(Peaks(n), n)
  {
    if n > 1 {
      WalkInBounds(n, FirstCandidate(n), []);
    }
  }

  /**
   * What is preloaded for the range of `m` leaves: its peaks from left to right, then on request the children
   * down the last one's right slope; and every node's children are where the draft of it says they are.
   */
  lemma PickedAreTheRanges(m: nat, extra: bool)
    requires m > 0
    ensures Built(m).peaks != [] && AllInBounds(Peaks(|Built(m).nodes|), |Built(m).nodes|)
    ensures var r, picked := Built(m), Picked(|Built(m).nodes|, extra);
            && AllPerfect(r.nodes, picked)
            && Positions(picked) == if extra then RightSlope(r.nodes, Last(r.peaks).pos, Positions(r.peaks)) else Positions(r.peaks)
  {
    BuiltSound(m);
    PickedFromCover(Built(m), m, extra);
  }

  lemma PickedFromCover(r: Range, m: nat, extra: bool)
    requires Sound(r, m) && m > 0
    ensures r.peaks != [] && AllInBounds(Peaks(|r.nodes|), |r.nodes|)
    ensures var picked := Picked(|r.nodes|, extra);
            && AllPerfect(r.nodes, picked)
            && Positions(picked) == if extra then RightSlope(r.nodes, Last(r.peaks).pos, Positions(r.peaks)) else Positions(r.peaks)
  {
    PeaksFindCover(|r.nodes|, r.peaks);
    PeaksInBounds(|r.nodes|);
    assert PerfectAt(r.nodes, r.peaks, |r.peaks| - 1);
    ExtraIsRightSlope(r.nodes, Last(r.peaks), r.peaks);
  }

  /**
   * What is handed to the tree for the range of `m` leaves: each entry has the data of the node at its index, is a leaf
   * where that node is one, and otherwise names the node's own left and right child.
   */
  lemma DraftsAreTheNodes<N>(m: nat, extra: bool, history: seq<N>, entries: seq<Entry<N>>, indices: seq<uint32>)
    requires m > 0 && |history| == |Built(m).nodes| && AllInBounds(Peaks(|history|), |history|)
    requires Drafted(history, Picked(|history|, extra), entries, indices)
    ensures forall k | 0 <= k < |entries| ::
              && indices[k] as int < |history| && entries[k].data == history[indices[k]]
              && Built(m).nodes[indices[k]] ==
                   if entries[k].LeafEntry? then Leaf else Inner(entries[k].left, entries[k].right)
  {
    PickedAreTheRanges(m, extra);
    var nodes, picked := Built(m).nodes, Picked(|history|, extra);
    forall k | 0 <= k < |entries|
      ensures indices[k] as int < |history| && entries[k].data == history[indices[k]]
      ensures nodes[indices[k]] == if entries[k].LeafEntry? then Leaf else Inner(entries[k].left, entries[k].right)
    {
      assert PerfectAt(nodes, picked, k);
      assert InBounds(picked[k], |history|) && entries[k] == Draft(history, picked[k]) && indices[k] as int == picked[k].pos;
    }
  }

  /** In a range every parent comes right after its right child, and the left child comes before the right one. */
  lemma ChildrenInOrder(nodes: seq<Shape>, p: Peak)
    requires Perfect(nodes, p) && p.alt > 0
    ensures nodes[p.pos].Inner? && nodes[p.pos].left + Pow2(p.alt) == p.pos == nodes[p.pos].right + 1
  {
    WidthIsPow2(p.alt - 1);
  }

  /** Draft a node and add it to those taken before. */
  method TakeNode<N>(history: seq<N>, alt: uint32, peakPos: uint32, before: seq<Entry<N>>, indicesBefore: seq<uint32>, ghost picked: seq<Peak>, ghost p: Peak)
    returns (entries: seq<Entry<N>>, indices: seq<uint32>)
    requires p == Peak(alt as nat, peakPos as nat) && InBounds(p, |history|) && alt <= 30
    requires Drafted(history, picked, before, indicesBefore)
    ensures Drafted(history, picked + [p], entries, indices)
  {
    if alt > 0 {
      WidthIsPow2(alt as nat - 1);
    }
    var entry :=
      if alt == 0 then LeafEntry(history[peakPos])
      else NodeEntry(history[peakPos], (peakPos - Shift1(alt)) as nat, (peakPos - 1) as nat);
    entries, indices := before + [entry], indicesBefore + [peakPos];
  }

  /**
   * The source's `PreloadHistoryTree`, on the history as an array of nodes. The bound on its length is what
   * the signed shifts can take; within it no 32-bit operation wraps. An empty history is an error.
   */
  method PreloadHistoryTree<N>(history: seq<N>, extra: bool)
    returns (totalPeaks: Option<nat>, entries: seq<Entry<N>>, indices: seq<uint32>)
    requires |history| < 0x7fff_ffff
    ensures totalPeaks.None? <==> history == []
    ensures AllInBounds(Peaks(|history|), |history|)
    ensures history != [] ==>
              totalPeaks == Some(|Peaks(|history|)|) && Drafted(history, Picked(|history|, extra), entries, indices)
  {
    PeaksInBounds(|history|);
    if history == [] {
      return None, [], [];
    }
    if |history| == 1 {
      return Some(1), [LeafEntry(history[0])], [0];
    }
    var lastPeakPos, lastPeakAlt;
    entries, indices, lastPeakPos, lastPeakAlt := CollectPeaks(history);
    totalPeaks := Some(|entries|);
    if extra {
      entries, indices := CollectExtra(history, lastPeakAlt, lastPeakPos, entries, indices, Peaks(|history|));
    }
  }

  /** The first loop: the peaks, and which of them was the last. */
  method CollectPeaks<N>(history: seq<N>)
    returns (entries: seq<Entry<N>>, indices: seq<uint32>, lastPeakPos: uint32, lastPeakAlt: uint32)
    requires 1 < |history| < 0x7fff_ffff
    ensures Drafted(history, Peaks(|history|), entries, indices)
    ensures IsLast(Peaks(|history|), lastPeakAlt, lastPeakPos) && lastPeakAlt <= 29
  {
    var treeLength := |history| as uint32;
    ghost var n := |history|;
    entries, indices, lastPeakPos, lastPeakAlt := [], [], 0, 0;
    var alt, peakPos := FirstPeak(treeLength);
    ghost var p := FirstCandidate(n);
    ghost var picked: seq<Peak> := [];
    ghost var all := Walk(n, p, []);
    while alt != 0
      invariant p == Peak(alt as nat, peakPos as nat) && alt <= 29 && lastPeakAlt <= 29 && Width(p.alt) <= p.pos + 1
      invariant all == Walk(n, p, picked)
      invariant Drafted(history, picked, entries, indices)
      invariant IsLast(picked, lastPeakAlt, lastPeakPos)
      decreases p.alt, if p.pos < n then n - p.pos else 0
    {
      WalkOn(n, p, picked);
      if peakPos >= treeLength {
        peakPos, alt := LeftChild(alt, peakPos);
        p := LeftOf(p);
      }
      if peakPos < treeLength {
        entries, indices := TakeNode(history, alt, peakPos, entries, indices, picked, p);
        lastPeakPos, lastPeakAlt := peakPos, alt;
        peakPos := NextSibling(alt, peakPos);
        picked, p := picked + [p], Peak(p.alt, p.pos + Width(p.alt));
        assert all == Walk(n, p, picked);
      } else {
        assert all == Walk(n, p, picked);
      }
    }
  }

  method FirstPeak(treeLength: uint32) returns (alt: uint32, peakPos: uint32)
    requires 0 < treeLength < 0x7fff_ffff
    ensures Peak(alt as nat, peakPos as nat) == FirstCandidate(treeLength as nat) && alt <= 29
  {
    alt := Altitude(treeLength);
    WidthIsPow2(alt as nat);
    peakPos := Shift1(alt + 1) - 2;
  }

  method LeftChild(alt: uint32, peakPos: uint32) returns (leftPos: uint32, leftAlt: uint32)
    requires 0 < alt <= 29 && Width(alt as nat) <= peakPos as int + 1
    ensures Peak(leftAlt as nat, leftPos as nat) == LeftOf(Peak(alt as nat, peakPos as nat))
    ensures Width(leftAlt as nat) <= leftPos as int + 1
  {
    WidthIsPow2(alt as nat - 1);
    leftPos, leftAlt := peakPos - Shift1(alt), alt - 1;
  }

  method NextSibling(alt: uint32, peakPos: uint32) returns (next: uint32)
    requires alt <= 29 && peakPos < 0x7fff_ffff
    ensures next as int == peakPos as int + Width(alt as nat)
  {
    WidthIsPow2(alt as nat);
    Pow2Monotone(alt as nat + 1, 30);
    Pow2Values();
    next := peakPos + Shift1(alt + 1) - 1;
  }

  predicate IsLast(t: seq<Peak>, alt: uint32, pos: uint32) {
    if t == [] then alt == 0 && pos == 0 else Last(t) == Peak(alt as nat, pos as nat)
  }

  /** The second loop: down the right slope, each time the left and the right child. */
  method CollectExtra<N>(history: seq<N>, lastPeakAlt: uint32, lastPeakPos: uint32, before: seq<Entry<N>>, indicesBefore: seq<uint32>, ghost peaks: seq<Peak>)
    returns (entries: seq<Entry<N>>, indices: seq<uint32>)
    requires lastPeakAlt <= 29 && InBounds(Peak(lastPeakAlt as nat, lastPeakPos as nat), |history|)
    requires Drafted(history, peaks, before, indicesBefore)
    ensures Drafted(history, Extra(Peak(lastPeakAlt as nat, lastPeakPos as nat), peaks), entries, indices)
  {
    entries, indices := before, indicesBefore;
    var alt, peakPos := lastPeakAlt, lastPeakPos;
    ghost var p := Peak(alt as nat, peakPos as nat);
    ghost var picked, all := peaks, Extra(p, peaks);
    while alt > 0
      invariant p == Peak(alt as nat, peakPos as nat) && alt <= 29 && InBounds(p, |history|)
      invariant Drafted(history, picked, entries, indices)
      invariant all == Extra(p, picked)
    {
      WidthIsPow2(p.alt - 1);
      var leftPos, rightPos := peakPos - Shift1(alt), peakPos - 1;
      alt := alt - 1;
      entries, indices := TakeNode(history, alt, leftPos, entries, indices, picked, LeftOf(p));
      entries, indices := TakeNode(history, alt, rightPos, entries, indices, picked + [LeftOf(p)], RightOf(p));
      picked := picked + [LeftOf(p)] + [RightOf(p)];
      peakPos := rightPos;
      p := RightOf(p);
    }
  }
}
