/**
 * How many rounds the search for an ancestor takes.
 *
 * Turning the lowest ones of a height into zeroes, one after the other, gives a chain of heights. The
 * search follows the chain of the height it starts from until the next link would pass the target, steps
 * back by one, and goes on with the chain of that height, whose last link is shorter. All that is used of
 * the chains is `Sound`.
 */
module SkipSearch {
  import opened Arithmetic
  import opened Prelude

  /** The height after a height in its chain, and the number of zeroes a height ends in. */
  datatype Chain = Chain(next: nat -> nat, zeros: nat -> nat)

  predicate Even(c: Chain, n: nat) {
    n == 0 || c.zeros(n) > 0
  }

  /** The next height has one bit less, the lowest one. */
  predicate Down(c: Chain, n: nat)
    requires n > 0
  {
    && c.next(n) < n && (c.next(n) > 0 ==> c.zeros(c.next(n)) > c.zeros(n))
    && (c.zeros(n) == 0 ==> c.next(n) == n - 1)
    && (c.zeros(n) == 1 ==> c.next(n) == n - 2)
    && (c.zeros(n) == 2 ==> c.next(n) == n - 4)
    && (c.zeros(n) >= 3 ==> c.next(n) <= n - 8)
  }

  predicate Around(c: Chain, n: nat)
    requires n > 0
  {
    && (c.zeros(n) == 0 ==> Even(c, n - 1))
    && (c.zeros(n) >= 1 ==> c.zeros(n - 1) == 0 && c.zeros(n + 1) == 0)
    && (c.zeros(n) >= 2 ==> n > 2 && c.zeros(n - 2) == 1)
    && (c.zeros(n) >= 3 ==> n > 4 && c.zeros(n - 4) == 2)
  }

  predicate Cleared(c: Chain, n: nat)
    requires n > 0
  {
    n - c.next(n) == Pow2(c.zeros(n))
  }

  /** Heights that both end in many zeroes are far apart. */
  predicate Apart(c: Chain, x: nat, b: nat)
    requires 0 < x < b
  {
    b - x >= Pow2(Min(c.zeros(x), c.zeros(b)))
  }

  ghost predicate Sound(c: Chain) {
    && c.next(0) == 0 && c.zeros(1) == 0
    && (forall n: nat {:trigger Down(c, n)} | n > 0 :: Down(c, n))
    && (forall n: nat {:trigger Around(c, n)} | n > 0 :: Around(c, n))
    && (forall n: nat {:trigger Cleared(c, n)} | n > 0 :: Cleared(c, n))
    && (forall x: nat, b: nat {:trigger Apart(c, x, b)} | 0 < x < b :: Apart(c, x, b))
  }

  /** The height that a skip pointer leads to. */
  function Skip(c: Chain, height: nat): nat {
    if height < 2 then 0 else if c.zeros(height) == 0 then c.next(c.next(height - 1)) + 1 else c.next(height)
  }

  /** One round of the search: follow the skip pointer, unless the one of the parent is better. */
  function Step(c: Chain, walk: nat, height: nat): nat
    requires walk > height
  {
    var heightSkip, heightSkipPrev := Skip(c, walk), Skip(c, walk - 1);
    if heightSkip == height || (heightSkip > height && !(heightSkipPrev < heightSkip - 2 && heightSkipPrev >= height))
    then heightSkip else walk - 1
  }

  lemma SkipsDown(c: Chain, n: nat)
    requires Sound(c) && n > 0
    ensures Skip(c, n) < n
  {
    assert Down(c, n) && Around(c, n);
    if n > 1 && c.zeros(n) == 0 {
      assert Down(c, n - 1);
      assert c.next(n - 1) > 0 ==> Down(c, c.next(n - 1));
    }
  }

  /** The rounds it takes to get from one height to another. */
  ghost function Steps(c: Chain, walk: nat, height: nat): nat
    requires Sound(c)
  {
    if walk <= height then 0
    else
      SkipsDown(c, walk);
      1 + Steps(c, Step(c, walk, height), height)
  }

  /* ---- Chains ---- */

  /** How many links of the chain of `w`, after `w` itself, are above `t`. */
  ghost function Links(c: Chain, w: nat, t: nat): nat
    requires Sound(c) && w > t
  {
    assert Down(c, w);
    if c.next(w) > t then 1 + Links(c, c.next(w), t) else 0
  }

  /** The last of them, or `w` itself. */
  ghost function Last(c: Chain, w: nat, t: nat): (b: nat)
    requires Sound(c) && w > t
    ensures t < b <= w && c.next(b) <= t
  {
    assert Down(c, w);
    if c.next(w) > t then Last(c, c.next(w), t) else w
  }

  lemma {:induction false} LastZeros(c: Chain, w: nat, t: nat)
    requires Sound(c) && w > t
    ensures c.zeros(w) + Links(c, w, t) <= c.zeros(Last(c, w, t))
    ensures Links(c, w, t) > 0 ==> Last(c, w, t) <= c.next(w)
  {
    assert Down(c, w);
    if c.next(w) > t {
      LastZeros(c, c.next(w), t);
    }
  }

  /* ---- Single rounds ---- */

  /** The search never takes more rounds than there are heights in between. */
  lemma {:induction false} AtMostDistance(c: Chain, w: nat, t: nat)
    requires Sound(c) && w >= t
    ensures Steps(c, w, t) <= w - t
  {
    if w > t {
      SkipsDown(c, w);
      AtMostDistance(c, Step(c, w, t), t);
    }
  }

  /** An odd height never leaves the better pointer to its parent. */
  lemma OddStep(c: Chain, w: nat, t: nat)
    requires Sound(c) && c.zeros(w) == 0 && w > t && w > 1
    ensures var skip := c.next(c.next(w - 1)) + 1;
            Step(c, w, t) == if skip >= t then skip else w - 1
  {
    assert Around(c, w) && Down(c, w - 1);
    assert c.next(w - 1) > 0 ==> Down(c, c.next(w - 1));
  }

  /** Where the next link is above the target, an even height goes there or lets its parent go further. */
  lemma EvenStep(c: Chain, w: nat, t: nat)
    requires Sound(c) && Even(c, w) && w > t && c.next(w) > t
    ensures w >= 4
    ensures var further := c.next(c.next(w - 2)) + 1;
            Step(c, w, t) == if t <= further < c.next(w) - 2 then w - 1 else c.next(w)
  {
    assert Down(c, w) && Around(c, w);
    assert Down(c, c.next(w));
  }

  /** An odd parent that goes further. */
  lemma ParentJumps(c: Chain, w: nat, t: nat)
    requires Sound(c) && Even(c, w) && w > t && c.next(w) > t && w >= 4
    requires t <= c.next(c.next(w - 2)) + 1 < c.next(w) - 2
    ensures Steps(c, w, t) == 2 + Steps(c, c.next(c.next(w - 2)) + 1, t)
  {
    assert Down(c, w) && Around(c, w);
    EvenStep(c, w, t);
    OddStep(c, w - 1, t);
  }

  /* ---- One chain ---- */

  /** From an odd height: each round follows two links, until at most two are left. `d` bounds the rounds after the last one. */
  lemma OddRounds(c: Chain, w: nat, t: nat, d: nat)
    requires Sound(c) && c.zeros(w) == 0 && w > t && Steps(c, Last(c, w, t), t) <= 1 + d
    ensures Steps(c, w, t) <= (Links(c, w, t) + 4) / 2 + d
  {
    if Links(c, w, t) == 0 {
      assert Down(c, w);
      AtMostDistance(c, w, t);
    } else if Links(c, w, t) == 1 {
      OddOne(c, w, t, d);
    } else if Links(c, w, t) == 2 {
      OddTwo(c, w, t, d);
    } else {
      var w' := ThreeLinks(c, w, t);
      OddStep(c, w, t);
      OddRounds(c, w', t, d);
    }
  }

  lemma ThreeLinks(c: Chain, w: nat, t: nat) returns (w': nat)
    requires Sound(c) && c.zeros(w) == 0 && w > t && Links(c, w, t) >= 3
    ensures w > 1 && w' == c.next(c.next(w - 1)) + 1 && t < w' < w && c.zeros(w') == 0
    ensures Links(c, w', t) == Links(c, w, t) - 2 && Last(c, w', t) == Last(c, w, t)
  {
    assert Down(c, w) && c.next(w) > t;
    var c1 := w - 1;
    assert Links(c, w, t) == 1 + Links(c, c1, t) && Last(c, w, t) == Last(c, c1, t);
    assert Down(c, c1) && c.next(c1) > t;
    var c2 := c.next(c1);
    assert Links(c, c1, t) == 1 + Links(c, c2, t) && Last(c, c1, t) == Last(c, c2, t);
    assert Down(c, c2) && c.next(c2) > t;
    w' := c.next(c2) + 1;
    assert Around(c, c.next(c2)) && Down(c, w');
  }

  lemma OddTwo(c: Chain, w: nat, t: nat, d: nat)
    requires Sound(c) && c.zeros(w) == 0 && w > t && Links(c, w, t) == 2 && Steps(c, Last(c, w, t), t) <= 1 + d
    ensures Steps(c, w, t) <= 3 + d
  {
    assert Down(c, w) && c.next(w) > t;
    var c1 := w - 1;
    assert Links(c, c1, t) == 1 && Down(c, c1) && c.next(c1) > t;
    var b := c.next(c1);
    assert Links(c, b, t) == 0 && Last(c, w, t) == Last(c, c1, t) == Last(c, b, t) == b;
    OddStep(c, w, t);
    if c.next(b) + 1 >= t {
      AtMostDistance(c, c.next(b) + 1, t);
    } else {
      OneLeft(c, c1, t);
    }
  }

  lemma OddOne(c: Chain, w: nat, t: nat, d: nat)
    requires Sound(c) && c.zeros(w) == 0 && w > t && Links(c, w, t) == 1 && Steps(c, Last(c, w, t), t) <= 1 + d
    ensures Steps(c, w, t) <= 2 + d
  {
    assert Down(c, w) && c.next(w) > t;
    var b := w - 1;
    assert Links(c, b, t) == 0 && Last(c, w, t) == Last(c, b, t) == b;
    OddStep(c, w, t);
    if c.next(c.next(b)) + 1 >= t {
      NearlyThere(c, b, t);
    }
  }

  /** A jump past the last link and the one after it that does not pass the target leads to height 1. */
  lemma NearlyThere(c: Chain, b: nat, t: nat)
    requires Sound(c) && Even(c, b) && b > t >= c.next(b) && c.next(c.next(b)) + 1 >= t
    ensures c.next(b) == 0 && Steps(c, c.next(c.next(b)) + 1, t) <= 1
  {
    assert Down(c, b);
    assert c.next(b) > 0 ==> Down(c, c.next(b));
    AtMostDistance(c, 1, t);
  }

  /** With one link left and the target well above the one after it, the next round follows that link. */
  lemma OneLeft(c: Chain, v: nat, t: nat)
    requires Sound(c) && Even(c, v) && v > t && c.next(v) > t && c.next(c.next(v)) + 1 < t
    ensures Steps(c, v, t) == 1 + Steps(c, c.next(v), t)
  {
    EvenStep(c, v, t);
    Further(c, v, c.next(v));
  }

  /** How far the parent of an even height jumps. */
  lemma Further(c: Chain, v: nat, b: nat)
    requires Sound(c) && Even(c, v) && v >= 4 && b == c.next(v)
    ensures c.zeros(v) < 3 ==> c.next(c.next(v - 2)) <= c.next(b)
    ensures c.zeros(v) >= 3 ==> b <= c.next(c.next(v - 2))
    ensures c.zeros(v) == 2 ==> c.next(c.next(v - 2)) == c.next(b)
  {
    assert Down(c, v);
    if c.zeros(v) >= 3 {
      LowEight(c, v);
    } else if c.zeros(v) == 2 {
      assert Around(c, v) && Down(c, v - 2);
    } else {
      assert c.next(b) > 0 ==> Down(c, c.next(b));
    }
  }

  lemma LowEight(c: Chain, v: nat)
    requires Sound(c) && c.zeros(v) >= 3 && v > 0
    ensures v >= 8 && c.next(v - 2) == v - 4 && c.next(v - 4) == v - 8
  {
    assert Around(c, v) && Down(c, v) && Down(c, v - 2) && Down(c, v - 4);
  }

  /** A bound on the rounds along a chain, from the zeroes of its first height and the number of its links. */
  function FirstRounds(zeros: nat, links: nat): nat {
    if zeros >= 3 then links + 1
    else if zeros == 2 then (links + 7) / 2
    else if zeros == 1 then (links + 6) / 2
    else (links + 4) / 2
  }

  /** From any height. */
  lemma {:induction false} RoundsByLinks(c: Chain, w: nat, t: nat, d: nat)
    requires Sound(c) && w > t && Steps(c, Last(c, w, t), t) <= 1 + d
    ensures Steps(c, w, t) <= FirstRounds(c.zeros(w), Links(c, w, t)) + d
  {
    if c.zeros(w) == 0 {
      OddRounds(c, w, t, d);
    } else if Links(c, w, t) == 0 {
      assert Last(c, w, t) == w;
    } else if c.zeros(w) >= 3 {
      EightRounds(c, w, t);
      RoundsByLinks(c, c.next(w), t, d);
    } else if c.zeros(w) == 2 {
      FourRounds(c, w, t, d);
    } else {
      TwoRounds(c, w, t, d);
    }
  }

  lemma EightRounds(c: Chain, w: nat, t: nat)
    requires Sound(c) && w > t && c.zeros(w) >= 3 && Links(c, w, t) > 0
    ensures t < c.next(w) < w && c.zeros(c.next(w)) >= 3
    ensures Steps(c, w, t) == 1 + Steps(c, c.next(w), t)
    ensures Links(c, w, t) == 1 + Links(c, c.next(w), t) && Last(c, w, t) == Last(c, c.next(w), t)
  {
    assert Down(c, w);
    Further(c, w, c.next(w));
    EvenStep(c, w, t);
  }

  lemma FourRounds(c: Chain, w: nat, t: nat, d: nat)
    requires Sound(c) && w > t && c.zeros(w) == 2 && Links(c, w, t) > 0 && Steps(c, Last(c, w, t), t) <= 1 + d
    ensures Steps(c, w, t) <= (Links(c, w, t) + 7) / 2 + d
  {
    var b := c.next(w);
    assert Down(c, w) && b > t;
    assert Down(c, b);
    assert Last(c, w, t) == Last(c, b, t);
    Further(c, w, b);
    EvenStep(c, w, t);
    if c.next(b) + 1 >= t {
      ParentJumps(c, w, t);
      JumpRounds(c, b, t, d);
    }
  }

  /** A jump to just above the next link, if that does not pass the target. */
  lemma JumpRounds(c: Chain, b: nat, t: nat, d: nat)
    requires Sound(c) && b > t && t <= c.next(b) + 1 && Steps(c, Last(c, b, t), t) <= 1 + d
    ensures Steps(c, c.next(b) + 1, t) <= if Links(c, b, t) == 0 then 1 else (Links(c, b, t) + 4) / 2 + d
  {
    assert Down(c, b);
    var w := c.next(b) + 1;
    if c.next(b) <= t {
      AtMostDistance(c, w, t);
    } else {
      assert Around(c, c.next(b)) && Down(c, w);
      assert Links(c, w, t) == 1 + Links(c, c.next(b), t) == Links(c, b, t) && Last(c, w, t) == Last(c, b, t);
      OddRounds(c, w, t, d);
    }
  }

  lemma TwoRounds(c: Chain, w: nat, t: nat, d: nat)
    requires Sound(c) && w > t && c.zeros(w) == 1 && Links(c, w, t) > 0 && Steps(c, Last(c, w, t), t) <= 1 + d
    ensures Steps(c, w, t) <= (Links(c, w, t) + 6) / 2 + d
  {
    var c1 := c.next(w);
    assert Down(c, w) && c1 > t;
    assert Down(c, c1);
    assert Links(c, w, t) == 1 + Links(c, c1, t) && Last(c, w, t) == Last(c, c1, t);
    if c.next(c1) <= t {
      TwoOne(c, w, t, d);
    } else {
      TwoMany(c, w, c1, c.next(c1), t, d);
    }
  }

  lemma TwoMany(c: Chain, w: nat, c1: nat, b: nat, t: nat, d: nat)
    requires Sound(c) && c.zeros(w) > 0 && Even(c, c1) && w - 2 == c1 == c.next(w) && b == c.next(c1) && t < b < c1 - 2
    requires Steps(c, Last(c, b, t), t) <= 1 + d
    ensures Steps(c, w, t) <= (Links(c, b, t) + 8) / 2 + d
  {
    assert Down(c, b) && Down(c, c1);
    EvenStep(c, w, t);
    if c.next(b) + 1 < t {
      OneLeft(c, c1, t);
    } else {
      ParentJumps(c, w, t);
      JumpRounds(c, b, t, d);
    }
  }

  lemma TwoOne(c: Chain, w: nat, t: nat, d: nat)
    requires Sound(c) && Even(c, w) && w > 2 && c.next(w) == w - 2 > t && c.next(w - 2) <= t && Steps(c, w - 2, t) <= 1 + d
    ensures Steps(c, w, t) <= 3 + d
  {
    var b := w - 2;
    assert Down(c, w);
    EvenStep(c, w, t);
    if c.next(c.next(b)) + 1 >= t {
      NearlyThere(c, b, t);
      if 1 < b - 2 {
        ParentJumps(c, w, t);
      }
    }
  }

  /* ---- The rounds after stepping back ---- */

  /** A bound on the rounds from just below a height that ends in `k` zeroes. */
  function Deep(k: nat): nat {
    if k < 2 then 0 else if k == 2 then 2 else if k == 3 then 4 else Deep(k - 1) + (k + 3) / 2
  }

  lemma {:induction false} DeepMonotone(j: nat, k: nat)
    requires j <= k
    ensures Deep(j) <= Deep(k)
    decreases k
  {
    if j < k {
      DeepMonotone(j, k - 1);
    }
  }

  /** The last link: one round ends the search or steps back. */
  lemma LastRounds(c: Chain, b: nat, t: nat)
    requires Sound(c) && b > t >= c.next(b)
    ensures Steps(c, b, t) <= 1 + Deep(c.zeros(b))
    decreases b, 2
  {
    if c.zeros(b) == 0 {
      assert Down(c, b);
      AtMostDistance(c, b, t);
    } else if c.next(b) < t {
      BackRounds(c, b, t);
    }
  }

  lemma BackRounds(c: Chain, b: nat, t: nat)
    requires Sound(c) && c.zeros(b) > 0 && c.next(b) < t < b
    ensures Steps(c, b - 1, t) <= Deep(c.zeros(b))
    decreases b, 1
  {
    if c.zeros(b) <= 3 {
      ShallowBack(c, b, t);
    } else {
      assert Cleared(c, b);
      BackWithin(c, b, t, c.zeros(b));
    }
  }

  /** Stepping back from a height that ends in at least `n` zeroes to one at most `2^n` below it. */
  lemma BackWithin(c: Chain, b: nat, t: nat, n: nat)
    requires Sound(c) && b > 0 && c.zeros(b) >= n >= 4 && b - Pow2(n) <= t < b
    ensures Steps(c, b - 1, t) <= Deep(n)
    decreases b, 0
  {
    if t < b - 1 {
      var last := Last(c, b - 1, t);
      BackIsShorter(c, b, last, n);
      LastRounds(c, last, t);
      assert Around(c, b);
      OddRounds(c, b - 1, t, Deep(c.zeros(last)));
      LastZeros(c, b - 1, t);
      DeepMonotone(c.zeros(last), n - 1);
    }
  }

  lemma BackIsShorter(c: Chain, b: nat, last: nat, n: nat)
    requires Sound(c) && c.zeros(b) >= n && 0 < last && b - Pow2(n) < last < b
    ensures c.zeros(last) < n
  {
    assert Apart(c, last, b);
    if c.zeros(last) >= n {
      Pow2Monotone(n, Min(c.zeros(last), c.zeros(b)));
    }
  }

  lemma ShallowBack(c: Chain, b: nat, t: nat)
    requires Sound(c) && 0 < c.zeros(b) <= 3 && c.next(b) < t < b
    ensures Steps(c, b - 1, t) <= Deep(c.zeros(b))
  {
    assert Cleared(c, b);
    assert Pow2(1) == 2 && Pow2(2) == 4 && Pow2(3) == 8;
    AtMostDistance(c, b - 1, t);
    if c.zeros(b) == 3 && t < b - 5 {
      EightBack(c, b, t);
    }
  }

  lemma EightBack(c: Chain, b: nat, t: nat)
    requires Sound(c) && c.zeros(b) >= 3 && b - 7 <= t <= b - 6
    ensures Steps(c, b - 1, t) <= 4
  {
    assert Around(c, b);
    LowEight(c, b);
    OddStep(c, b - 1, t);
    if t == b - 6 {
      EvenStep(c, b - 2, t);
      assert b > 8 ==> Down(c, b - 8);
      AtMostDistance(c, b - 4, t);
    }
  }

  /* ---- The whole search ---- */

  function SearchBound(n: nat): nat {
    if n == 0 then 0 else Deep(n - 1) + (if n >= 10 then n - 3 else (n + 4) / 2)
  }

  lemma SearchBoundMonotone(j: nat, n: nat)
    requires j <= n
    ensures SearchBound(j) <= SearchBound(n)
  {
    if 0 < j {
      DeepMonotone(j - 1, n - 1);
    }
  }

  lemma FirstIsShort(zeros: nat, links: nat, k: nat)
    requires zeros + links <= k
    ensures FirstRounds(zeros, links) + Deep(k) <= SearchBound(k + 1)
  {
  }

  /** The search is short if the last link of the first chain is. */
  lemma StepsAreFew(c: Chain, w: nat, t: nat, n: nat)
    requires Sound(c) && w > t && c.zeros(Last(c, w, t)) < n
    ensures Steps(c, w, t) <= SearchBound(n)
  {
    var b := Last(c, w, t);
    LastRounds(c, b, t);
    RoundsByLinks(c, w, t, Deep(c.zeros(b)));
    LastZeros(c, w, t);
    FirstIsShort(c.zeros(w), Links(c, w, t), c.zeros(b));
    SearchBoundMonotone(c.zeros(b) + 1, n);
  }

  /** It is also short if the two heights are not far apart. */
  lemma StepsByDistance(c: Chain, w: nat, t: nat, n: nat)
    requires Sound(c) && t < w <= t + Pow2(n) && n >= 4
    ensures Steps(c, w, t) <= SearchBound(n + 1)
  {
    var b := Last(c, w, t);
    if c.zeros(b) <= n {
      StepsAreFew(c, w, t, n + 1);
    } else {
      assert Cleared(c, b);
      Pow2Monotone(n + 1, c.zeros(b));
      BackWithin(c, b, t, n);
      RoundsByLinks(c, w, t, Deep(n));
      LinksByDistance(c, w, t, n);
      if Links(c, w, t) > 0 {
        FirstIsShort(c.zeros(w), Links(c, w, t), n);
      }
    }
  }

  /** The links before the last one are not longer than the distance. */
  lemma {:induction false} LinksByDistance(c: Chain, w: nat, t: nat, n: nat)
    requires Sound(c) && t < w < Last(c, w, t) + Pow2(n)
    ensures Links(c, w, t) == 0 || c.zeros(w) + Links(c, w, t) <= n
  {
    assert Down(c, w);
    if c.next(w) > t {
      LinksByDistance(c, c.next(w), t, n);
      assert Cleared(c, w);
      if c.zeros(w) >= n {
        Pow2Monotone(n, c.zeros(w));
        LastZeros(c, w, t);
      }
    }
  }

  /** The bound grows with the square of the number of bits. */
  lemma BoundIsQuadratic(n: nat)
    ensures 4 * SearchBound(n) <= n * n + 9 * n + 2
  {
    if n > 0 {
      DeepIsQuadratic(n - 1);
      assert (n - 1) * (n - 1) == n * n - 2 * n + 1;
    }
  }

  lemma {:induction false} DeepIsQuadratic(k: nat)
    ensures 4 * Deep(k) <= k * k + 7 * k
  {
    if k > 3 {
      DeepIsQuadratic(k - 1);
      assert (k - 1) * (k - 1) == k * k - 2 * k + 1;
    }
  }
}
