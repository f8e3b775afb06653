/** The heights that skip pointers lead to, and a bound on the rounds of the search for an ancestor. */
module SkipHeights {
  import opened Arithmetic
  import opened Prelude
  import opened SkipSearch

  /* ---- Skip heights ---- */

  /** Bitwise and. */
  function BitAnd(x: nat, y: nat): nat {
    if x == 0 || y == 0 then 0 else 2 * BitAnd(x / 2, y / 2) + (if x % 2 == 1 && y % 2 == 1 then 1 else 0)
  }

  lemma {:induction false} BitAndSelf(x: nat)
    ensures BitAnd(x, x) == x
  {
    if x > 0 {
      BitAndSelf(x / 2);
    }
  }

  function Ones(n: nat): nat {
    if n == 0 then 0 else n % 2 + Ones(n / 2)
  }

  /** Turn the lowest one of a number into a zero. */
  function InvertLowestOne(n: nat): nat {
    if n == 0 then 0 else BitAnd(n, n - 1)
  }

  /** It does clear exactly one bit, and thereby makes the number smaller. */
  lemma {:induction false} InvertLowestOneClears(n: nat)
    requires n > 0
    ensures InvertLowestOne(n) < n && Ones(InvertLowestOne(n)) == Ones(n) - 1
    ensures n % 2 == 1 ==> InvertLowestOne(n) == n - 1
  {
    if n % 2 == 1 {
      assert (n - 1) / 2 == n / 2;
      BitAndSelf(n / 2);
    } else {
      assert (n - 1) / 2 == n / 2 - 1;
      InvertLowestOneClears(n / 2);
    }
  }

  /** The height that the skip pointer of a block jumps back to. */
  function GetSkipHeight(height: nat): (r: nat)
    ensures height > 0 ==> r < height
  {
    if height < 2 then 0
    else if height % 2 == 1 then
      InvertLowestOneClears(height - 1);
      if InvertLowestOne(height - 1) > 0 then
        InvertLowestOneClears(InvertLowestOne(height - 1));
        InvertLowestOne(InvertLowestOne(height - 1)) + 1
      else 1
    else
      InvertLowestOneClears(height);
      InvertLowestOne(height)
  }

  /** One round of the search: follow the skip pointer, unless the one of the parent is better. */
  function NextHeight(walk: nat, height: nat): (r: nat)
    requires walk > height
    ensures height <= r < walk
  {
    var heightSkip, heightSkipPrev := GetSkipHeight(walk), GetSkipHeight(walk - 1);
    if heightSkip == height || (heightSkip > height && !(heightSkipPrev < heightSkip - 2 && heightSkipPrev >= height))
    then heightSkip else walk - 1
  }

  /** The rounds it takes to get from one height to another. */
  function Rounds(walk: nat, height: nat): nat {
    if walk <= height then 0 else 1 + Rounds(NextHeight(walk, height), height)
  }

  /* ---- Heights as chains ---- */

  lemma ClearHalf(n: nat)
    requires n > 0
    ensures n % 2 == 1 ==> InvertLowestOne(n) == n - 1
    ensures n % 2 == 0 ==> InvertLowestOne(n) == 2 * InvertLowestOne(n / 2)
    ensures InvertLowestOne(n) < n
  {
    InvertLowestOneClears(n);
    if n % 2 == 0 {
      assert (n - 1) / 2 == n / 2 - 1;
    }
  }

  /** The number of zeroes that a number ends in. */
  function Zeros(n: nat): nat {
    if n == 0 || n % 2 == 1 then 0 else 1 + Zeros(n / 2)
  }

  /** The bit that is cleared is the lowest one. */
  lemma {:induction false} LowestOne(n: nat)
    requires n > 0
    ensures n - InvertLowestOne(n) == Pow2(Zeros(n))
    ensures InvertLowestOne(n) > 0 ==> Zeros(InvertLowestOne(n)) > Zeros(n)
  {
    ClearHalf(n);
    if n % 2 == 0 {
      LowestOne(n / 2);
    }
  }

  lemma {:induction false} FarApart(x: nat, b: nat)
    requires 0 < x < b
    ensures b - x >= Pow2(Min(Zeros(x), Zeros(b)))
  {
    if x % 2 == 0 && b % 2 == 0 {
      FarApart(x / 2, b / 2);
    }
  }

  const HEIGHTS := Chain(n => InvertLowestOne(n), n => Zeros(n))

  lemma HeightsDown(n: nat)
    requires n > 0
    ensures Down(HEIGHTS, n)
  {
    LowestOne(n);
    assert Pow2(1) == 2 && Pow2(2) == 4 && Pow2(3) == 8;
    if Zeros(n) >= 3 {
      Pow2Monotone(3, Zeros(n));
    }
  }

  lemma ZerosOdd(m: nat)
    ensures Zeros(2 * m + 1) == 0
  {
  }

  lemma ZerosDouble(m: nat)
    requires m > 0
    ensures Zeros(2 * m) == 1 + Zeros(m)
  {
  }

  lemma HeightsAround(n: nat)
    requires n > 0
    ensures Around(HEIGHTS, n)
  {
    var m := n / 2;
    if n == 2 * m + 1 {
      ZerosOdd(m);
      if m > 0 {
        ZerosDouble(m);
      }
    } else {
      ZerosDouble(m);
      ZerosOdd(m);
      ZerosOdd(m - 1);
      AroundDouble(m);
    }
  }

  lemma AroundDouble(m: nat)
    requires m > 0
    ensures Zeros(m) >= 1 ==> m > 1 && Zeros(2 * m - 2) == 1
    ensures Zeros(m) >= 2 ==> m > 2 && Zeros(2 * m - 4) == 2
  {
    var l := m / 2;
    if m == 2 * l + 1 {
      ZerosOdd(l);
    } else {
      ZerosDouble(l);
      ZerosOdd(l - 1);
      ZerosDouble(m - 1);
      if l % 2 == 0 {
        var j := l / 2;
        ZerosOdd(j - 1);
        ZerosDouble(2 * (j - 1) + 1);
        ZerosDouble(m - 2);
      }
    }
  }

  lemma HeightsAreSound()
    ensures Sound(HEIGHTS)
  {
    forall n: nat | n > 0
      ensures Down(HEIGHTS, n) && Around(HEIGHTS, n) && Cleared(HEIGHTS, n)
    {
      HeightsDown(n);
      HeightsAround(n);
      LowestOne(n);
    }
    forall x: nat, b: nat | 0 < x < b
      ensures Apart(HEIGHTS, x, b)
    {
      FarApart(x, b);
    }
  }

  lemma SkipsAreChained(height: nat)
    ensures GetSkipHeight(height) == Skip(HEIGHTS, height)
  {
  }

  lemma {:induction false} RoundsAreSteps(walk: nat, height: nat)
    requires Sound(HEIGHTS)
    ensures Rounds(walk, height) == Steps(HEIGHTS, walk, height)
  {
    if walk > height {
      SkipsAreChained(walk);
      SkipsAreChained(walk - 1);
      var next := NextHeight(walk, height);
      assert next == Step(HEIGHTS, walk, height);
      RoundsAreSteps(next, height);
    }
  }

  /* ---- The whole search ---- */

  /** Within a block of `2^n` heights no chain has a link of that length. */
  lemma {:induction false} LinkInBlock(b: nat, t: nat, n: nat)
    requires b > t && b / Pow2(n) == t / Pow2(n)
    ensures Zeros(b) < n
  {
    if n > 0 && b % 2 == 0 {
      HalveBlock(b, n);
      HalveBlock(t, n);
      LinkInBlock(b / 2, t / 2, n - 1);
    }
  }

  lemma HalveBlock(x: nat, n: nat)
    requires n > 0
    ensures x / Pow2(n) == x / 2 / Pow2(n - 1)
  {
    DivDiv(x, 2, Pow2(n - 1));
  }

  lemma BetweenInBlock(w: nat, b: nat, t: nat, p: nat)
    requires w >= b >= t && p > 0 && w / p == t / p
    ensures b / p == t / p
  {
    var q := t / p;
    assert t == p * q + t % p && w == p * q + w % p;
    DivModUnique(b, p, q, b - p * q);
  }

  /** However high the two heights are, if they agree from bit `n` on the search takes at most `SearchBound(n)` rounds. */
  lemma SearchIsShort(w: nat, t: nat, n: nat)
    requires w >= t && w / Pow2(n) == t / Pow2(n)
    ensures Rounds(w, t) <= SearchBound(n)
  {
    HeightsAreSound();
    if w > t {
      var b := Last(HEIGHTS, w, t);
      BetweenInBlock(w, b, t, Pow2(n));
      LinkInBlock(b, t, n);
      StepsAreFew(HEIGHTS, w, t, n);
      RoundsAreSteps(w, t);
    }
  }

  /** Nor does it take long if they are not far apart, wherever they are. */
  lemma NearIsShort(w: nat, t: nat, n: nat)
    requires t <= w <= t + Pow2(n) && n >= 4
    ensures Rounds(w, t) <= SearchBound(n + 1)
  {
    HeightsAreSound();
    if w > t {
      StepsByDistance(HEIGHTS, w, t, n);
      RoundsAreSteps(w, t);
    }
  }

  lemma Pow2Of18()
    ensures Pow2(18) == 0x4_0000 && Pow2(17) == 0x2_0000
  {
    Pow2Values();
    assert Pow2(18) == 2 * Pow2(17) && Pow2(17) == 2 * Pow2(16);
  }

  lemma Deep17()
    ensures Deep(17) == 95
  {
    assert Deep(7) == 20;
    assert Deep(12) == 51;
  }

  /** Among the first 2^18 blocks, or within any later 2^18, and for any two that are at most 2^17 apart, 110 rounds are enough. */
  lemma AtMost110(w: nat, t: nat)
    requires w >= t && (w / 0x4_0000 == t / 0x4_0000 || w - t <= 0x2_0000)
    ensures Rounds(w, t) <= 110
  {
    Pow2Of18();
    Deep17();
    if w - t <= 0x2_0000 {
      NearIsShort(w, t, 17);
    } else {
      SearchIsShort(w, t, 18);
    }
  }
}
