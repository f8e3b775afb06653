/** Shifting a multi-limb number in place, limb by limb. */
module ArithShift {
  import opened Prelude
  import opened Arithmetic
  import opened Limbs
  import opened Words

  /** A limb is cut in two: `d` is two to the shift within a limb, and `e` what makes it a full limb. */
  predicate Cut(d: nat, e: nat) {
    d > 0 && e > 0 && d * e == BASE
  }

  lemma BitsCut(s: nat)
    requires s < 32
    ensures Cut(Pow2(s), Pow2(32 - s))
  {
    PowersOfWord(s);
  }

  lemma QuotientBelow(x: nat, d: nat, e: nat)
    requires e > 0 && x < d * e
    ensures 0 <= x / e < d
  {
    MulDistributes(e, d - 1, 1);
    if x / e >= d {
      MulMonotone(e, d, x / e);
    }
  }

  /* ---- Left ---- */

  /** Limb `m` of a number shifted left by `k` limbs and some bits: what stays, and what comes from below. */
  function ShlLimb(a: seq<uint32>, k: nat, d: nat, e: nat, m: nat): nat
    requires m < |a| && e > 0
  {
    (if m >= k then a[m - k] as nat % e * d else 0) + (if m > k then a[m - k - 1] as nat / e else 0)
  }

  ghost predicate ShlAt(a: seq<uint32>, k: nat, d: nat, e: nat, r: seq<uint32>, m: nat)
    requires m < |a| == |r| && Cut(d, e)
  {
    r[m] as nat == ShlLimb(a, k, d, e, m)
  }

  ghost predicate IsShl(a: seq<uint32>, k: nat, d: nat, e: nat, r: seq<uint32>) {
    |r| == |a| && Cut(d, e) && forall m: nat | m < |a| :: ShlAt(a, k, d, e, r, m)
  }

  lemma ShlColumn(x: nat, d: nat, e: nat)
    requires Cut(d, e)
    ensures x % e * d + BASE * (x / e) == x * d
  {
    MulDistributes(d, x % e, e * (x / e));
    MulAssoc(d, e, x / e);
  }

  function Carried(a: seq<uint32>, e: nat, j: nat): nat
    requires j <= |a| && e > 0
  {
    if j == 0 then 0 else a[j - 1] as nat / e
  }

  /** The first `k + j` limbs hold the first `j` limbs' value, shifted, but for the bits still to be carried. */
  lemma {:induction false} ShlPrefix(a: seq<uint32>, k: nat, d: nat, e: nat, r: seq<uint32>, j: nat)
    requires IsShl(a, k, d, e, r) && k + j <= |a|
    ensures Val(r[..k + j]) + Carried(a, e, j) * Weight(k + j) == d * (Weight(k) * Val(a[..j]))
  {
    if j == 0 {
      ShlZero(a, k, d, e, r, k);
    } else {
      ShlPrefix(a, k, d, e, r, j - 1);
      ValTake(r, k + j - 1);
      ValTake(a, j - 1);
      assert ShlAt(a, k, d, e, r, k + j - 1);
      ShlStep(a[j - 1] as nat, d, e, k, j - 1, Carried(a, e, j - 1), Val(a[..j - 1]));
    }
  }

  lemma ShlZero(a: seq<uint32>, k: nat, d: nat, e: nat, r: seq<uint32>, n: nat)
    requires IsShl(a, k, d, e, r) && n <= |a| && n <= k
    ensures Val(r[..n]) == 0
  {
    forall m: nat | m < n
      ensures r[m] == 0
    {
      assert ShlAt(a, k, d, e, r, m);
    }
    ValZero(r[..n]);
  }

  lemma ShlStep(x: nat, d: nat, e: nat, k: nat, j: nat, carryIn: int, v: int)
    requires Cut(d, e)
    ensures d * (Weight(k) * v) - carryIn * Weight(k + j) + (x % e * d + carryIn) * Weight(k + j) + x / e * Weight(k + j + 1)
         == d * (Weight(k) * (v + x * Weight(j)))
  {
    var w: int, low: int := Weight(k + j), x % e * d;
    ShlColumn(x, d, e);
    MulNonNegative(x % e, d);
    Column(low, x / e, x * d, k + j);
    MulDistributes(w, low, carryIn);
    WeightSum(k, j);
    MulDistributes(Weight(k), v, x * Weight(j));
    MulDistributes(d, Weight(k) * v, Weight(k) * (x * Weight(j)));
    MulSwap(Weight(k), x, Weight(j));
    MulAssoc(d, x, w);
  }

  /** A left shift multiplies by a power of two and keeps the low limbs. */
  lemma ShlValue(a: seq<uint32>, k: nat, d: nat, e: nat, r: seq<uint32>)
    requires IsShl(a, k, d, e, r)
    ensures Val(r) == (Val(a) * (Weight(k) * d)) % Weight(|a|)
  {
    ValBound(r);
    if k > |a| {
      ShlZero(a, k, d, e, r, |a|);
      ValAll(r);
      WeightSum(|a|, k - |a|);
      ShlAway(Val(a), Weight(|a|), Weight(k - |a|), d);
    } else {
      ShlWithin(a, k, d, e, r);
    }
  }

  lemma ShlWithin(a: seq<uint32>, k: nat, d: nat, e: nat, r: seq<uint32>)
    requires IsShl(a, k, d, e, r) && k <= |a| && Val(r) < Weight(|a|)
    ensures Val(r) == (Val(a) * (Weight(k) * d)) % Weight(|a|)
  {
    var n, j := |a|, |a| - k;
    var low: int, high: int, carry: int := Val(a[..j]), Val(a[j..]), Carried(a, e, j);
    assert Val(r) + carry * Weight(n) == d * (Weight(k) * low) by {
      ShlPrefix(a, k, d, e, r, j);
      assert r[..k + j] == r;
    }
    assert Val(a) == low + Weight(j) * high by {
      ValSplit(a, j);
    }
    WeightSum(j, k);
    ShlRest(Val(r), carry, Weight(n), d, Weight(k), Weight(j), low, high);
  }

  lemma ShlAway(v: nat, w: nat, u: nat, d: nat)
    requires w > 0
    ensures (v * (w * u * d)) % w == 0
  {
    MulAssoc(w, u, d);
    MulSwap(v, w, u * d);
    DivModUnique(v * (w * u * d), w, v * (u * d), 0);
  }

  lemma ShlRest(r: nat, carry: int, wn: nat, d: int, wk: int, wm: int, low: int, high: int)
    requires r < wn == wm * wk && r + carry * wn == d * (wk * low)
    ensures ((low + wm * high) * (wk * d)) % wn == r
  {
    MulDistributes(wk * d, low, wm * high);
    assert wm * high * (wk * d) == wn * (high * d) by {
      MulSwap(wm * high, wk, d);
      MulAssoc(wm, high, d);
      MulSwap(wk, wm, high * d);
    }
    assert low * (wk * d) == d * (wk * low) by {
      MulSwap(low, wk, d);
      MulSwap(wk, low, d);
      MulSwap(low, d, wk);
    }
    MulDistributes(wn, carry, high * d);
    DivModUnique((low + wm * high) * (wk * d), wn, carry + high * d, r);
  }

  /* ---- Right ---- */

  /** Limb `m` of a number shifted right by `k` limbs and some bits. */
  function ShrLimb(a: seq<uint32>, k: nat, d: nat, e: nat, m: nat): nat
    requires m < |a| && d > 0
  {
    (if m + k < |a| then a[m + k] as nat / d else 0) + (if m + k + 1 < |a| then a[m + k + 1] as nat % d * e else 0)
  }

  ghost predicate ShrAt(a: seq<uint32>, k: nat, d: nat, e: nat, r: seq<uint32>, m: nat)
    requires m < |a| == |r| && Cut(d, e)
  {
    r[m] as nat == ShrLimb(a, k, d, e, m)
  }

  ghost predicate IsShr(a: seq<uint32>, k: nat, d: nat, e: nat, r: seq<uint32>) {
    |r| == |a| && Cut(d, e) && forall m: nat | m < |a| :: ShrAt(a, k, d, e, r, m)
  }

  function Rem(a: seq<uint32>, d: nat, j: nat): nat
    requires d > 0
  {
    if j < |a| then a[j] as nat % d else 0
  }

  lemma {:induction false} ShrPrefix(a: seq<uint32>, k: nat, d: nat, e: nat, r: seq<uint32>, j: nat)
    requires IsShr(a, k, d, e, r) && k + j <= |a|
    ensures d * Val(r[..j]) + Rem(a, d, k) == Val(a[k..][..j]) + Rem(a, d, k + j) * Weight(j)
  {
    if j > 0 {
      ShrPrefix(a, k, d, e, r, j - 1);
      ValTake(r, j - 1);
      ValTake(a[k..], j - 1);
      assert ShrAt(a, k, d, e, r, j - 1);
      ShrStep(a[k + j - 1] as nat, d, e, j - 1, Rem(a, d, k + j), Val(r[..j - 1]));
    }
  }

  lemma ShrStep(x: nat, d: nat, e: nat, j: nat, next: int, v: int)
    requires Cut(d, e)
    ensures d * (v + (x / d + next * e) * Weight(j)) == d * v + x * Weight(j) - x % d * Weight(j) + next * Weight(j + 1)
  {
    var w: int := Weight(j);
    MulDistributes(d, v, (x / d + next * e) * w);
    MulAssoc(d, x / d + next * e, w);
    MulDistributes(d, x / d, next * e);
    MulSwap(d, next, e);
    MulDistributes(w, d * (x / d), next * BASE);
    MulDistributes(w, x, -(x % d));
    MulAssoc(next, BASE, w);
  }

  /** A right shift divides by a power of two. */
  lemma ShrValue(a: seq<uint32>, k: nat, d: nat, e: nat, r: seq<uint32>)
    requires IsShr(a, k, d, e, r)
    ensures Weight(k) * d > 0 && Val(r) == Val(a) / (Weight(k) * d)
  {
    DivDiv(Val(a), Weight(k), d);
    ShrHigh(a, k, d, e, r);
    if k >= |a| {
      ShrAway(a, k, d);
    } else {
      ShrLow(a, k, d, e, r);
    }
  }

  lemma ShrAway(a: seq<uint32>, k: nat, d: nat)
    requires k >= |a| && d > 0
    ensures Val(a) / Weight(k) / d == 0
  {
    ValBound(a);
    WeightSum(|a|, k - |a|);
    MulMonotone(Weight(|a|), 1, Weight(k - |a|));
    DivModUnique(Val(a), Weight(k), 0, Val(a));
    DivModUnique(0, d, 0, 0);
  }

  lemma ShrLow(a: seq<uint32>, k: nat, d: nat, e: nat, r: seq<uint32>)
    requires IsShr(a, k, d, e, r) && k < |a| && Val(r) == Val(r[..|a| - k])
    ensures Val(r) == Val(a) / Weight(k) / d
  {
    var high := a[k..];
    ShrPrefix(a, k, d, e, r, |a| - k);
    assert high[..|a| - k] == high;
    ValSplit(a, k);
    ValBound(a[..k]);
    DivModUnique(Val(a), Weight(k), Val(high), Val(a[..k]));
    DivModUnique(Val(high), d, Val(r), Rem(a, d, k));
  }

  lemma ShrHigh(a: seq<uint32>, k: nat, d: nat, e: nat, r: seq<uint32>)
    requires IsShr(a, k, d, e, r)
    ensures Val(r) == if k >= |a| then 0 else Val(r[..|a| - k])
  {
    var n := if k >= |a| then 0 else |a| - k;
    forall m: nat | n <= m < |r|
      ensures r[m] == 0
    {
      assert ShrAt(a, k, d, e, r, m);
    }
    ValHighZero(r, n);
  }

  /* ---- In place ---- */

  /** The source's in-place or, on a limb. */
  method OrAssign(pn: array<uint32>, i: nat, v: uint32)
    requires i < pn.Length && BitOr(pn[i] as nat, v as nat) < BASE
    modifies pn
    ensures pn[..] == old(pn[..])[i := BitOr(old(pn[i]) as nat, v as nat) as uint32]
  {
    pn[i] := BitOr(pn[i] as nat, v as nat) as uint32;
  }

  method Clear(pn: array<uint32>)
    modifies pn
    ensures forall m | 0 <= m < pn.Length :: pn[m] == 0
  {
    for i := 0 to pn.Length
      invariant forall m | 0 <= m < i :: pn[m] == 0
    {
      pn[i] := 0;
    }
  }

  /** Limb `m` after the first `i` limbs have been moved left. */
  ghost predicate ShlSoFar(a: seq<uint32>, k: nat, d: nat, e: nat, r: seq<uint32>, i: nat, m: nat)
    requires i <= |a| && m < |a| == |r| && Cut(d, e)
  {
    r[m] as nat ==
      if m < i + k then ShlLimb(a, k, d, e, m) else if m == i + k && i > 0 then a[i - 1] as nat / e else 0
  }

  ghost predicate ShlProgress(a: seq<uint32>, k: nat, d: nat, e: nat, r: seq<uint32>, i: nat) {
    i <= |a| == |r| && Cut(d, e) && forall m: nat | m < |a| :: ShlSoFar(a, k, d, e, r, i, m)
  }

  /** The bits from the limb below and the bits that stay do not overlap. */
  lemma ShlJoins(below: nat, x: uint32, s: nat)
    requires s < 32 && below < Pow2(s)
    ensures BitOr(below, Shl(x, s) as nat) == below + x as nat % Pow2(32 - s) * Pow2(s) < BASE
  {
    var d, e, low := Pow2(s), Pow2(32 - s), x as nat % Pow2(32 - s);
    BitsCut(s);
    ShlIsLow(x, s);
    OrIsSum(below, low, s);
    MulMonotone(d, low + 1, e);
    MulDistributes(d, low, 1);
  }

  lemma WordQuotient(x: uint32, d: nat, e: nat)
    requires Cut(d, e)
    ensures 0 <= x as nat / e < d && 0 <= x as nat / d < e
  {
    QuotientBelow(x as nat, d, e);
    QuotientBelow(x as nat, e, d);
  }

  method ShiftLeft(pn: array<uint32>, shift: nat)
    modifies pn
    ensures Val(pn[..]) == (Val(old(pn[..])) * Pow2(shift)) % Weight(pn.Length)
  {
    var a := pn[..];
    Clear(pn);
    var k, s := shift / 32, shift % 32;
    ghost var d, e := Pow2(s), Pow2(32 - s);
    BitsCut(s);
    for i: nat := 0 to pn.Length
      invariant ShlProgress(a, k, d, e, pn[..], i)
    {
      MoveLeft(pn, a, k, s, i);
    }
    forall m: nat | m < |a|
      ensures ShlAt(a, k, d, e, pn[..], m)
    {
      assert ShlSoFar(a, k, d, e, pn[..], |a|, m);
    }
    ShlValue(a, k, d, e, pn[..]);
    WeightIsPow2(k);
    Pow2Sum(32 * k, s);
  }

  /** One round of the loop: both parts of limb `i` go to their places. */
  method MoveLeft(pn: array<uint32>, a: seq<uint32>, k: nat, s: nat, i: nat)
    requires i < |a| && s < 32 && ShlProgress(a, k, Pow2(s), Pow2(32 - s), pn[..], i)
    modifies pn
    ensures ShlProgress(a, k, Pow2(s), Pow2(32 - s), pn[..], i + 1)
  {
    ghost var d, e, r := Pow2(s), Pow2(32 - s), pn[..];
    if i + k + 1 < pn.Length && s != 0 {
      assert ShlSoFar(a, k, d, e, r, i, i + k + 1);
      OrAssign(pn, i + k + 1, Shr(a[i], 32 - s));
    }
    if i + k < pn.Length {
      assert ShlSoFar(a, k, d, e, r, i, i + k);
      if i > 0 {
        WordQuotient(a[i - 1], d, e);
      }
      ShlJoins(pn[i + k] as nat, a[i], s);
      OrAssign(pn, i + k, Shl(a[i], s));
    }
    WordQuotient(a[i], d, e);
    ghost var r', next := pn[..], i + 1;
    forall m: nat | m < |a|
      ensures ShlSoFar(a, k, d, e, r', next, m)
    {
      assert ShlSoFar(a, k, d, e, r, i, m);
    }
  }

  /** Limb `m` after the first `i` limbs have been moved right. */
  ghost predicate ShrSoFar(a: seq<uint32>, k: nat, d: nat, e: nat, r: seq<uint32>, i: nat, m: nat)
    requires i <= |a| && m < |a| == |r| && Cut(d, e)
  {
    r[m] as nat ==
      if m + k + 1 < i then ShrLimb(a, k, d, e, m) else if m + k + 1 == i then a[m + k] as nat / d else 0
  }

  ghost predicate ShrProgress(a: seq<uint32>, k: nat, d: nat, e: nat, r: seq<uint32>, i: nat) {
    i <= |a| == |r| && Cut(d, e) && forall m: nat | m < |a| :: ShrSoFar(a, k, d, e, r, i, m)
  }

  method ShiftRight(pn: array<uint32>, shift: nat)
    modifies pn
    ensures Val(pn[..]) == Val(old(pn[..])) / Pow2(shift)
  {
    var a := pn[..];
    Clear(pn);
    var k, s := shift / 32, shift % 32;
    ghost var d, e := Pow2(s), Pow2(32 - s);
    BitsCut(s);
    for i: nat := 0 to pn.Length
      invariant ShrProgress(a, k, d, e, pn[..], i)
    {
      MoveRight(pn, a, k, s, i);
    }
    forall m: nat | m < |a|
      ensures ShrAt(a, k, d, e, pn[..], m)
    {
      assert ShrSoFar(a, k, d, e, pn[..], |a|, m);
    }
    ShrValue(a, k, d, e, pn[..]);
    WeightIsPow2(k);
    Pow2Sum(32 * k, s);
  }

  method MoveRight(pn: array<uint32>, a: seq<uint32>, k: nat, s: nat, i: nat)
    requires i < |a| && s < 32 && ShrProgress(a, k, Pow2(s), Pow2(32 - s), pn[..], i)
    modifies pn
    ensures ShrProgress(a, k, Pow2(s), Pow2(32 - s), pn[..], i + 1)
  {
    ghost var d, e, r := Pow2(s), Pow2(32 - s), pn[..];
    WordQuotient(a[i], d, e);
    if i >= k + 1 && s != 0 {
      assert ShrSoFar(a, k, d, e, r, i, i - k - 1);
      WordQuotient(a[i - 1], d, e);
      ShlJoins(pn[i - k - 1] as nat, a[i], 32 - s);
      OrAssign(pn, i - k - 1, Shl(a[i], 32 - s));
    }
    if i >= k {
      assert ShrSoFar(a, k, d, e, r, i, i - k);
      OrAssign(pn, i - k, Shr(a[i], s));
    }
    ghost var r', next := pn[..], i + 1;
    forall m: nat | m < |a|
      ensures ShrSoFar(a, k, d, e, r', next, m)
    {
      assert ShrSoFar(a, k, d, e, r, i, m);
    }
  }
}
