/** Numbers as sequences of 32-bit limbs, least significant first. */
module Limbs {
  import opened Prelude
  import opened Arithmetic

  const BASE := 0x1_0000_0000

  function Weight(i: nat): (r: nat)
    ensures r > 0
  {
    if i == 0 then 1 else BASE * Weight(i - 1)
  }

  /** The number that limbs stand for. */
  function Val(s: seq<uint32>): nat {
    if s == [] then 0 else Val(s[..|s| - 1]) + s[|s| - 1] as nat * Weight(|s| - 1)
  }

  lemma {:induction false} ValBound(s: seq<uint32>)
    ensures Val(s) < Weight(|s|)
  {
    if s != [] {
      var w := Weight(|s| - 1);
      ValBound(s[..|s| - 1]);
      MulMonotone(w, s[|s| - 1] as int, BASE - 1);
    }
  }

  /** One more limb of a longer number. */
  lemma ValTake(s: seq<uint32>, i: nat)
    requires i < |s|
    ensures Val(s[..i + 1]) == Val(s[..i]) + s[i] as nat * Weight(i)
  {
    assert s[..i + 1][..i] == s[..i];
  }

  lemma ValAll(s: seq<uint32>)
    ensures s[..|s|] == s && s[..0] == []
  {
  }

  lemma {:induction false} WeightSum(i: nat, j: nat)
    ensures Weight(i + j) == Weight(i) * Weight(j)
  {
    if i > 0 {
      WeightSum(i - 1, j);
      MulAssoc(BASE, Weight(i - 1), Weight(j));
    }
  }

  /** A column of a limb-wise operation: what it leaves and what it carries make up its sum. */
  lemma Column(low: nat, carry: nat, n: nat, i: nat)
    requires n == low + BASE * carry
    ensures low * Weight(i) + carry * Weight(i + 1) == n * Weight(i)
  {
    MulAssoc(carry, BASE, Weight(i));
    MulDistributes(Weight(i), low, BASE * carry);
  }

  /** Limb by limb the same number of limbs is below `n` positions. */
  lemma {:induction false} ValZero(s: seq<uint32>)
    requires forall k | 0 <= k < |s| :: s[k] == 0
    ensures Val(s) == 0
  {
    if s != [] {
      ValZero(s[..|s| - 1]);
    }
  }

  /** The high limbs of a number, from limb `k` on. */
  lemma {:induction false} ValSplit(s: seq<uint32>, k: nat)
    requires k <= |s|
    ensures Val(s) == Val(s[..k]) + Weight(k) * Val(s[k..])
  {
    if k == |s| {
      ValAll(s);
    } else {
      var init, last := s[..|s| - 1], s[|s| - 1] as nat;
      ValSplit(init, k);
      assert init[..k] == s[..k] && init[k..] == s[k..][..|s| - k - 1];
      SplitStep(last, k, |s| - 1 - k, Val(init[k..]));
    }
  }

  lemma SplitStep(last: nat, k: nat, m: nat, high: nat)
    ensures Weight(k) * high + last * Weight(k + m) == Weight(k) * (high + last * Weight(m))
  {
    WeightSum(k, m);
    MulSwap(last, Weight(k), Weight(m));
    MulDistributes(Weight(k), high, last * Weight(m));
  }

  lemma {:induction false} ValUpdate(s: seq<uint32>, i: nat, v: uint32)
    requires i < |s|
    ensures Val(s[i := v]) == Val(s) + (v as int - s[i] as int) * Weight(i)
  {
    var init, last := s[..|s| - 1], s[|s| - 1];
    if i == |s| - 1 {
      assert s[i := v][..i] == init;
      MulDistributes(Weight(i), v as int, -(s[i] as int));
    } else {
      ValUpdate(init, i, v);
      assert s[i := v][..|s| - 1] == init[i := v];
    }
  }

  /** One more in a limb, or the limb wraps around and one is still to be carried. */
  lemma LimbUp(s: seq<uint32>, i: nat, v: uint32)
    requires i < |s| && v as int == (s[i] as int + 1) % BASE
    ensures Val(s[i := v]) + (if v == 0 then Weight(i + 1) else 0) == Val(s) + Weight(i)
  {
    ValUpdate(s, i, v);
    var d := if v == 0 then 1 - BASE else 1;
    assert v as int - s[i] as int == d;
  }

  /** One less in a limb, or the limb wraps around and one is still to be borrowed. */
  lemma LimbDown(s: seq<uint32>, i: nat, v: uint32)
    requires i < |s| && v as int == (s[i] as int - 1) % BASE
    ensures Val(s[i := v]) + Weight(i) == Val(s) + (if s[i] == 0 then Weight(i + 1) else 0)
  {
    ValUpdate(s, i, v);
    var d := if s[i] == 0 then BASE - 1 else -1;
    assert v as int - s[i] as int == d;
  }

  lemma {:induction false} ValComplement(a: seq<uint32>, b: seq<uint32>)
    requires |a| == |b| && forall k | 0 <= k < |a| :: a[k] as int + b[k] as int == BASE - 1
    ensures Val(a) + Val(b) == Weight(|a|) - 1
  {
    if a != [] {
      var k := |a| - 1;
      ValComplement(a[..k], b[..k]);
      MulDistributes(Weight(k), a[k] as nat, b[k] as nat);
    }
  }

  lemma {:induction false} WeightIsPow2(i: nat)
    ensures Weight(i) == Pow2(32 * i)
  {
    if i > 0 {
      WeightIsPow2(i - 1);
      Pow2Sum(32, 32 * (i - 1));
      Pow2Values();
    }
  }

  lemma ValHighZero(s: seq<uint32>, k: nat)
    requires k <= |s| && forall m | k <= m < |s| :: s[m] == 0
    ensures Val(s) == Val(s[..k])
  {
    ValSplit(s, k);
    ValZero(s[k..]);
  }
}
