/** Comparison, bit length and long division of multi-limb numbers. */
module ArithDivide {
  import opened Prelude
  import opened Arithmetic
  import opened Limbs
  import opened Words
  import opened ArithUint
  import opened ArithShift

  lemma CompareAt(a: seq<uint32>, b: seq<uint32>, i: nat)
    requires i < |a| == |b| && (forall m | i < m < |a| :: a[m] == b[m]) && a[i] < b[i]
    ensures Val(a) < Val(b)
  {
    assert a[i + 1..] == b[i + 1..];
    ValSplit(a, i + 1);
    ValSplit(b, i + 1);
    ValTake(a, i);
    ValTake(b, i);
    ValBound(a[..i]);
    MulMonotone(Weight(i), a[i] as int + 1, b[i] as int);
    MulDistributes(Weight(i), a[i] as int, 1);
  }

  /** Compare from the most significant limb down. */
  method CompareTo(a: array<uint32>, b: array<uint32>) returns (r: int)
    requires a.Length == b.Length
    ensures r == if Val(a[..]) < Val(b[..]) then -1 else if Val(a[..]) > Val(b[..]) then 1 else 0
  {
    ghost var x, y := a[..], b[..];
    var i := a.Length - 1;
    while i >= 0
      invariant -1 <= i < a.Length && forall m | i < m < a.Length :: x[m] == y[m]
    {
      if a[i] < b[i] {
        CompareAt(x, y, i);
        return -1;
      }
      if a[i] > b[i] {
        CompareAt(y, x, i);
        return 1;
      }
      i := i - 1;
    }
    assert x == y;
    return 0;
  }

  /** How many bits a number takes. */
  function BitLength(v: nat): (r: nat)
    ensures v == 0 <==> r == 0
  {
    if v == 0 then 0 else 1 + BitLength(v / 2)
  }

  lemma {:induction false} BitLengthBounds(v: nat)
    ensures v < Pow2(BitLength(v)) && (v > 0 ==> Pow2(BitLength(v) - 1) <= v)
  {
    if v > 0 {
      BitLengthBounds(v / 2);
    }
  }

  lemma {:induction false} BitLengthIs(v: nat, r: nat)
    requires r > 0 && Pow2(r - 1) <= v < Pow2(r)
    ensures BitLength(v) == r
  {
    if r > 1 {
      BitLengthIs(v / 2, r - 1);
    }
  }

  /** A number below a power of two has no more bits than that. */
  lemma {:induction false} BitLengthAtMost(v: nat, b: nat)
    requires v < Pow2(b)
    ensures BitLength(v) <= b
  {
    if b > 0 {
      BitLengthAtMost(v / 2, b - 1);
    }
  }

  /** The position of the highest set bit plus one, or zero. */
  method Bits(pn: array<uint32>) returns (r: nat)
    ensures r == BitLength(Val(pn[..]))
  {
    var pos := pn.Length - 1;
    while pos >= 0
      invariant -1 <= pos < pn.Length && forall m | pos < m < pn.Length :: pn[m] == 0
    {
      if pn[pos] != 0 {
        var bits := TopBit(pn[pos]);
        TopLimb(pn[..], pos, bits);
        return 32 * pos + bits + 1;
      }
      pos := pos - 1;
    }
    ValZero(pn[..]);
    return 0;
  }

  /** The highest set bit of a nonzero limb. */
  method TopBit(x: uint32) returns (bits: nat)
    requires x != 0
    ensures bits < 32 && Pow2(bits) <= x as nat < Pow2(bits + 1)
  {
    Pow2Values();
    bits := 31;
    while bits > 0
      invariant 0 <= bits < 32 && x as nat < Pow2(bits + 1)
    {
      if x as nat / Pow2(bits) % 2 == 1 {
        QuotientOne(x as nat, Pow2(bits));
        return;
      }
      BitClear(x as nat, Pow2(bits));
      bits := bits - 1;
    }
  }

  lemma QuotientOne(x: nat, d: nat)
    requires d > 0 && x / d % 2 == 1
    ensures d <= x
  {
    if x < d {
      DivModUnique(x, d, 0, x);
    }
  }

  lemma BitClear(x: nat, d: nat)
    requires d > 0 && x < 2 * d && x / d % 2 != 1
    ensures x < d
  {
    if x >= d {
      DivModUnique(x, d, 1, x - d);
    }
  }

  lemma TopBounds(low: nat, x: nat, w: nat, lo: nat, hi: nat)
    requires low < w && lo <= x < hi
    ensures lo * w <= low + x * w < hi * w
  {
    MulMonotone(w, lo, x);
    MulMonotone(w, x + 1, hi);
    MulDistributes(w, x, 1);
  }

  lemma TopLimb(s: seq<uint32>, pos: nat, bits: nat)
    requires pos < |s| && bits < 32 && forall m | pos < m < |s| :: s[m] == 0
    requires Pow2(bits) <= s[pos] as nat < Pow2(bits + 1)
    ensures BitLength(Val(s)) == 32 * pos + bits + 1
  {
    ValHighZero(s, pos + 1);
    ValTake(s, pos);
    ValBound(s[..pos]);
    TopLimbBits(Val(s[..pos]), s[pos] as nat, pos, bits);
  }

  lemma TopLimbBits(low: nat, x: nat, i: nat, bits: nat)
    requires low < Weight(i) && Pow2(bits) <= x < Pow2(bits + 1)
    ensures BitLength(low + x * Weight(i)) == 32 * i + bits + 1
  {
    var v := low + x * Weight(i);
    assert Pow2(32 * i + bits) <= v < Pow2(32 * i + bits + 1) by {
      TopBounds(low, x, Weight(i), Pow2(bits), Pow2(bits + 1));
      ShiftedPow2(i, bits);
      ShiftedPow2(i, bits + 1);
    }
    BitLengthIs(v, 32 * i + bits + 1);
  }

  lemma ShiftedPow2(i: nat, bits: nat)
    ensures Pow2(bits) * Weight(i) == Pow2(32 * i + bits)
  {
    WeightIsPow2(i);
    Pow2Sum(bits, 32 * i);
  }

  /* ---- Division ---- */

  /** The bits below `t` are clear. */
  ghost predicate LowClear(s: seq<uint32>, t: nat) {
    && (forall m | 0 <= m < |s| && m < t / 32 :: s[m] == 0)
    && (t / 32 < |s| ==> s[t / 32] as nat % Pow2(t % 32) == 0)
  }

  lemma LowClearLimb(s: seq<uint32>, shift: nat)
    requires LowClear(s, shift + 1) && shift / 32 < |s|
    ensures s[shift / 32] as nat % Pow2(shift % 32 + 1) == 0
  {
    if shift % 32 == 31 {
      DivModUnique(0, Pow2(32), 0, 0);
    }
  }

  lemma Divisible(x: nat, b: nat)
    requires x % Pow2(b + 1) == 0
    ensures x == x / Pow2(b + 1) * Pow2(b + 1)
    ensures x % Pow2(b) == 0 && (x + Pow2(b)) % Pow2(b) == 0
    ensures BitOr(x, Pow2(b)) == x + Pow2(b)
  {
    DivisibleHalf(x, Pow2(b));
    OrIsSum(Pow2(b), x / Pow2(b + 1), b + 1);
  }

  lemma DivisibleHalf(x: nat, p: nat)
    requires p > 0 && x % (2 * p) == 0
    ensures x == x / (2 * p) * (2 * p) && x % p == 0 && (x + p) % p == 0
  {
    var y := x / (2 * p);
    assert x == p * (2 * y) by {
      MulAssoc(2, p, y);
      MulSwap(2, p, y);
    }
    DivModUnique(x, p, 2 * y, 0);
    MulDistributes(p, 2 * y, 1);
    DivModUnique(x + p, p, 2 * y + 1, 0);
  }

  lemma BitFits(x: nat, b: nat)
    requires x < BASE && b < 32 && x % Pow2(b + 1) == 0
    ensures x + Pow2(b) < BASE
  {
    Pow2Sum(b + 1, 31 - b);
    Pow2Values();
    MultipleBelow(x, Pow2(b + 1), Pow2(31 - b));
  }

  lemma MultipleBelow(x: nat, p: nat, e: nat)
    requires p > 0 && x % p == 0 && x < p * e
    ensures x + p <= p * e
  {
    QuotientBelow(x, e, p);
    MulMonotone(p, x / p + 1, e);
    MulDistributes(p, x / p, 1);
  }

  /** Set a bit of the quotient below those set before. */
  method SetBit(pn: array<uint32>, shift: nat)
    requires shift / 32 < pn.Length && LowClear(pn[..], shift + 1)
    modifies pn
    ensures Val(pn[..]) == Val(old(pn[..])) + Pow2(shift) && LowClear(pn[..], shift)
  {
    ghost var before := pn[..];
    var m, b := shift / 32, shift % 32;
    ghost var v := BitSet(before, shift);
    OrAssign(pn, m, Pow2(b) as uint32);
    assert pn[..] == before[m := v];
  }

  lemma BitSet(s: seq<uint32>, shift: nat) returns (v: uint32)
    requires shift / 32 < |s| && LowClear(s, shift + 1)
    ensures v as nat == BitOr(s[shift / 32] as nat, Pow2(shift % 32)) && Pow2(shift % 32) < BASE
    ensures Val(s[shift / 32 := v]) == Val(s) + Pow2(shift) && LowClear(s[shift / 32 := v], shift)
  {
    var m, b := shift / 32, shift % 32;
    LowClearLimb(s, shift);
    Divisible(s[m] as nat, b);
    BitFits(s[m] as nat, b);
    v := (s[m] as nat + Pow2(b)) as uint32;
    ValUpdate(s, m, v);
    WeightIsPow2(m);
    Pow2Sum(b, 32 * m);
  }

  lemma SkipBit(s: seq<uint32>, shift: nat)
    requires shift / 32 < |s| && LowClear(s, shift + 1)
    ensures LowClear(s, shift)
  {
    LowClearLimb(s, shift);
    Divisible(s[shift / 32] as nat, shift % 32);
  }

  method Copy(b: array<uint32>) returns (c: array<uint32>)
    ensures fresh(c) && c[..] == b[..]
  {
    c := new uint32[b.Length];
    for i := 0 to b.Length
      invariant c[..i] == b[..i]
    {
      c[i] := b[i];
    }
    assert c[..] == c[..b.Length] == b[..b.Length] == b[..];
  }

  lemma BitLengthFits(s: seq<uint32>)
    ensures BitLength(Val(s)) <= 32 * |s|
  {
    ValBound(s);
    WeightIsPow2(|s|);
    BitLengthAtMost(Val(s), 32 * |s|);
  }

  /** A number with `s` zero bits appended. */
  function Scaled(d: nat, s: nat): nat {
    if s == 0 then d else 2 * Scaled(d, s - 1)
  }

  lemma {:induction false} ScaledIsProduct(d: nat, s: nat)
    ensures Scaled(d, s) == d * Pow2(s)
  {
    if s > 0 {
      ScaledIsProduct(d, s - 1);
      MulSwap(d, 2, Pow2(s - 1));
    }
  }

  lemma {:induction false} ScaledBelow(d: nat, b: nat, s: nat)
    requires d < Pow2(b)
    ensures Scaled(d, s) < Pow2(b + s)
  {
    if s > 0 {
      ScaledBelow(d, b, s - 1);
    }
  }

  lemma {:induction false} ScaledAbove(d: nat, b: nat, s: nat)
    requires d >= Pow2(b)
    ensures Scaled(d, s) >= Pow2(b + s)
  {
    if s > 0 {
      ScaledAbove(d, b, s - 1);
    }
  }

  /** Long division, one quotient bit at a time. A zero divisor is an error, which finds the target cleared. */
  method DivAssign(pn: array<uint32>, b: array<uint32>) returns (ok: bool)
    requires pn.Length == b.Length > 0
    modifies pn
    ensures ok <==> Val(old(b[..])) != 0
    ensures Val(pn[..]) == if ok then Val(old(pn[..])) / Val(old(b[..])) else 0
  {
    var div := Copy(b);
    var num := Copy(pn);
    ghost var n, d := Val(num[..]), Val(div[..]);
    Clear(pn);
    ValZero(pn[..]);
    var numBits := Bits(num);
    var divBits := Bits(div);
    if divBits == 0 {
      return false;
    }
    if divBits > numBits {
      BitLengthBounds(n);
      BitLengthBounds(d);
      Pow2Monotone(numBits, divBits - 1);
      DivModUnique(n, d, 0, n);
      return true;
    }
    LongDivide(pn, num, div, numBits - divBits);
    return true;
  }

  /** The part of the division after the easy cases. */
  method LongDivide(pn: array<uint32>, num: array<uint32>, div: array<uint32>, initialShift: nat)
    requires pn.Length == num.Length == div.Length > 0 && pn != num && pn != div && num != div
    requires Val(div[..]) > 0 && initialShift == BitLength(Val(num[..])) - BitLength(Val(div[..]))
    requires forall m | 0 <= m < pn.Length :: pn[m] == 0
    modifies pn, num, div
    ensures Val(pn[..]) == Val(old(num[..])) / Val(old(div[..]))
  {
    ghost var n, d := Val(num[..]), Val(div[..]);
    var shift := initialShift;
    BitLengthFits(num[..]);
    AllClear(pn[..], shift + 1);
    AlignDivisor(div, shift, n);
    DivideBits(pn, num, div, shift, n, d);
  }

  /** The loop over the quotient's bits. */
  method DivideBits(pn: array<uint32>, num: array<uint32>, div: array<uint32>, initialShift: nat, ghost n: nat, ghost d: nat)
    requires pn.Length == num.Length == div.Length > 0 && pn != num && pn != div && num != div && d > 0
    requires initialShift < 32 * pn.Length && LowClear(pn[..], initialShift + 1)
    requires LongDivision(n, d, Val(pn[..]), Val(num[..]), Val(div[..]), initialShift + 1)
    modifies pn, num, div
    ensures Val(pn[..]) == n / d
  {
    var shift: int := initialShift;
    while shift >= 0
      invariant -1 <= shift < 32 * pn.Length
      invariant LongDivision(n, d, Val(pn[..]), Val(num[..]), Val(div[..]), shift + 1)
      invariant LowClear(pn[..], shift + 1)
    {
      DivideStep(pn, num, div, shift, n, d);
      shift := shift - 1;
    }
    DivModUnique(n, d, Val(pn[..]), Val(num[..]));
  }

  method AlignDivisor(div: array<uint32>, shift: nat, ghost n: nat)
    requires Val(div[..]) > 0 && shift == BitLength(n) - BitLength(Val(div[..])) && BitLength(n) <= 32 * div.Length
    modifies div
    ensures LongDivision(n, Val(old(div[..])), 0, n, Val(div[..]), shift + 1)
  {
    ghost var d := Val(div[..]);
    Aligned(n, d, shift);
    ShiftLeft(div, shift);
    NoWrap(Scaled(d, shift), BitLength(n), div.Length);
  }

  /** The divisor, shifted to line up with the number, exceeds half of it and still fits. */
  lemma Aligned(n: nat, d: nat, shift: nat)
    requires d > 0 && shift == BitLength(n) - BitLength(d)
    ensures Scaled(d, shift) == d * Pow2(shift)
    ensures Scaled(d, shift) < Pow2(BitLength(n)) && n < Scaled(d, shift + 1)
  {
    ScaledIsProduct(d, shift);
    BitLengthBounds(n);
    BitLengthBounds(d);
    ScaledBelow(d, BitLength(d), shift);
    ScaledAbove(d, BitLength(d) - 1, shift + 1);
  }

  lemma AllClear(s: seq<uint32>, t: nat)
    requires forall m | 0 <= m < |s| :: s[m] == 0
    ensures LowClear(s, t) && Val(s) == 0
  {
    ValZero(s);
    DivModUnique(0, Pow2(t % 32), 0, 0);
  }

  lemma NoWrap(x: nat, bits: nat, width: nat)
    requires x < Pow2(bits) && bits <= 32 * width
    ensures x % Weight(width) == x
  {
    WeightIsPow2(width);
    Pow2Monotone(bits, 32 * width);
    DivModUnique(x, Weight(width), 0, x);
  }

  /** What holds while the lowest `t` bits of the quotient are undecided. */
  ghost predicate LongDivision(n: nat, d: nat, q: nat, num: nat, div: nat, t: nat) {
    && n - num == d * q
    && num < Scaled(d, t)
    && (t > 0 ==> div == Scaled(d, t - 1))
  }

  method DivideStep(pn: array<uint32>, num: array<uint32>, div: array<uint32>, shift: nat, ghost n: nat, ghost d: nat)
    requires pn.Length == num.Length == div.Length > 0 && pn != num && pn != div && num != div
    requires shift < 32 * pn.Length && LowClear(pn[..], shift + 1)
    requires LongDivision(n, d, Val(pn[..]), Val(num[..]), Val(div[..]), shift + 1)
    modifies pn, num, div
    ensures LowClear(pn[..], shift)
    ensures LongDivision(n, d, Val(pn[..]), Val(num[..]), Val(div[..]), shift)
  {
    ghost var q, r, t := Val(pn[..]), Val(num[..]), Val(div[..]);
    var c := CompareTo(num, div);
    if c >= 0 {
      SubAssign(num, div);
      Subtracted(r, t, pn.Length, old(num[..]));
      SetBit(pn, shift);
    } else {
      SkipBit(pn[..], shift);
    }
    ShiftRight(div, 1);
    NextBit(n, d, q, r, t, shift);
  }

  lemma Subtracted(r: nat, t: nat, width: nat, num: seq<uint32>)
    requires t <= r == Val(num) && |num| == width
    ensures (r - t) % Weight(width) == r - t
  {
    ValBound(num);
    DivModUnique(r - t, Weight(width), 0, r - t);
  }

  lemma NextBit(n: nat, d: nat, q: nat, r: nat, t: nat, shift: nat)
    requires LongDivision(n, d, q, r, t, shift + 1)
    ensures Pow2(1) == 2
    ensures r >= t ==> LongDivision(n, d, q + Pow2(shift), r - t, t / 2, shift)
    ensures r < t ==> LongDivision(n, d, q, r, t / 2, shift)
  {
    ScaledIsProduct(d, shift);
    MulDistributes(d, q, Pow2(shift));
  }
}
