/**
 * Unsigned arithmetic on 32-bit limbs, in place, for any number of limbs. An object of the source is its
 * array of limbs; an argument may be the very object that is changed, as in the source.
 */
module ArithUint {
  import opened Prelude
  import opened Arithmetic
  import opened Limbs

  /** What a full pass over the limbs has computed, up to what was carried out of the last one. */
  lemma Wraps(result: seq<uint32>, carry: int, exact: int)
    requires Val(result) + carry * Weight(|result|) == exact
    ensures Val(result) == exact % Weight(|result|)
  {
    ValBound(result);
    DivModUnique(exact, Weight(|result|), carry, Val(result));
  }

  /** A limb has been replaced by the low half of a column's sum. */
  lemma ColumnStep(before: seq<uint32>, after: seq<uint32>, i: nat, n: nat, carry: nat)
    requires i < |before| == |after| && after[..i] == before[..i]
    requires n == after[i] as nat + BASE * carry
    ensures Val(after[..i + 1]) + carry * Weight(i + 1) == Val(before[..i]) + n * Weight(i)
  {
    ValTake(after, i);
    Column(after[i] as nat, carry, n, i);
  }

  method AddAssign(pn: array<uint32>, b: array<uint32>)
    requires pn.Length == b.Length
    modifies pn
    ensures Val(pn[..]) == (Val(old(pn[..])) + Val(old(b[..]))) % Weight(pn.Length)
  {
    ghost var x, y := pn[..], b[..];
    var carry: uint64 := 0;
    ValAll(x);
    ValAll(y);
    for i := 0 to pn.Length
      invariant carry <= 1
      invariant pn[i..] == x[i..] && b[i..] == y[i..]
      invariant Val(pn[..i]) + carry as nat * Weight(i) == Val(x[..i]) + Val(y[..i])
    {
      ghost var before, carryIn := pn[..], carry;
      assert pn[i] == x[i] && b[i] == y[i];
      var n: uint64 := carry + pn[i] as uint64 + b[i] as uint64;
      pn[i] := (n % BASE as uint64) as uint32;
      carry := n / BASE as uint64;
      ColumnStep(before, pn[..], i, n as nat, carry as nat);
      assert before[..i] == pn[..i];
      ValTake(x, i);
      ValTake(y, i);
      AddColumn(carryIn as nat, x[i] as nat, y[i] as nat, Weight(i));
    }
    assert pn[..pn.Length] == pn[..];
    Wraps(pn[..], carry as nat, Val(x) + Val(y));
  }

  lemma AddColumn(a: int, b: int, c: int, w: int)
    ensures (a + b + c) * w == a * w + b * w + c * w
  {
  }

  /** Prefix increment. */
  method Increment(pn: array<uint32>)
    requires pn.Length > 0
    modifies pn
    ensures Val(pn[..]) == (Val(old(pn[..])) + 1) % Weight(pn.Length)
  {
    ghost var x := pn[..];
    var i := 0;
    while true
      invariant 0 <= i < pn.Length && Val(pn[..]) + Weight(i) == Val(x) + 1
      decreases pn.Length - i
    {
      ghost var before := pn[..];
      pn[i] := if pn[i] == 0xffff_ffff then 0 else pn[i] + 1;
      assert pn[..] == before[i := pn[i]];
      LimbUp(before, i, pn[i]);
      if !(pn[i] == 0 && i < pn.Length - 1) {
        break;
      }
      i := i + 1;
    }
    Wraps(pn[..], if pn[i] == 0 then 1 else 0, Val(x) + 1);
  }

  /** Prefix decrement. */
  method Decrement(pn: array<uint32>)
    requires pn.Length > 0
    modifies pn
    ensures Val(pn[..]) == (Val(old(pn[..])) - 1) % Weight(pn.Length)
  {
    ghost var x := pn[..];
    var i := 0;
    while true
      invariant 0 <= i < pn.Length && Val(pn[..]) == Val(x) - 1 + Weight(i)
      decreases pn.Length - i
    {
      ghost var before := pn[..];
      pn[i] := if pn[i] == 0 then 0xffff_ffff else pn[i] - 1;
      assert pn[..] == before[i := pn[i]];
      LimbDown(before, i, pn[i]);
      if !(pn[i] == 0xffff_ffff && i < pn.Length - 1) {
        break;
      }
      i := i + 1;
    }
    ValBound(pn[..]);
    DivModUnique(Val(x) - 1, Weight(pn.Length), if pn[i] == 0xffff_ffff then -1 else 0, Val(pn[..]));
  }

  method Negate(b: array<uint32>) returns (ret: array<uint32>)
    requires b.Length > 0
    ensures ret.Length == b.Length && fresh(ret) && Val(ret[..]) == (0 - Val(b[..])) % Weight(b.Length)
  {
    ret := new uint32[b.Length];
    for i := 0 to b.Length
      invariant forall k | 0 <= k < i :: ret[k] as int + b[k] as int == BASE - 1
    {
      ret[i] := 0xffff_ffff - b[i];
    }
    ValComplement(ret[..], b[..]);
    Increment(ret);
    ModShift(0 - Val(b[..]), Weight(b.Length));
  }

  lemma ModShift(x: int, m: nat)
    requires m > 0
    ensures (x + m) % m == x % m
  {
    MulDistributes(m, x / m, 1);
    DivModUnique(x + m, m, x / m + 1, x % m);
  }

  lemma ModAdd(x: int, y: int, m: nat)
    requires m > 0
    ensures (x + y % m) % m == (x + y) % m
  {
    var q := (x + y) / m - y / m;
    MulDistributes(m, q, y / m);
    DivModUnique(x + y % m, m, q, (x + y) % m);
  }

  method SubAssign(pn: array<uint32>, b: array<uint32>)
    requires pn.Length == b.Length > 0
    modifies pn
    ensures Val(pn[..]) == (Val(old(pn[..])) - Val(old(b[..]))) % Weight(pn.Length)
  {
    ghost var x: int, y: int := Val(pn[..]), Val(b[..]);
    var negated := Negate(b);
    AddAssign(pn, negated);
    ModAdd(x, 0 - y, Weight(pn.Length));
  }

  /* ---- Multiplication ---- */

  /** The 64-bit column of a product never overflows. */
  lemma ProductFits(x: uint32, y: uint32)
    ensures x as int * y as int <= (BASE - 1) * (BASE - 1)
  {
    MulMonotone(x as nat, y as int, BASE - 1);
    MulMonotone(BASE - 1, x as int, BASE - 1);
  }

  method MulAssign32(pn: array<uint32>, b32: uint32)
    modifies pn
    ensures Val(pn[..]) == (Val(old(pn[..])) * b32 as nat) % Weight(pn.Length)
  {
    ghost var x := pn[..];
    var carry: uint64 := 0;
    ValAll(x);
    for i := 0 to pn.Length
      invariant carry as int < BASE && pn[i..] == x[i..]
      invariant Val(pn[..i]) + carry as nat * Weight(i) == Val(x[..i]) * b32 as nat
    {
      ghost var before, carryIn := pn[..], carry;
      assert pn[i] == x[i];
      carry := ScaleLimb(pn, i, carry, b32);
      assert before[..i] == pn[..i];
      ScaleStep(x, before, pn[..], i, b32 as nat, carryIn as nat, carry as nat);
    }
    assert pn[..pn.Length] == pn[..];
    Wraps(pn[..], carry as int, Val(x) * b32 as int);
  }

  /** One column: a limb times the word, plus the carry. */
  method ScaleLimb(pn: array<uint32>, i: nat, carryIn: uint64, b32: uint32) returns (carry: uint64)
    requires i < pn.Length && carryIn as int < BASE
    modifies pn
    ensures pn[..] == old(pn[..])[i := pn[i]] && carry as int < BASE
    ensures carryIn as int + b32 as int * old(pn[i]) as int == pn[i] as int + BASE * carry as int
  {
    ProductFits(b32, pn[i]);
    var n: uint64 := carryIn + b32 as uint64 * pn[i] as uint64;
    pn[i] := (n % BASE as uint64) as uint32;
    carry := n / BASE as uint64;
  }

  lemma ScaleStep(x: seq<uint32>, before: seq<uint32>, after: seq<uint32>, i: nat, b: nat, carryIn: nat, carry: nat)
    requires i < |x| == |before| == |after| && after[..i] == before[..i]
    requires carryIn + b * x[i] as nat == after[i] as nat + BASE * carry
    requires Val(before[..i]) + carryIn * Weight(i) == Val(x[..i]) * b
    ensures Val(after[..i + 1]) + carry * Weight(i + 1) == Val(x[..i + 1]) * b
  {
    ColumnStep(before, after, i, carryIn + b * x[i] as nat, carry);
    ValTake(x, i);
    ScaleColumn(carryIn, b, x[i] as int, Weight(i), Val(x[..i]));
  }

  lemma ScaleColumn(carry: int, b: int, x: int, w: int, v: int)
    ensures v * b + (carry + b * x) * w == carry * w + (v + x * w) * b
  {
    MulDistributes(w, carry, b * x);
    MulDistributes(b, v, x * w);
    MulAssoc(b, x, w);
  }

  /** One column: add a carry and a product of limbs to a limb. Nothing overflows 64 bits. */
  method AddProduct(pn: array<uint32>, k: nat, carryIn: uint64, x: uint32, y: uint32) returns (carry: uint64)
    requires k < pn.Length && carryIn as int < BASE
    modifies pn
    ensures pn[..] == old(pn[..])[k := pn[k]] && carry as int < BASE
    ensures carryIn as int + old(pn[k]) as int + x as int * y as int == pn[k] as int + BASE * carry as int
  {
    ProductFits(x, y);
    var n: uint64 := carryIn + pn[k] as uint64 + x as uint64 * y as uint64;
    pn[k] := (n % BASE as uint64) as uint32;
    carry := n / BASE as uint64;
  }

  /** Add one row of the schoolbook product, limb `aj` times `b`, at limb `j`. */
  method AddRow(pn: array<uint32>, aj: uint32, b: array<uint32>, j: nat) returns (ghost carryOut: int)
    requires j < pn.Length == b.Length
    modifies pn
    ensures b != pn ==>
              Val(pn[..]) + carryOut * Weight(pn.Length) == Val(old(pn[..])) + aj as nat * Val(b[..b.Length - j]) * Weight(j)
    ensures b == pn && AllZero(old(pn[..])) ==> AllZero(pn[..])
  {
    ghost var x, y := pn[..], b[..];
    var carry: uint64 := 0;
    ValAll(y);
    for i := 0 to pn.Length - j
      invariant carry as int < BASE && pn[i + j..] == x[i + j..]
      invariant b != pn ==> b[..] == y && RowDone(x, pn[..], y, i, j, aj as nat, carry as nat)
      invariant b == pn && AllZero(x) ==> AllZero(pn[..]) && carry == 0
    {
      ghost var before, carryIn := pn[..], carry;
      assert pn[i + j] == x[i + j];
      carry := AddProduct(pn, i + j, carry, aj, b[i]);
      if b != pn {
        RowStep(x, before, pn[..], y, i, j, aj as nat, carryIn as nat, carry as nat);
      }
    }
    assert pn[..][..pn.Length] == pn[..] && x[..pn.Length] == x;
    assert b != pn ==> y[..pn.Length - j] == b[..pn.Length - j];
    carryOut := carry as int;
  }

  ghost predicate RowDone(x: seq<uint32>, r: seq<uint32>, b: seq<uint32>, i: nat, j: nat, a: nat, carry: nat)
    requires i + j <= |x| == |r| == |b|
  {
    Val(r[..i + j]) + carry * Weight(i + j) == Val(x[..i + j]) + a * Val(b[..i]) * Weight(j)
  }

  predicate AllZero(s: seq<uint32>) {
    forall k | 0 <= k < |s| :: s[k] == 0
  }

  lemma RowStep(x: seq<uint32>, before: seq<uint32>, after: seq<uint32>, b: seq<uint32>, i: nat, j: nat, a: nat, carryIn: nat, carry: nat)
    requires i + j < |x| == |before| == |after| == |b| && after[..i + j] == before[..i + j]
    requires carryIn + x[i + j] as nat + a * b[i] as nat == after[i + j] as nat + BASE * carry
    requires RowDone(x, before, b, i, j, a, carryIn)
    ensures RowDone(x, after, b, i + 1, j, a, carry)
  {
    ColumnStep(before, after, i + j, carryIn + x[i + j] as nat + a * b[i] as nat, carry);
    ValTake(x, i + j);
    ValTake(b, i);
    RowColumn(carryIn, x[i + j] as int, a, b[i] as int, Val(b[..i]), i, j);
  }

  lemma RowColumn(carry: int, x: int, a: int, b: int, v: int, i: nat, j: nat)
    ensures (carry + x + a * b) * Weight(i + j) + a * v * Weight(j)
         == carry * Weight(i + j) + x * Weight(i + j) + a * (v + b * Weight(i)) * Weight(j)
  {
    var w: int, wi: int, wj: int := Weight(i + j), Weight(i), Weight(j);
    WeightSum(i, j);
    AddColumn(carry, x, a * b, w);
    MulDistributes(a, v, b * wi);
    MulDistributes(wj, a * v, a * (b * wi));
    RowTerm(a, b, wi, wj);
  }

  lemma RowTerm(a: int, b: int, wi: int, wj: int)
    ensures a * b * (wi * wj) == a * (b * wi) * wj
  {
    MulAssoc(a * b, wi, wj);
    MulAssoc(a, b, wi);
  }

  /**
   * Multiplication keeps the low limbs of the product. The source clears the target before it reads the
   * factor, so multiplying an object by itself in place gives zero.
   */
  method MulAssign(pn: array<uint32>, b: array<uint32>)
    requires pn.Length == b.Length
    modifies pn
    ensures pn != b ==> Val(pn[..]) == (Val(old(pn[..])) * Val(b[..])) % Weight(pn.Length)
    ensures pn == b ==> Val(pn[..]) == 0
  {
    var a := pn[..];
    for i := 0 to pn.Length
      invariant AllZero(pn[..i]) && a == old(pn[..])
      invariant b != pn ==> b[..] == old(b[..])
    {
      pn[i] := 0;
    }
    ValZero(pn[..]);
    ValAll(a);
    ghost var q: int := 0;
    for j := 0 to pn.Length
      invariant b != pn ==> Val(pn[..]) + q * Weight(pn.Length) == Val(a[..j]) * Val(b[..])
      invariant b == pn ==> AllZero(pn[..])
    {
      ghost var before := Val(pn[..]);
      ghost var carry := AddRow(pn, a[j], b, j);
      if b != pn {
        q := NextRow(a, b[..], j, before, Val(pn[..]), q, carry);
      }
    }
    if b != pn {
      Wraps(pn[..], q, Val(a) * Val(b[..]));
    } else {
      ValZero(pn[..]);
    }
  }

  /** Three times three in place is not nine. */
  method ThreeTimesItself(pn: array<uint32>)
    requires pn[..] == [3, 0, 0, 0, 0, 0, 0, 0]
    modifies pn
    ensures Val(old(pn[..])) == 3 && Val(pn[..]) == 0 && (3 * 3) % Weight(pn.Length) == 9
  {
    ghost var s := pn[..];
    ValHighZero(s, 1);
    assert s[..1] == [3] && Val([3]) == 3;
    assert |s| == 8;
    NineFits(pn.Length);
    MulAssign(pn, pn);
  }

  lemma NineFits(n: nat)
    requires n > 0
    ensures (3 * 3) % Weight(n) == 9
  {
    var w: int := Weight(n - 1);
    AtLeastBase(w);
    DivModUnique(9, Weight(n), 0, 9);
  }

  lemma AtLeastBase(w: int)
    requires w >= 1
    ensures BASE * w >= BASE
  {
  }

  /** The part of a row beyond the last limb is a multiple of the modulus. */
  lemma NextRow(a: seq<uint32>, b: seq<uint32>, j: nat, before: int, after: int, q: int, carry: int) returns (q': int)
    requires j < |a| == |b| && before + q * Weight(|a|) == Val(a[..j]) * Val(b)
    requires after + carry * Weight(|a|) == before + a[j] as nat * Val(b[..|b| - j]) * Weight(j)
    ensures after + q' * Weight(|a|) == Val(a[..j + 1]) * Val(b)
  {
    var n := |a|;
    var aj: int, low: int, high: int := a[j] as int, Val(b[..|b| - j]), Val(b[|b| - j..]);
    ValTake(a, j);
    ValSplit(b, n - j);
    WeightSum(n - j, j);
    q' := q + carry + aj * high;
    MulDistributes(Weight(n), q + carry, aj * high);
    MulDistributes(Weight(n), q, carry);
    MulDistributes(Val(b), Val(a[..j]), aj * Weight(j));
    RowSplit(aj, Weight(j), low, Weight(n - j), high);
  }

  lemma RowSplit(aj: int, wj: int, low: int, wn: int, high: int)
    ensures aj * wj * (low + wn * high) == aj * low * wj + aj * high * (wn * wj)
  {
    MulDistributes(aj * wj, low, wn * high);
    RowTerm(aj, high, wn, wj);
  }
}
