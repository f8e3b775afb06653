/** Facts about multiplication, division and powers of two that the other modules share. */
module Arithmetic {

  function Pow2(n: nat): (r: nat)
    ensures r > n
  {
    if n == 0 then 1 else 2 * Pow2(n - 1)
  }

  lemma {:induction false} Pow2Monotone(a: nat, b: nat)
    requires a <= b
    ensures Pow2(a) <= Pow2(b)
  {
    if a < b {
      Pow2Monotone(a, b - 1);
    }
  }

  lemma {:induction false} Pow2Sum(a: nat, b: nat)
    ensures Pow2(a + b) == Pow2(a) * Pow2(b)
  {
    if a > 0 {
      Pow2Sum(a - 1, b);
      MulAssoc(2, Pow2(a - 1), Pow2(b));
    }
  }

  lemma Pow2Values()
    ensures Pow2(8) == 0x100 && Pow2(16) == 0x1_0000 && Pow2(30) == 0x4000_0000
    ensures Pow2(31) == 0x8000_0000 && Pow2(32) == 0x1_0000_0000
  {
    assert Pow2(4) == 16;
    Pow2Sum(4, 4);
    Pow2Sum(8, 8);
    Pow2Sum(16, 16);
    assert Pow2(32) == 2 * Pow2(31) && Pow2(31) == 2 * Pow2(30);
  }

  lemma MulAssoc(a: int, b: int, c: int)
    ensures a * b * c == a * (b * c)
  {
  }

  lemma MulSwap(a: int, b: int, c: int)
    ensures a * (b * c) == b * (a * c)
  {
  }

  lemma MulDistributes(a: int, b: int, c: int)
    ensures a * (b + c) == a * b + a * c
    ensures (b + c) * a == b * a + c * a
  {
  }

  lemma MulMonotone(a: nat, b: int, c: int)
    requires b <= c
    ensures a * b <= a * c && b * a <= c * a
  {
    MulNonNegative(a, c - b);
    MulDistributes(a, b, c - b);
  }

  lemma MulNonNegative(a: nat, b: nat)
    ensures a * b >= 0
  {
  }

  /** Quotient and remainder are what they have to be. */
  lemma DivModUnique(x: int, d: nat, q: int, r: int)
    requires x == d * q + r && 0 <= r < d
    ensures x / d == q && x % d == r
  {
    var e := q - x / d;
    MulDistributes(d, x / d, e);
    if e >= 1 {
      MulMonotone(d, 1, e);
    } else if e <= -1 {
      MulMonotone(d, e, -1);
    }
  }

  /** Scaling by one factor of the modulus keeps what is left modulo the other. */
  lemma ModScaled(x: nat, d: nat, e: nat)
    requires d > 0 && e > 0
    ensures d * e > 0 && (x * d) % (d * e) == (x % e) * d && (x * d) / (d * e) == x / e
  {
    var h, l := x / e, x % e;
    MulMonotone(d, 1, e);
    MulDistributes(d, e * h, l);
    MulAssoc(d, e, h);
    MulMonotone(d, l + 1, e);
    MulDistributes(d, l, 1);
    DivModUnique(x * d, d * e, h, l * d);
  }

  /** Dividing twice is dividing by the product. */
  lemma DivDiv(x: nat, d: nat, e: nat)
    requires d > 0 && e > 0
    ensures d * e > 0 && x / d / e == x / (d * e)
  {
    var q := x / d;
    var h, l := q / e, q % e;
    MulMonotone(d, 1, e);
    MulDistributes(d, e * h, l);
    MulAssoc(d, e, h);
    MulMonotone(d, l + 1, e);
    MulDistributes(d, l, 1);
    DivModUnique(x, d * e, h, d * l + x % d);
  }
}
