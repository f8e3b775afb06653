/** Shifts and bitwise or on unsigned machine words, as numbers. */
module Words {
  import opened Prelude
  import opened Arithmetic

  /** Bitwise or. */
  function BitOr(x: nat, y: nat): nat
    decreases x + y
  {
    if x == 0 then y else if y == 0 then x
    else 2 * BitOr(x / 2, y / 2) + (if x % 2 == 1 || y % 2 == 1 then 1 else 0)
  }

  /** Where the set bits do not overlap, or is addition. */
  lemma {:induction false} OrIsSum(x: nat, y: nat, s: nat)
    requires x < Pow2(s)
    ensures BitOr(x, y * Pow2(s)) == x + y * Pow2(s) == BitOr(y * Pow2(s), x)
    decreases s
  {
    if x != 0 && y != 0 {
      var z := y * Pow2(s - 1);
      MulSwap(y, 2, Pow2(s - 1));
      assert y * Pow2(s) == 2 * z;
      OrIsSum(x / 2, y, s - 1);
    }
  }

  /** Setting a clear bit adds it. */
  lemma {:induction false} OrSetsBit(x: nat, b: nat)
    requires x / Pow2(b) % 2 == 0
    ensures BitOr(x, Pow2(b)) == x + Pow2(b)
  {
    if b > 0 && x > 0 {
      DivDiv(x, 2, Pow2(b - 1));
      OrSetsBit(x / 2, b - 1);
    }
  }

  /** `x << s` in 32 bits. */
  function Shl(x: uint32, s: nat): uint32 {
    ((x as nat * Pow2(s)) % UINT32_LIMIT) as uint32
  }

  /** `x >> s` in 32 bits. */
  function Shr(x: uint32, s: nat): (r: uint32)
    ensures r <= x
  {
    QuotientBound(x as nat, Pow2(s));
    (x as nat / Pow2(s)) as uint32
  }

  lemma QuotientBound(x: nat, d: nat)
    requires d > 0
    ensures 0 <= x / d <= x && d * (x / d) <= x
  {
    MulMonotone(x / d, 1, d);
  }

  lemma PowersOfWord(s: nat)
    requires s <= 32
    ensures Pow2(s) * Pow2(32 - s) == UINT32_LIMIT
  {
    Pow2Sum(s, 32 - s);
    Pow2Values();
  }

  /** A left shift drops the high bits: what is left is the low part, scaled. */
  lemma ShlIsLow(x: uint32, s: nat)
    requires s <= 32
    ensures Shl(x, s) as nat == (x as nat % Pow2(32 - s)) * Pow2(s)
  {
    PowersOfWord(s);
    ModScaled(x as nat, Pow2(s), Pow2(32 - s));
  }
}
