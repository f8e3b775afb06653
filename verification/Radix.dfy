/** Numbers as digits in a base, most significant first. */
module Radix {
  import opened Arithmetic

  function Pow(b: nat, e: nat): (r: nat)
    ensures b > 0 ==> r > 0
  {
    if e == 0 then 1
    else
      MulNonNegative(b, Pow(b, e - 1));
      if b > 0 then MulMonotone(Pow(b, e - 1), 1, b); b * Pow(b, e - 1) else 0
  }

  predicate Digits(s: seq<nat>, base: nat) {
    forall i | 0 <= i < |s| :: s[i] < base
  }

  function Num(s: seq<nat>, base: nat): nat {
    if s == [] then 0
    else
      MulNonNegative(Num(s[..|s| - 1], base), base);
      Num(s[..|s| - 1], base) * base + s[|s| - 1]
  }

  /** The digits of a number, without leading zeroes. */
  function ToBase(v: nat, base: nat): (r: seq<nat>)
    requires base > 1
    ensures Digits(r, base) && (r != [] ==> r[0] != 0)
  {
    if v == 0 then []
    else
      DivSmaller(v, base);
      ToBase(v / base, base) + [v % base]
  }

  lemma DivSmaller(v: nat, base: nat)
    requires base > 1 && v > 0
    ensures 0 <= v / base < v && (v / base == 0 ==> v % base == v)
  {
    if v / base >= v {
      MulMonotone(base, v, v / base);
      MulMonotone(v, 2, base);
    }
  }

  function Strip(s: seq<nat>): (r: seq<nat>)
    ensures |r| <= |s| && (r != [] ==> r[0] != 0)
  {
    if s != [] && s[0] == 0 then Strip(s[1..]) else s
  }

  lemma {:induction false} StripSkipsZeroes(s: seq<nat>)
    ensures Strip(s) == s[|s| - |Strip(s)|..]
    ensures forall i | 0 <= i < |s| - |Strip(s)| :: s[i] == 0
  {
    if s != [] && s[0] == 0 {
      StripSkipsZeroes(s[1..]);
      assert forall i | 0 < i < |s| :: s[i] == s[1..][i - 1];
    }
  }

  lemma StripDigits(s: seq<nat>, base: nat)
    requires Digits(s, base)
    ensures Digits(Strip(s), base)
  {
    StripSkipsZeroes(s);
  }

  function Zeros(n: nat): (r: seq<nat>)
    ensures |r| == n && forall i | 0 <= i < n :: r[i] == 0
  {
    seq(n, i => 0)
  }

  lemma {:induction false} ToBaseNum(v: nat, base: nat)
    requires base > 1
    ensures Num(ToBase(v, base), base) == v
  {
    if v > 0 {
      DivSmaller(v, base);
      ToBaseNum(v / base, base);
      NumSnoc(ToBase(v / base, base), v % base, base);
      DivModIs(v, base);
    }
  }

  lemma DivModIs(v: nat, base: nat)
    requires base > 0
    ensures v / base * base + v % base == v
  {
  }

  lemma NumSnoc(s: seq<nat>, x: nat, base: nat)
    ensures Num(s + [x], base) == Num(s, base) * base + x
  {
    assert (s + [x])[..|s|] == s;
  }

  /** A number has only one notation without leading zeroes. */
  lemma {:induction false} ToBaseUnique(s: seq<nat>, base: nat)
    requires base > 1 && Digits(s, base) && (s != [] ==> s[0] != 0)
    ensures ToBase(Num(s, base), base) == s
  {
    if s != [] {
      var init, last := s[..|s| - 1], s[|s| - 1];
      ToBaseUnique(init, base);
      DivModUnique(Num(s, base), base, Num(init, base), last);
      if init == [] {
        assert s == [last];
      } else {
        NumPositive(init, base);
        MulMonotone(base, 1, Num(init, base));
      }
    }
  }

  lemma {:induction false} NumPositive(s: seq<nat>, base: nat)
    requires base > 1 && s != [] && s[0] != 0
    ensures Num(s, base) > 0
  {
    if |s| > 1 {
      NumPositive(s[..|s| - 1], base);
      MulMonotone(base, 1, Num(s[..|s| - 1], base));
    }
  }

  lemma {:induction false} NumStrip(s: seq<nat>, base: nat)
    ensures Num(Strip(s), base) == Num(s, base)
  {
    if s != [] && s[0] == 0 {
      NumStrip(s[1..], base);
      NumLeadingZero(s[1..], base);
      assert s == [0] + s[1..];
    }
  }

  lemma {:induction false} NumLeadingZero(s: seq<nat>, base: nat)
    ensures Num([0] + s, base) == Num(s, base)
  {
    if s == [] {
      assert [0] + s == [0] && [0][..0] == [];
    } else {
      assert ([0] + s)[..|s|] == [0] + s[..|s| - 1];
      NumLeadingZero(s[..|s| - 1], base);
    }
  }

  /** Skipping leading zeroes of any notation leaves the shortest one. */
  lemma StripIsToBase(s: seq<nat>, base: nat)
    requires base > 1 && Digits(s, base)
    ensures Strip(s) == ToBase(Num(s, base), base)
  {
    NumStrip(s, base);
    StripDigits(s, base);
    ToBaseUnique(Strip(s), base);
  }

  lemma {:induction false} NumBound(s: seq<nat>, base: nat)
    requires base > 1 && Digits(s, base)
    ensures Num(s, base) < Pow(base, |s|)
  {
    if s != [] {
      NumBound(s[..|s| - 1], base);
      MulMonotone(base, Num(s[..|s| - 1], base) + 1, Pow(base, |s| - 1));
      MulDistributes(base, Num(s[..|s| - 1], base), 1);
    }
  }

  /** The first digit's share of a number. */
  lemma {:induction false} NumCons(x: nat, s: seq<nat>, base: nat)
    ensures Num([x] + s, base) == x * Pow(base, |s|) + Num(s, base)
  {
    if s == [] {
      assert [x] + s == [] + [x];
      NumSnoc([], x, base);
    } else {
      var init, last := s[..|s| - 1], s[|s| - 1];
      assert [x] + s == ([x] + init) + [last];
      NumSnoc([x] + init, last, base);
      NumCons(x, init, base);
      ConsStep(x, Pow(base, |init|), Num(init, base), last, base);
      assert Num(s, base) == Num(init, base) * base + last;
    }
  }

  lemma ConsStep(x: int, p: int, n: int, last: int, base: int)
    ensures (x * p + n) * base + last == x * (base * p) + (n * base + last)
  {
    MulDistributes(base, x * p, n);
    MulSwap(x, base, p);
  }

  lemma {:induction false} PowSum(b: nat, e: nat, f: nat)
    ensures Pow(b, e + f) == Pow(b, e) * Pow(b, f)
  {
    if e > 0 {
      PowSum(b, e - 1, f);
      MulAssoc(b, Pow(b, e - 1), Pow(b, f));
    }
  }
}
