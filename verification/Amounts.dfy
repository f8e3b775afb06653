/** Compressed amounts: the trailing zeroes of an amount are counted instead of written. */
module Amounts {
  import opened Prelude
  import opened Arithmetic

  const COIN := 100000000
  const MAX_MONEY := 160000000 * COIN

  datatype Scientific = Scientific(mantissa: nat, exponent: nat)

  /** Divide by ten while that leaves no remainder, at most nine times. */
  function Shrink(n: nat, e: nat): (r: Scientific)
    requires n > 0 && e <= 9
    ensures 0 < r.mantissa <= n && e <= r.exponent <= 9 && (r.exponent < 9 ==> r.mantissa % 10 != 0)
    ensures Grow(r.mantissa, r.exponent - e) == n
    decreases 9 - e
  {
    if n % 10 == 0 && e < 9 then Shrink(n / 10, e + 1) else Scientific(n, e)
  }

  function Grow(n: nat, e: nat): nat {
    if e == 0 then n else 10 * Grow(n, e - 1)
  }

  function Pack(s: Scientific): nat
    requires s.mantissa > 0
  {
    if s.exponent < 9 then 1 + (s.mantissa / 10 * 9 + s.mantissa % 10 - 1) * 10 + s.exponent else 1 + (s.mantissa - 1) * 10 + 9
  }

  function Unpack(x: nat): Scientific
    requires x > 0
  {
    var e, y := (x - 1) % 10, (x - 1) / 10;
    Scientific(if e < 9 then y / 9 * 10 + y % 9 + 1 else y + 1, e)
  }

  function Compress(n: nat): nat {
    if n == 0 then 0 else Pack(Shrink(n, 0))
  }

  function Decompress(x: nat): nat {
    if x == 0 then 0 else Grow(Unpack(x).mantissa, Unpack(x).exponent)
  }

  lemma UnpackPacked(s: Scientific)
    requires s.mantissa > 0 && s.exponent <= 9 && (s.exponent < 9 ==> s.mantissa % 10 != 0)
    ensures Pack(s) > 0 && Unpack(Pack(s)) == s
  {
  }

  lemma PackUnpacked(x: nat)
    requires x > 0
    ensures Unpack(x).mantissa > 0 && Unpack(x).exponent <= 9
    ensures Unpack(x).exponent < 9 ==> Unpack(x).mantissa % 10 != 0
    ensures Pack(Unpack(x)) == x
  {
    var e, y := (x - 1) % 10, (x - 1) / 10;
    var m := y / 9 * 10 + y % 9 + 1;
    assert m / 10 == y / 9 && m % 10 == y % 9 + 1;
  }

  lemma {:induction false} ShrinkGrown(m: nat, k: nat, e: nat)
    requires m > 0 && e + k <= 9 && (e + k < 9 ==> m % 10 != 0)
    ensures Grow(m, k) > 0 && Shrink(Grow(m, k), e) == Scientific(m, e + k)
  {
    if k > 0 {
      var g := Grow(m, k - 1);
      ShrinkGrown(m, k - 1, e + 1);
      ShrinkTen(g, e);
    }
  }

  lemma ShrinkTen(g: nat, e: nat)
    requires g > 0 && e < 9
    ensures Shrink(10 * g, e) == Shrink(g, e + 1)
  {
    DivModUnique(10 * g, 10, g, 0);
  }

  lemma DecompressCompressed(n: nat)
    ensures Decompress(Compress(n)) == n
  {
    if n > 0 {
      UnpackPacked(Shrink(n, 0));
    }
  }

  /** Together: compression is a bijection of the natural numbers. */
  lemma CompressDecompressed(x: nat)
    ensures Compress(Decompress(x)) == x
  {
    if x > 0 {
      PackUnpacked(x);
      ShrinkGrown(Unpack(x).mantissa, Unpack(x).exponent, 0);
    }
  }

  /** Valid amounts stay far below the range of 64 bits. */
  lemma CompressFits(n: nat)
    ensures Compress(n) <= 10 * n
    ensures n <= MAX_MONEY ==> Compress(n) < UINT64_LIMIT / 64
  {
  }

  /** Unsigned machine arithmetic keeps the low 64 bits. */
  function Wrap(x: nat): uint64 {
    (x % UINT64_LIMIT) as uint64
  }

  /** The source's loop; what does not fit into 64 bits wraps around. */
  method CompressAmount(nAmount: uint64) returns (r: uint64)
    ensures r == Wrap(Compress(nAmount as nat))
  {
    if nAmount == 0 {
      return 0;
    }
    var n, e := nAmount, 0;
    while n % 10 == 0 && e < 9
      invariant n > 0 && 0 <= e <= 9 && Shrink(n as nat, e) == Shrink(nAmount as nat, 0)
      decreases 9 - e
    {
      n, e := n / 10, e + 1;
    }
    if e < 9 {
      var d := n % 10;
      assert 1 <= d <= 9;
      n := n / 10;
      r := Wrap(1 + (n as nat * 9 + d as nat - 1) * 10 + e);
    } else {
      r := Wrap(1 + (n as nat - 1) * 10 + 9);
    }
  }

  method DecompressAmount(nAmount: uint64) returns (n: uint64)
    ensures n == Wrap(Decompress(nAmount as nat))
  {
    if nAmount == 0 {
      return 0;
    }
    var x := nAmount - 1;
    var e := x % 10;
    x := x / 10;
    if e < 9 {
      var d := x % 9 + 1;
      x := x / 9;
      n := x * 10 + d;
    } else {
      n := x + 1;
    }
    while e != 0
      invariant Wrap(Grow(n as nat, e as nat)) == Wrap(Decompress(nAmount as nat))
    {
      GrowMoves(n as nat, e as nat);
      GrowWrapped(n as nat * 10, e as nat - 1);
      n := Wrap(n as nat * 10);
      e := e - 1;
    }
  }

  /** It does not matter whether multiplying by ten wraps around on the way or at the end. */
  lemma {:induction false} GrowWrapped(n: nat, e: nat)
    ensures Wrap(Grow(Wrap(n) as nat, e)) == Wrap(Grow(n, e))
  {
    if e > 0 {
      GrowWrapped(n, e - 1);
      TenTimes(Grow(Wrap(n) as nat, e - 1), Grow(n, e - 1));
    }
  }

  lemma TenTimes(a: nat, b: nat)
    requires a % UINT64_LIMIT == b % UINT64_LIMIT
    ensures (10 * a) % UINT64_LIMIT == (10 * b) % UINT64_LIMIT
  {
    TenTimesLow(a, a / UINT64_LIMIT, a % UINT64_LIMIT);
    TenTimesLow(b, b / UINT64_LIMIT, b % UINT64_LIMIT);
  }

  lemma TenTimesLow(a: int, q: int, low: int)
    requires a == UINT64_LIMIT * q + low
    ensures (10 * a) % UINT64_LIMIT == (10 * low) % UINT64_LIMIT
  {
    var x := 10 * low;
    DivModUnique(10 * a, UINT64_LIMIT, 10 * q + x / UINT64_LIMIT, x % UINT64_LIMIT);
  }

  /** An amount survives both loops if its compressed form fits into 64 bits. */
  lemma LoopsInvert(n: uint64)
    requires Compress(n as nat) < UINT64_LIMIT
    ensures Wrap(Decompress(Wrap(Compress(n as nat)) as nat)) == n
  {
    WrapSmall(Compress(n as nat));
    DecompressCompressed(n as nat);
    WrapSmall(n as nat);
  }

  /** The 64-bit pattern of a signed amount, and the signed amount of a pattern. */
  function Unsigned(n: int): uint64 {
    (n % UINT64_LIMIT) as uint64
  }

  function Signed(u: uint64): int {
    if u as int < UINT64_LIMIT / 2 then u as int else u as int - UINT64_LIMIT
  }

  /** What a stored amount is read back as. */
  function ReadBack(n: int): int {
    Signed(Wrap(Decompress(Wrap(Compress(Unsigned(n) as nat)) as nat)))
  }

  /** An amount that is not negative and whose compressed form fits into 64 bits is read back. */
  lemma ReadBackKeeps(n: int)
    requires 0 <= n < UINT64_LIMIT / 2 && Compress(n) < UINT64_LIMIT
    ensures ReadBack(n) == n
  {
    assert Unsigned(n) as nat == n;
    LoopsInvert(Unsigned(n));
  }

  /** Other amounts need not be: minus two comes back as a positive amount. */
  lemma MinusTwoIsLost()
    ensures ReadBack(-2) == 2049638230412172124
  {
    var u := 18446744073709551614;
    assert Unsigned(-2) as nat == u;
    assert Shrink(u, 0) == Scientific(u, 0);
    assert Compress(u) == 166020696663385964521;
    var x := 18446744073709551593;
    assert Wrap(Compress(u)) as nat == x;
    assert Unpack(x) == Scientific(2049638230412172399, 2);
    var m := 2049638230412172399;
    assert Grow(m, 1) == 10 * m && Grow(m, 2) == 100 * m;
  }

  lemma WrapSmall(x: nat)
    requires x < UINT64_LIMIT
    ensures Wrap(x) as nat == x
  {
  }

  lemma {:induction false} GrowMoves(n: nat, e: nat)
    requires e > 0
    ensures Grow(n, e) == Grow(10 * n, e - 1)
  {
    if e > 1 {
      GrowMoves(n, e - 1);
    }
  }
}
