/** The stored form of unspent outputs byte by byte, as its documentation describes it. */
module CodecFormats {
  import opened Prelude
  import opened Arithmetic
  import opened Coins
  import opened VarInt
  import opened CoinsCodec
  import Amounts
  import ScriptCompressor

  /* ---- Variable-length integers ---- */

  /** The number that a byte sequence encodes: base 128, most significant digit first, one added to all but the last digit. */
  function Meaning(a: Bytes): nat
    requires a != []
    decreases |a|
  {
    a[|a| - 1] % 128 + (if |a| == 1 then 0 else 128 * (Meaning(a[..|a| - 1]) + 1))
  }

  /** The high bit tells that another digit follows. */
  predicate WellFormed(a: Bytes) {
    a != [] && a[|a| - 1] < 128 && forall i | 0 <= i < |a| - 1 :: a[i] >= 128
  }

  lemma {:induction false} HighMeaning(n: nat)
    ensures HighDigits(n) != [] && Meaning(HighDigits(n)) == n
    ensures forall i | 0 <= i < |HighDigits(n)| :: HighDigits(n)[i] >= 128
  {
    if n > 0x7f {
      HighMeaning(n / 128 - 1);
      HighSnoc(HighDigits(n / 128 - 1), n / 128 - 1, n % 128);
    }
  }

  lemma HighSnoc(a: Bytes, m: nat, r: nat)
    requires r < 128 && a != [] && Meaning(a) == m
    ensures Meaning(a + [128 + r]) == 128 * (m + 1) + r
  {
    SnocMeaning(a, 128 + r);
  }

  lemma SnocMeaning(a: Bytes, x: byte)
    ensures Meaning(a + [x]) == x % 128 + (if a == [] then 0 else 128 * (Meaning(a) + 1))
  {
    assert (a + [x])[..|a|] == a;
  }

  /** What is written for a number is well formed and means that number. */
  lemma WrittenMeans(n: nat)
    ensures WellFormed(Write(n)) && Meaning(Write(n)) == n
  {
    if n > 0x7f {
      HighMeaning(n / 128 - 1);
      SnocMeaning(HighDigits(n / 128 - 1), n % 128);
    }
  }

  lemma {:induction false} ReadOnMeans(n: nat, done: Bytes, a: Bytes, tail: Bytes)
    requires WellFormed(done + a) && a != [] && n == (if done == [] then 0 else Meaning(done) + 1)
    ensures ReadOn(n, a + tail) == Some(Read(Meaning(done + a), tail))
    decreases |a|
  {
    assert (a + tail)[0] == a[0] == (done + a)[|done|] && (a + tail)[1..] == a[1..] + tail;
    SnocMeaning(done, a[0]);
    if |a| == 1 {
      assert a == [a[0]] && a[1..] + tail == tail;
    } else {
      assert done + a == (done + [a[0]]) + a[1..];
      ReadOnMeans(Meaning(done + [a[0]]) + 1, done + [a[0]], a[1..], tail);
    }
  }

  /** What is well formed is read as the number it means. */
  lemma ReadMeans(a: Bytes, tail: Bytes)
    requires WellFormed(a)
    ensures ReadVarInt(a + tail) == Some(Read(Meaning(a), tail))
  {
    assert [] + a == a;
    ReadOnMeans(0, [], a, tail);
  }

  /** Both directions: a number is written exactly as the well-formed bytes that mean it. */
  lemma WrittenIs(a: Bytes)
    requires WellFormed(a)
    ensures Write(Meaning(a)) == a
  {
    ReadMeans(a, []);
    assert a + [] == a;
    WriteRead(a);
    assert Write(Meaning(a)) + [] == Write(Meaning(a));
  }

  lemma OneByte(x: byte)
    requires x < 128
    ensures Write(x) == [x]
  {
  }

  lemma TwoBytes(x: byte, y: byte)
    requires x >= 128 && y < 128
    ensures Write((x - 127) * 128 + y) == [x, y]
  {
    var a: Bytes := [x, y];
    assert a[..1] == [x];
    assert Meaning(a) == (x - 127) * 128 + y;
    WrittenIs(a);
  }

  lemma ThreeBytes(x: byte, y: byte, z: byte)
    requires x >= 128 && y >= 128 && z < 128
    ensures Write(((x - 127) * 128 + y - 127) * 128 + z) == [x, y, z]
  {
    var a: Bytes := [x, y, z];
    HighSnoc([x], x - 128, y - 128);
    SnocMeaning([x] + [y], z);
    assert a == [x] + [y] + [z];
    WrittenIs(a);
  }

  lemma FourDigits(v: byte, w: byte, x: byte, y: byte)
    requires v >= 128 && w >= 128 && x >= 128 && y >= 128
    ensures Meaning([v, w]) == (v - 127) * 128 + w - 128
    ensures Meaning([v, w, x]) == (Meaning([v, w]) + 1) * 128 + x - 128
    ensures Meaning([v, w, x, y]) == (Meaning([v, w, x]) + 1) * 128 + y - 128
  {
    assert [v, w][..1] == [v] && [v, w, x][..2] == [v, w] && [v, w, x, y][..3] == [v, w, x];
  }

  lemma FiveBytes(v: byte, w: byte, x: byte, y: byte, z: byte)
    requires v >= 128 && w >= 128 && x >= 128 && y >= 128 && z < 128
    ensures Write((Meaning([v, w, x, y]) + 1) * 128 + z) == [v, w, x, y, z]
  {
    var a: Bytes := [v, w, x, y, z];
    assert a[..4] == [v, w, x, y];
    assert Meaning(a) == (Meaning([v, w, x, y]) + 1) * 128 + z;
    WrittenIs(a);
  }

  /** The documented encodings of up to two bytes; that documented for 16511 is not what is written. */
  lemma KnownNumbers()
    ensures Write(0) == [0] && Write(1) == [1] && Write(127) == [0x7f]
    ensures Write(128) == [0x80, 0x00] && Write(255) == [0x80, 0x7f] && Write(256) == [0x81, 0x00]
    ensures Write(16383) == [0xfe, 0x7f] && Write(16384) == [0xff, 0x00]
    ensures Write(16511) == [0xff, 0x7f]
  {
    OneByte(0);
    OneByte(1);
    OneByte(0x7f);
    TwoBytes(0x80, 0);
    TwoBytes(0x80, 0x7f);
    TwoBytes(0x81, 0);
    TwoBytes(0xfe, 0x7f);
    TwoBytes(0xff, 0);
    TwoBytes(0xff, 0x7f);
  }

  /** The longer ones; that documented for 65535 is not what is written. */
  lemma KnownLongNumbers(m: nat, n: nat)
    requires m == 65535 && n == 0x1_0000_0000
    ensures Write(m) == [0x82, 0xfe, 0x7f] && Write(n) == [0x8e, 0xfe, 0xfe, 0xff, 0x00]
  {
    ThreeBytes(0x82, 0xfe, 0x7f);
    FiveByteNumber(n);
  }

  lemma FiveByteNumber(n: nat)
    requires n == 0x1_0000_0000
    ensures Write(n) == [0x8e, 0xfe, 0xfe, 0xff, 0x00]
  {
    var v: byte, w: byte, y: byte := 0x8e, 0xfe, 0xff;
    FourDigits(v, w, w, y);
    FiveBytes(v, w, w, y, 0);
  }

  /* ---- Amounts ---- */

  lemma {:induction false} GrownCompresses(m: nat, e: nat)
    requires m > 0 && e <= 9 && (e < 9 ==> m % 10 != 0)
    ensures Amounts.Grow(m, e) > 0 && Amounts.Compress(Amounts.Grow(m, e)) == Amounts.Pack(Amounts.Scientific(m, e))
  {
    Amounts.ShrinkGrown(m, e, 0);
  }

  /** Fewer than nine zeroes at the end: the last other digit, the rest and the number of zeroes are packed. */
  lemma AmountWithDigit(k: nat, d: nat, e: nat)
    requires 1 <= d <= 9 && e < 9
    ensures Amounts.Compress(Amounts.Grow(10 * k + d, e)) == 1 + 10 * (9 * k + d - 1) + e
  {
    assert (10 * k + d) / 10 == k && (10 * k + d) % 10 == d;
    GrownCompresses(10 * k + d, e);
  }

  /** Nine zeroes or more: what is before them is packed. */
  lemma AmountOfBillions(n: nat)
    requires n > 0
    ensures Amounts.Compress(Amounts.Grow(n, 9)) == 1 + 10 * (n - 1) + 9
  {
    GrownCompresses(n, 9);
  }

  lemma Zeroes(m: nat)
    ensures Amounts.Grow(m, 6) == 1000000 * m && Amounts.Grow(m, 8) == 100000000 * m && Amounts.Grow(m, 9) == 1000000000 * m
  {
    assert Amounts.Grow(m, 1) == 10 * m;
    assert Amounts.Grow(m, 2) == 100 * m;
    assert Amounts.Grow(m, 3) == 1000 * m;
    assert Amounts.Grow(m, 4) == 10000 * m;
    assert Amounts.Grow(m, 5) == 100000 * m;
    assert Amounts.Grow(m, 6) == 1000000 * m;
    assert Amounts.Grow(m, 7) == 10000000 * m;
  }

  /** An amount that does not end in zero. */
  lemma UnevenAmount(n: nat, k: nat, d: nat)
    requires 1 <= d <= 9 && n == 10 * k + d
    ensures Amounts.Compress(n) == 1 + 10 * (9 * k + d - 1)
  {
    AmountWithDigit(k, d, 0);
  }

  /** A digit and `e` zeroes. */
  lemma RoundAmount(n: nat, d: nat, e: nat)
    requires 1 <= d <= 9 && e < 9 && n == Amounts.Grow(d, e)
    ensures Amounts.Compress(n) == 1 + 10 * (d - 1) + e
  {
    AmountWithDigit(0, d, e);
  }

  lemma BillionsAmount(n: nat, m: nat)
    requires m > 0 && n == 1000000000 * m
    ensures Amounts.Compress(n) == 1 + 10 * (m - 1) + 9
  {
    Zeroes(m);
    AmountOfBillions(m);
  }

  /** The amounts that the tests name: nothing, one unit, a hundredth of a coin and a coin. */
  lemma SmallAmounts(one: nat, cent: nat, coin: nat)
    requires one == 1 && cent == 1000000 && coin == 100000000
    ensures Amounts.Compress(0) == 0 && Amounts.Compress(one) == 1 && Amounts.Compress(cent) == 7 && Amounts.Compress(coin) == 9
  {
    UnevenAmount(one, 0, 1);
    Zeroes(1);
    RoundAmount(cent, 1, 6);
    RoundAmount(coin, 1, 8);
  }

  /** 50 and 21000000 coins. */
  lemma LargeAmounts(fifty: nat, all: nat)
    requires fifty == 5000000000 && all == 2100000000000000
    ensures Amounts.Compress(fifty) == 0x32 && Amounts.Compress(all) == 0x1406f40
  {
    BillionsAmount(fifty, 5);
    BillionsAmount(all, 2100000);
  }

  /* ---- Scripts ---- */

  /** The five special forms: payments to a key hash, a script hash, and keys of either parity, written short or in full. */
  lemma SpecialForms(curve: ScriptCompressor.Curve, hash: Bytes, x: Bytes, y: Bytes)
    requires |hash| == 20 && |x| == 32 && |y| == 32
    ensures ScriptCompressor.Write(curve, [0x76, 0xa9, 20] + hash + [0x88, 0xac]) == [0] + hash
    ensures ScriptCompressor.Write(curve, [0xa9, 20] + hash + [0x87]) == [1] + hash
    ensures ScriptCompressor.Write(curve, [33, 2] + x + [0xac]) == [2] + x
    ensures ScriptCompressor.Write(curve, [33, 3] + x + [0xac]) == [3] + x
    ensures curve.isFullyValid([4] + x + y) ==>
              ScriptCompressor.Write(curve, [65, 4] + x + y + [0xac]) == [4 + y[31] % 2] + x
  {
    KeyHash(curve, hash);
    ScriptHash(curve, hash);
    ShortKey(curve, 2, x);
    ShortKey(curve, 3, x);
    FullKey(curve, x, y);
  }

  lemma KeyHash(curve: ScriptCompressor.Curve, hash: Bytes)
    requires |hash| == 20
    ensures ScriptCompressor.Write(curve, [0x76, 0xa9, 20] + hash + [0x88, 0xac]) == [0] + hash
  {
    var s: Bytes := [0x76, 0xa9, 20] + hash + [0x88, 0xac];
    assert s[3..23] == hash;
  }

  lemma ScriptHash(curve: ScriptCompressor.Curve, hash: Bytes)
    requires |hash| == 20
    ensures ScriptCompressor.Write(curve, [0xa9, 20] + hash + [0x87]) == [1] + hash
  {
    var s: Bytes := [0xa9, 20] + hash + [0x87];
    assert s[2..22] == hash;
  }

  lemma ShortKey(curve: ScriptCompressor.Curve, prefix: byte, x: Bytes)
    requires |x| == 32 && (prefix == 2 || prefix == 3)
    ensures ScriptCompressor.Write(curve, [33, prefix] + x + [0xac]) == [prefix] + x
  {
    var s: Bytes := [33, prefix] + x + [0xac];
    assert s[2..34] == x;
  }

  lemma FullKey(curve: ScriptCompressor.Curve, x: Bytes, y: Bytes)
    requires |x| == 32 && |y| == 32
    ensures curve.isFullyValid([4] + x + y) ==> ScriptCompressor.Write(curve, [65, 4] + x + y + [0xac]) == [4 + y[31] % 2] + x
  {
    var s: Bytes := [65, 4] + x + y + [0xac];
    assert s[1..66] == [4] + x + y && s[2..34] == x;
    assert s[65] == y[31];
  }

  /** Any other script is written as it is, after its length plus six. */
  lemma OtherScripts(curve: ScriptCompressor.Curve, s: Bytes)
    requires |s| != 23 && |s| != 25 && |s| != 35 && |s| != 67
    ensures ScriptCompressor.Write(curve, s) == Write(|s| + 6) + s
  {
  }

  /* ---- Whole values ---- */

  function PayToKeyHash(hash: Bytes): Bytes {
    [0x76, 0xa9, 20] + hash + [0x88, 0xac]
  }

  lemma PackedIs(n: nat, packed: nat)
    requires n < 0x1_0000_0000_0000_0000 && packed == Amounts.Compress(n) < 0x1_0000_0000_0000_0000
    ensures PackedAmount(n) == packed
  {
    Amounts.WrapSmall(packed);
    Amounts.WrapSmall(n);
  }

  /** An unspent output is its compressed amount and its compressed script. */
  lemma OutIs(curve: ScriptCompressor.Curve, n: nat, packed: nat, script: Bytes)
    requires n < 0x1_0000_0000_0000_0000 && packed == Amounts.Compress(n) < 0x1_0000_0000_0000_0000
    ensures WriteOut(curve, TxOut(n, script)) == Write(packed) + ScriptCompressor.Write(curve, script)
  {
    PackedIs(n, packed);
  }

  /** An unspent output that pays to a key hash: the compressed amount, a zero, and the hash. */
  lemma KeyHashOut(curve: ScriptCompressor.Curve, n: nat, packed: nat, digits: Bytes, hash: Bytes)
    requires n < 0x1_0000_0000_0000_0000 && packed == Amounts.Compress(n) < 0x1_0000_0000_0000_0000
    requires |hash| == 20 && Write(packed) == digits
    ensures WriteOut(curve, TxOut(n, PayToKeyHash(hash))) == digits + ([0] + hash)
  {
    KeyHash(curve, hash);
    OutIs(curve, n, packed, PayToKeyHash(hash));
  }

  lemma {:induction false} SpentAreSkipped(curve: ScriptCompressor.Curve, vout: seq<TxOut>, i: nat, j: nat)
    requires i <= j <= |vout| && forall k | i <= k < j :: vout[k].IsNull()
    ensures WriteOuts(curve, vout, i) == WriteOuts(curve, vout, j)
    decreases j - i
  {
    if i < j {
      SpentAreSkipped(curve, vout, i + 1, j);
      assert [] + WriteOuts(curve, vout, i + 1) == WriteOuts(curve, vout, i + 1);
    }
  }

  lemma SixHundred(curve: ScriptCompressor.Curve, hash: Bytes, n: nat)
    requires |hash| == 20 && n == 60000000000
    ensures WriteOut(curve, TxOut(n, PayToKeyHash(hash))) == [0x83, 0x58] + ([0x00] + hash)
  {
    BillionsAmount(n, 60);
    TwoBytes(0x83, 0x58);
    KeyHashOut(curve, n, 600, [0x83, 0x58], hash);
  }

  /**
   * The first documented example, with any key hash: version 1, the code for "only output 1 is left", that output with
   * 600 coins, and the height.
   */
  lemma FirstExample(curve: ScriptCompressor.Curve, hash: Bytes, n: nat, c: Coins)
    requires |hash| == 20 && n == 60000000000 && c == Coins(false, [NULL_OUT, TxOut(n, PayToKeyHash(hash))], 203998, 1)
    ensures Serialize(curve, c) == [0x01] + ([0x04] + ([] + (([0x83, 0x58] + ([0x00] + hash)) + [0x8b, 0xb8, 0x5e])))
  {
    OneByte(1);
    OneByte(4);
    SixHundred(curve, hash, n);
    ThreeBytes(0x8b, 0xb8, 0x5e);
    SecondOnly(curve, c);
  }

  lemma SecondOnly(curve: ScriptCompressor.Curve, c: Coins)
    requires |c.vout| == 2 && c.vout[0].IsNull() && !c.vout[1].IsNull() && !c.fCoinBase
    ensures HeaderCode(c) == 4 && Mask(c.vout, MaskSize(c.vout)) == [] && WriteOuts(curve, c.vout, 0) == WriteOut(curve, c.vout[1])
  {
    SpentAreSkipped(curve, c.vout, 0, 1);
    assert WriteOuts(curve, c.vout, 2) == [];
    assert WriteOut(curve, c.vout[1]) + [] == WriteOut(curve, c.vout[1]);
  }

  /** A byte of the mask with one bit set. */
  lemma {:induction false} OneBit(bits: seq<bool>, k: nat)
    requires k < |bits| && bits[k] && forall i | 0 <= i < |bits| && i != k :: !bits[i]
    ensures ByteOf(bits) == Pow2(k)
  {
    if k > 0 {
      OneBit(bits[1..], k - 1);
    } else {
      AllClear(bits[1..]);
    }
  }

  /**
   * The second documented example, with any key hashes: a coinbase of which outputs 4 and 16 are left. Neither of the first
   * two is, so the code has one less than the number of mask bytes; the mask has bits 2 and 14.
   */
  lemma SecondExample(curve: ScriptCompressor.Curve, hash1: Bytes, hash2: Bytes, n1: nat, n2: nat, c: Coins)
    requires |hash1| == 20 && |hash2| == 20 && n1 == 234925952 && n2 == 110397
    requires c == Coins(true, LeftOf17(TxOut(n1, PayToKeyHash(hash1)), TxOut(n2, PayToKeyHash(hash2))), 120891, 1)
    ensures Serialize(curve, c) ==
      [0x01] + ([0x09] + ([0x04, 0x40] + (
        (([0x86, 0xef, 0x97, 0xd5, 0x79] + ([0x00] + hash1)) + ([0xbb, 0xd1, 0x23] + ([0x00] + hash2))) + [0x86, 0xaf, 0x3b])))
  {
    OneByte(1);
    OneByte(9);
    ThreeBytes(0x86, 0xaf, 0x3b);
    UnevenAmount(n1, 23492595, 2);
    FourDigits(0x86, 0xef, 0x97, 0xd5);
    FiveBytes(0x86, 0xef, 0x97, 0xd5, 0x79);
    KeyHashOut(curve, n1, 2114333561, [0x86, 0xef, 0x97, 0xd5, 0x79], hash1);
    UnevenAmount(n2, 11039, 7);
    ThreeBytes(0xbb, 0xd1, 0x23);
    KeyHashOut(curve, n2, 993571, [0xbb, 0xd1, 0x23], hash2);
    TwoLeft(curve, c);
  }

  /** Seventeen outputs of which 4 and 16 are left. */
  function LeftOf17(a: TxOut, b: TxOut): seq<TxOut> {
    seq(17, i => if i == 4 then a else if i == 16 then b else NULL_OUT)
  }

  lemma TwoLeft(curve: ScriptCompressor.Curve, c: Coins)
    requires |c.vout| == 17 && c.fCoinBase && forall i | 0 <= i < 17 :: c.vout[i].IsNull() <==> i != 4 && i != 16
    ensures HeaderCode(c) == 9 && Mask(c.vout, MaskSize(c.vout)) == [0x04, 0x40]
    ensures WriteOuts(curve, c.vout, 0) == WriteOut(curve, c.vout[4]) + WriteOut(curve, c.vout[16])
  {
    TwoLeftMask(c.vout);
    SpentAreSkipped(curve, c.vout, 0, 4);
    SpentAreSkipped(curve, c.vout, 5, 16);
    assert WriteOuts(curve, c.vout, 17) == [];
    assert WriteOut(curve, c.vout[16]) + [] == WriteOut(curve, c.vout[16]);
  }

  lemma TwoLeftMask(vout: seq<TxOut>)
    requires |vout| == 17 && forall i | 0 <= i < 17 :: vout[i].IsNull() <==> i != 4 && i != 16
    ensures MaskSize(vout) == 2 && Mask(vout, 2) == [0x04, 0x40] && Nonzero(Mask(vout, 2)) == 2
  {
    OneBit(Block(vout, 0), 2);
    OneBit(Block(vout, 1), 6);
    assert Pow2(2) == 4 && Pow2(6) == 64;
    assert Mask(vout, 0) == [] && Mask(vout, 1) == [0x04];
    assert Mask(vout, 2)[..1] == [0x04] && [4][..0] == [];
  }
}
