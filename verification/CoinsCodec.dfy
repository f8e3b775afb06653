/**
 * The serialized form of a transaction's unspent outputs: version, a header code, a bitmask of which outputs
 * are left, those outputs in compact form, and the height.
 */
module CoinsCodec {
  import opened Prelude
  import opened Coins
  import opened Arithmetic
  import opened Words
  import opened VarInt
  import Amounts
  import ScriptCompressor

  /* ---- Single outputs ---- */

  /** Outputs whose amount still fits into 64 bits when it is compressed. */
  predicate Storable(out: TxOut) {
    0 <= out.nValue < UINT64_LIMIT / 2 && Amounts.Compress(out.nValue) < UINT64_LIMIT
  }

  lemma ValidIsStorable(out: TxOut)
    requires 0 <= out.nValue <= Amounts.MAX_MONEY
    ensures Storable(out)
  {
    Amounts.CompressFits(out.nValue);
  }

  /** An output as it is read back: its amount may have wrapped around, and a script that is too long has become an invalid one. */
  function Stored(out: TxOut): TxOut {
    TxOut(Amounts.ReadBack(out.nValue),
          if |out.scriptPubKey| > ScriptCompressor.MAX_SCRIPT_SIZE then [ScriptCompressor.OP_RETURN] else out.scriptPubKey)
  }

  const NULL_OUT := TxOut(-1, [])

  function PackedAmount(n: int): nat {
    Amounts.Wrap(Amounts.Compress(Amounts.Unsigned(n) as nat)) as nat
  }

  function UnpackedAmount(x: nat): int {
    Amounts.Signed(Amounts.Wrap(Amounts.Decompress(Amounts.Wrap(x) as nat)))
  }

  function WriteOut(curve: ScriptCompressor.Curve, out: TxOut): Bytes {
    VarInt.Write(PackedAmount(out.nValue)) + ScriptCompressor.Write(curve, out.scriptPubKey)
  }

  function ReadOut(curve: ScriptCompressor.Curve, s: Bytes): Option<Read<TxOut>> {
    match ReadVarInt(s)
    case None => None
    case Some(v) =>
      match ScriptCompressor.ReadScript(curve, v.rest)
      case None => None
      case Some(r) => Some(Read(TxOut(UnpackedAmount(v.value), r.value), r.rest))
  }

  lemma ReadWrittenOut(curve: ScriptCompressor.Curve, out: TxOut, tail: Bytes)
    requires ScriptCompressor.CurveOk(curve)
    ensures ReadOut(curve, WriteOut(curve, out) + tail) == Some(Read(Stored(out), tail))
    ensures Storable(out) ==> Stored(out).nValue == out.nValue
  {
    var amount, script := VarInt.Write(PackedAmount(out.nValue)), ScriptCompressor.Write(curve, out.scriptPubKey);
    assert amount + script + tail == amount + (script + tail);
    ReadWrittenIff(PackedAmount(out.nValue), script + tail);
    Amounts.WrapSmall(PackedAmount(out.nValue));
    ScriptCompressor.ReadWritten(curve, out.scriptPubKey, tail);
    if Storable(out) {
      Amounts.ReadBackKeeps(out.nValue);
    }
  }

  /* ---- The outputs that are left ---- */

  predicate Avail(vout: seq<TxOut>, i: nat) {
    i < |vout| && !vout[i].IsNull()
  }

  /** The outputs that are left, from the `i`th on. */
  function WriteOuts(curve: ScriptCompressor.Curve, vout: seq<TxOut>, i: nat): Bytes
    decreases |vout| - i
  {
    if i >= |vout| then []
    else (if Avail(vout, i) then WriteOut(curve, vout[i]) else []) + WriteOuts(curve, vout, i + 1)
  }

  function ReadOuts(curve: ScriptCompressor.Curve, avail: seq<bool>, s: Bytes): Option<Read<seq<TxOut>>>
    decreases |avail|
  {
    if avail == [] then Some(Read([], s))
    else if !avail[0] then
      match ReadOuts(curve, avail[1..], s)
      case None => None
      case Some(r) => Some(Read([NULL_OUT] + r.value, r.rest))
    else
      match ReadOut(curve, s)
      case None => None
      case Some(out) =>
        match ReadOuts(curve, avail[1..], out.rest)
        case None => None
        case Some(r) => Some(Read([out.value] + r.value, r.rest))
  }

  /** The outputs from `i` on as they are stored, with spent ones blank, as many as the bitmask has room for. */
  function Blanked(vout: seq<TxOut>, i: nat, n: nat): (r: seq<TxOut>)
    ensures |r| == n
    decreases n
  {
    if n == 0 then [] else [if Avail(vout, i) then Stored(vout[i]) else NULL_OUT] + Blanked(vout, i + 1, n - 1)
  }

  /** The bitmask from `i` on tells which outputs are left, and covers all of them. */
  predicate Tells(avail: seq<bool>, vout: seq<TxOut>, i: nat) {
    && (forall k | 0 <= k < |avail| :: avail[k] <==> Avail(vout, i + k))
    && (forall k | i + |avail| <= k < |vout| :: vout[k].IsNull())
  }

  lemma {:induction false} ReadWrittenOuts(curve: ScriptCompressor.Curve, avail: seq<bool>, vout: seq<TxOut>, i: nat, tail: Bytes)
    requires ScriptCompressor.CurveOk(curve) && Tells(avail, vout, i)
    ensures ReadOuts(curve, avail, WriteOuts(curve, vout, i) + tail) == Some(Read(Blanked(vout, i, |avail|), tail))
    decreases |avail|
  {
    if avail == [] {
      NothingLeft(curve, vout, i);
      assert [] + tail == tail;
    } else {
      TellsNext(avail, vout, i);
      ReadWrittenOuts(curve, avail[1..], vout, i + 1, tail);
      assert avail[0] <==> Avail(vout, i + 0);
      if avail[0] {
        ReadWrittenOut(curve, vout[i], WriteOuts(curve, vout, i + 1) + tail);
      }
      WriteNext(curve, vout, i, tail);
    }
  }

  lemma WriteNext(curve: ScriptCompressor.Curve, vout: seq<TxOut>, i: nat, tail: Bytes)
    ensures WriteOuts(curve, vout, i) + tail ==
      if Avail(vout, i) then WriteOut(curve, vout[i]) + (WriteOuts(curve, vout, i + 1) + tail) else WriteOuts(curve, vout, i + 1) + tail
  {
    if Avail(vout, i) {
      assert WriteOuts(curve, vout, i) == WriteOut(curve, vout[i]) + WriteOuts(curve, vout, i + 1);
    } else if i < |vout| {
      assert WriteOuts(curve, vout, i) == [] + WriteOuts(curve, vout, i + 1);
    }
  }

  lemma TellsNext(avail: seq<bool>, vout: seq<TxOut>, i: nat)
    requires avail != [] && Tells(avail, vout, i)
    ensures Tells(avail[1..], vout, i + 1)
  {
    forall k | 0 <= k < |avail| - 1
      ensures avail[1..][k] <==> Avail(vout, i + 1 + k)
    {
      assert avail[k + 1] <==> Avail(vout, i + (k + 1));
    }
  }

  lemma {:induction false} NothingLeft(curve: ScriptCompressor.Curve, vout: seq<TxOut>, i: nat)
    requires forall k | i <= k < |vout| :: vout[k].IsNull()
    ensures WriteOuts(curve, vout, i) == []
    decreases |vout| - i
  {
    if i < |vout| {
      NothingLeft(curve, vout, i + 1);
    }
  }

  /* ---- The bitmask ---- */

  function ByteOf(bits: seq<bool>): nat {
    if bits == [] then 0 else (if bits[0] then 1 else 0) + 2 * ByteOf(bits[1..])
  }

  function BitsOf(m: nat, n: nat): (r: seq<bool>)
    ensures |r| == n
  {
    if n == 0 then [] else [m % 2 == 1] + BitsOf(m / 2, n - 1)
  }

  lemma {:induction false} BitsOfByte(bits: seq<bool>)
    ensures BitsOf(ByteOf(bits), |bits|) == bits
  {
    if bits != [] {
      BitsOfByte(bits[1..]);
      assert bits == [bits[0]] + bits[1..];
    }
  }

  lemma {:induction false} ByteNotZero(bits: seq<bool>, i: nat)
    requires i < |bits| && bits[i]
    ensures ByteOf(bits) > 0
  {
    if i > 0 {
      ByteNotZero(bits[1..], i - 1);
    }
  }

  lemma {:induction false} ByteOfBound(bits: seq<bool>)
    ensures ByteOf(bits) < Pow2(|bits|)
  {
    if bits != [] {
      ByteOfBound(bits[1..]);
    }
  }

  lemma ByteOfEight(bits: seq<bool>)
    requires |bits| == 8
    ensures ByteOf(bits) < 256
  {
    ByteOfBound(bits);
    Pow2Values();
  }

  /** The eight outputs that byte `b` of the bitmask stands for. */
  function Block(vout: seq<TxOut>, b: nat): (r: seq<bool>)
    ensures |r| == 8 && forall i | 0 <= i < 8 :: r[i] == Avail(vout, 2 + 8 * b + i)
  {
    seq(8, i requires 0 <= i < 8 => Avail(vout, 2 + 8 * b + i))
  }

  function MaskByte(vout: seq<TxOut>, b: nat): byte {
    ByteOfEight(Block(vout, b));
    ByteOf(Block(vout, b))
  }

  function Mask(vout: seq<TxOut>, n: nat): (r: seq<byte>)
    ensures |r| == n
  {
    if n == 0 then [] else Mask(vout, n - 1) + [MaskByte(vout, n - 1)]
  }

  /** The bytes that could be needed. */
  function Blocks(vout: seq<TxOut>): nat {
    if |vout| <= 2 then 0 else (|vout| - 3) / 8 + 1
  }

  /** The bytes up to the last one that is not zero. */
  function LastUsed(vout: seq<TxOut>, n: nat): (r: nat)
    ensures r <= n
  {
    if n == 0 then 0 else if MaskByte(vout, n - 1) != 0 then n else LastUsed(vout, n - 1)
  }

  function MaskSize(vout: seq<TxOut>): nat {
    LastUsed(vout, Blocks(vout))
  }

  function Nonzero(ms: seq<byte>): nat {
    if ms == [] then 0 else Nonzero(ms[..|ms| - 1]) + (if ms[|ms| - 1] != 0 then 1 else 0)
  }

  /** Read bytes until the given number of them were not zero. */
  function ReadMask(code: nat, s: Bytes): Option<Read<seq<bool>>>
    decreases |s|
  {
    if code == 0 then Some(Read([], s))
    else if s == [] then None
    else
      match ReadMask(if s[0] != 0 then code - 1 else code, s[1..])
      case None => None
      case Some(r) => Some(Read(BitsOf(s[0], 8) + r.value, r.rest))
  }

  function AllBits(ms: seq<byte>): (r: seq<bool>)
    ensures |r| == 8 * |ms|
  {
    if ms == [] then [] else BitsOf(ms[0], 8) + AllBits(ms[1..])
  }

  lemma {:induction false} NonzeroFront(ms: seq<byte>)
    requires ms != []
    ensures Nonzero(ms) == Nonzero(ms[1..]) + (if ms[0] != 0 then 1 else 0)
  {
    if |ms| > 1 {
      var init := ms[..|ms| - 1];
      NonzeroFront(init);
      assert ms[1..][..|ms| - 2] == init[1..];
    }
  }

  lemma {:induction false} LastCounts(ms: seq<byte>)
    requires ms != [] && ms[|ms| - 1] != 0
    ensures Nonzero(ms) > 0
  {
  }

  /** If the last byte is not zero, reading stops after exactly the bytes that were written. */
  lemma {:induction false} ReadWrittenMask(ms: seq<byte>, tail: Bytes)
    requires ms != [] ==> ms[|ms| - 1] != 0
    ensures ReadMask(Nonzero(ms), ms + tail) == Some(Read(AllBits(ms), tail))
    decreases |ms|
  {
    if ms == [] {
      assert [] + tail == tail;
    } else {
      LastCounts(ms);
      NonzeroFront(ms);
      assert (ms + tail)[1..] == ms[1..] + tail;
      ReadWrittenMask(ms[1..], tail);
    }
  }

  lemma {:induction false} LastUsedIsNonzero(vout: seq<TxOut>, n: nat)
    ensures var k := LastUsed(vout, n);
            && (k > 0 ==> MaskByte(vout, k - 1) != 0)
            && (forall b | k <= b < n :: MaskByte(vout, b) == 0)
  {
    if n > 0 && MaskByte(vout, n - 1) == 0 {
      LastUsedIsNonzero(vout, n - 1);
    }
  }

  lemma {:induction false} AllBitsAt(vout: seq<TxOut>, n: nat, k: nat)
    requires k < 8 * n
    ensures AllBits(Mask(vout, n))[k] == Avail(vout, 2 + k)
    decreases n
  {
    AllBitsSnoc(Mask(vout, n - 1), MaskByte(vout, n - 1));
    if k < 8 * (n - 1) {
      AllBitsAt(vout, n - 1, k);
    } else {
      BitsOfByte(Block(vout, n - 1));
      assert Block(vout, n - 1)[k - 8 * (n - 1)] == Avail(vout, 2 + k);
    }
  }

  lemma {:induction false} AllBitsSnoc(ms: seq<byte>, m: byte)
    ensures AllBits(ms + [m]) == AllBits(ms) + BitsOf(m, 8)
  {
    if ms == [] {
      assert [] + [m] == [m] && [m][1..] == [];
    } else {
      assert (ms + [m])[1..] == ms[1..] + [m];
      AllBitsSnoc(ms[1..], m);
    }
  }

  /* ---- Whole values ---- */

  function HeaderCode(c: Coins): nat {
    var first, second := Avail(c.vout, 0), Avail(c.vout, 1);
    var maskCode := Nonzero(Mask(c.vout, MaskSize(c.vout)));
    8 * (if first || second || maskCode == 0 then maskCode else maskCode - 1)
    + (if c.fCoinBase then 1 else 0) + (if first then 2 else 0) + (if second then 4 else 0)
  }

  function Serialize(curve: ScriptCompressor.Curve, c: Coins): Bytes
  {
    VarInt.Write(c.nVersion) + (VarInt.Write(HeaderCode(c)) + (Mask(c.vout, MaskSize(c.vout))
      + (WriteOuts(curve, c.vout, 0) + VarInt.Write(c.nHeight))))
  }

  function Unserialize(curve: ScriptCompressor.Curve, s: Bytes): Option<Read<Coins>> {
    match ReadVarInt(s)
    case None => None
    case Some(version) =>
      match ReadVarInt(version.rest)
      case None => None
      case Some(code) => UnserializeBody(curve, version.value, code.value, code.rest)
  }

  function UnserializeBody(curve: ScriptCompressor.Curve, version: nat, code: nat, s: Bytes): Option<Read<Coins>> {
    var first, second := code / 2 % 2 == 1, code / 4 % 2 == 1;
    match ReadMask(code / 8 + (if first || second then 0 else 1), s)
    case None => None
    case Some(mask) => UnserializeOuts(curve, version, code % 2 == 1, [first, second] + mask.value, mask.rest)
  }

  function UnserializeOuts(curve: ScriptCompressor.Curve, version: nat, coinbase: bool, avail: seq<bool>, s: Bytes): Option<Read<Coins>> {
    match ReadOuts(curve, avail, s)
    case None => None
    case Some(outs) =>
      match ReadVarInt(outs.rest)
      case None => None
      case Some(height) => Some(Read(Coins(coinbase, Trim(outs.value), height.value, version), height.rest))
  }

  /** A vector as it is stored, with every spent output blank. */
  function Canonical(vout: seq<TxOut>): seq<TxOut> {
    Blanked(vout, 0, |vout|)
  }

  lemma {:induction false} BlankedAt(vout: seq<TxOut>, i: nat, n: nat, k: nat)
    requires k < n
    ensures Blanked(vout, i, n)[k] == if Avail(vout, i + k) then Stored(vout[i + k]) else NULL_OUT
    decreases n
  {
    if k > 0 {
      BlankedAt(vout, i + 1, n - 1, k - 1);
    }
  }

  lemma {:induction false} TrimFront(v: seq<TxOut>, k: nat)
    requires k <= |v| && forall i | k <= i < |v| :: v[i].IsNull()
    ensures Trim(v) == Trim(v[..k])
  {
    if k < |v| {
      TrimFront(v[..|v| - 1], k);
      assert v[..|v| - 1][..k] == v[..k];
    } else {
      assert v[..k] == v;
    }
  }

  /** However much room there was, what is read and trimmed is what is stored of the trimmed outputs. */
  lemma TrimBlanked(vout: seq<TxOut>, n: nat)
    requires |Trim(vout)| <= n
    ensures Trim(Blanked(vout, 0, n)) == Trim(Canonical(Trim(vout)))
  {
    var k := |Trim(vout)|;
    forall i | k <= i < n
      ensures Blanked(vout, 0, n)[i].IsNull()
    {
      BlankedAt(vout, 0, n, i);
    }
    TrimFront(Blanked(vout, 0, n), k);
    BlankedFront(vout, n);
  }

  lemma BlankedFront(vout: seq<TxOut>, n: nat)
    requires |Trim(vout)| <= n
    ensures Blanked(vout, 0, n)[..|Trim(vout)|] == Canonical(Trim(vout))
  {
    var t := Trim(vout);
    forall i | 0 <= i < |t|
      ensures Blanked(vout, 0, n)[i] == Canonical(t)[i]
    {
      BlankedAt(vout, 0, n, i);
      BlankedAt(t, 0, |t|, i);
    }
  }

  /** The bitmask, with the two bits of the header, tells which outputs are left. */
  lemma MaskTells(vout: seq<TxOut>, ms: seq<byte>)
    requires ms == Mask(vout, MaskSize(vout))
    ensures Tells([Avail(vout, 0), Avail(vout, 1)] + AllBits(ms), vout, 0)
  {
    var avail := [Avail(vout, 0), Avail(vout, 1)] + AllBits(ms);
    forall k | 0 <= k < |avail|
      ensures avail[k] <==> Avail(vout, 0 + k)
    {
      if k >= 2 {
        AllBitsAt(vout, MaskSize(vout), k - 2);
      }
    }
    forall k | |avail| <= k < |vout|
      ensures vout[k].IsNull()
    {
      if Avail(vout, k) {
        WithinMask(vout, k);
      }
    }
  }

  /** The bitmask reaches up to every output that is left. */
  lemma WithinMask(vout: seq<TxOut>, k: nat)
    requires Avail(vout, k)
    ensures k < 2 + 8 * MaskSize(vout)
  {
    if k >= 2 {
      var b, i := (k - 2) / 8, (k - 2) % 8;
      assert Block(vout, b)[i] == Avail(vout, 2 + 8 * b + i);
      ByteNotZero(Block(vout, b), i);
      LastUsedIsNonzero(vout, Blocks(vout));
      assert b < Blocks(vout) && MaskByte(vout, b) != 0;
    }
  }

  lemma MaskIsEnough(vout: seq<TxOut>, ms: seq<byte>)
    requires ms == Mask(vout, MaskSize(vout))
    ensures ms != [] ==> ms[|ms| - 1] != 0
    ensures |Trim(vout)| <= 2 + 8 * |ms|
  {
    LastUsedIsNonzero(vout, Blocks(vout));
    var t := Trim(vout);
    if t != [] {
      assert t[|t| - 1] == vout[|t| - 1];
      WithinMask(vout, |t| - 1);
    }
  }

  lemma CodeParts(m: nat, coinbase: bool, first: bool, second: bool)
    ensures var code := 8 * m + (if coinbase then 1 else 0) + (if first then 2 else 0) + (if second then 4 else 0);
            code / 8 == m && (code % 2 == 1 <==> coinbase) && (code / 2 % 2 == 1 <==> first) && (code / 4 % 2 == 1 <==> second)
  {
    var b, c, d := if coinbase then 1 else 0, if first then 2 else 0, if second then 4 else 0;
    var code := 8 * m + b + c + d;
    assert code / 2 == 4 * m + c / 2 + d / 2 && code / 4 == 2 * m + d / 4;
  }

  /**
   * A value that is not pruned is read back with its outputs as they are stored, without the spent ones at
   * the end. Version and height are written as unsigned numbers, so only the lowest digit is left of a
   * negative one.
   */
  lemma UnserializeSerialized(curve: ScriptCompressor.Curve, c: Coins, tail: Bytes)
    requires ScriptCompressor.CurveOk(curve) && !c.IsPruned()
    ensures Unserialize(curve, Serialize(curve, c) + tail) ==
      Some(Read(Coins(c.fCoinBase, Trim(Canonical(Trim(c.vout))), Kept(c.nHeight), Kept(c.nVersion)), tail))
  {
    var ms := Mask(c.vout, MaskSize(c.vout));
    var code := HeaderCode(c);
    var last := VarInt.Write(c.nHeight);
    var outs := WriteOuts(curve, c.vout, 0);
    Nest(VarInt.Write(c.nVersion), VarInt.Write(code), ms, outs, last, tail);
    ReadWrittenIff(c.nVersion, VarInt.Write(code) + (ms + (outs + (last + tail))));
    ReadWrittenIff(code, ms + (outs + (last + tail)));
    BodyReads(curve, c, ms, tail);
  }

  /** An output that is stored as it is: unspent with an amount that is read back and a script that is not too long, or spent and blank. */
  predicate Keeps(out: TxOut) {
    if out.IsNull() then out == NULL_OUT
    else Amounts.ReadBack(out.nValue) == out.nValue && |out.scriptPubKey| <= ScriptCompressor.MAX_SCRIPT_SIZE
  }

  lemma StorableKeeps(out: TxOut)
    requires Storable(out)
    ensures Keeps(out) <==> |out.scriptPubKey| <= ScriptCompressor.MAX_SCRIPT_SIZE
  {
    Amounts.ReadBackKeeps(out.nValue);
  }

  lemma CanonicalIff(t: seq<TxOut>)
    ensures Canonical(t) == t <==> forall i | 0 <= i < |t| :: Keeps(t[i])
  {
    forall i | 0 <= i < |t|
      ensures Canonical(t)[i] == t[i] <==> Keeps(t[i])
    {
      BlankedAt(t, 0, |t|, i);
    }
  }

  /** Exactly when the value read back is the trimmed original. */
  lemma RestoredIff(curve: ScriptCompressor.Curve, c: Coins, tail: Bytes)
    requires ScriptCompressor.CurveOk(curve) && !c.IsPruned()
    ensures Unserialize(curve, Serialize(curve, c) + tail) == Some(Read(c.Cleanup(), tail)) <==>
      c.nVersion >= 0 && c.nHeight >= 0 && forall i | 0 <= i < |Trim(c.vout)| :: Keeps(Trim(c.vout)[i])
  {
    UnserializeSerialized(curve, c, tail);
    RestoredOuts(c.vout);
  }

  lemma RestoredOuts(vout: seq<TxOut>)
    ensures Trim(Canonical(Trim(vout))) == Trim(vout) <==> forall i | 0 <= i < |Trim(vout)| :: Keeps(Trim(vout)[i])
  {
    var t := Trim(vout);
    CanonicalIff(t);
    if Trim(Canonical(t)) == t {
      assert |Canonical(t)| == |t|;
    }
  }

  /** Coins with nothing to trim come back with all their outputs, whatever becomes of version and height. */
  lemma OutputsComeBack(curve: ScriptCompressor.Curve, c: Coins, height: nat, version: nat)
    requires ScriptCompressor.CurveOk(curve) && !c.IsPruned()
    requires Trim(c.vout) == c.vout && forall i | 0 <= i < |c.vout| :: Keeps(c.vout[i])
    requires height == Kept(c.nHeight) && version == Kept(c.nVersion)
    ensures Unserialize(curve, Serialize(curve, c)) == Some(Read(c.(nHeight := height, nVersion := version), []))
  {
    UnserializeSerialized(curve, c, []);
    assert Serialize(curve, c) + [] == Serialize(curve, c);
    CanonicalIff(c.vout);
  }

  lemma OneOutput(c: Coins)
    requires c == Coins(false, [TxOut(0, [])], -1, 1)
    ensures !c.IsPruned() && Trim(c.vout) == c.vout && Kept(c.nHeight) == 127 && Kept(c.nVersion) == 1
    ensures forall i | 0 <= i < |c.vout| :: Keeps(c.vout[i])
  {
    assert !c.vout[0].IsNull() && Keeps(c.vout[0]);
  }

  /** A coin at height -1 comes back at height 127. */
  lemma NegativeHeightIsLost(curve: ScriptCompressor.Curve, c: Coins)
    requires ScriptCompressor.CurveOk(curve) && c == Coins(false, [TxOut(0, [])], -1, 1)
    ensures !c.IsPruned()
    ensures Unserialize(curve, Serialize(curve, c)) == Some(Read(c.(nHeight := 127), []))
  {
    OneOutput(c);
    OutputsComeBack(curve, c, 127, 1);
  }

  lemma BodyReads(curve: ScriptCompressor.Curve, c: Coins, ms: seq<byte>, tail: Bytes)
    requires ScriptCompressor.CurveOk(curve) && !c.IsPruned()
    requires ms == Mask(c.vout, MaskSize(c.vout))
    ensures UnserializeBody(curve, Kept(c.nVersion), HeaderCode(c), ms + (WriteOuts(curve, c.vout, 0) + (VarInt.Write(c.nHeight) + tail))) ==
      Some(Read(Coins(c.fCoinBase, Trim(Canonical(Trim(c.vout))), Kept(c.nHeight), Kept(c.nVersion)), tail))
  {
    HeaderReads(c, ms);
    MaskIsEnough(c.vout, ms);
    ReadWrittenMask(ms, WriteOuts(curve, c.vout, 0) + (VarInt.Write(c.nHeight) + tail));
    OutsRead(curve, c, ms, tail);
  }

  lemma OutsRead(curve: ScriptCompressor.Curve, c: Coins, ms: seq<byte>, tail: Bytes)
    requires ScriptCompressor.CurveOk(curve)
    requires ms == Mask(c.vout, MaskSize(c.vout))
    ensures UnserializeOuts(curve, Kept(c.nVersion), c.fCoinBase, [Avail(c.vout, 0), Avail(c.vout, 1)] + AllBits(ms),
                            WriteOuts(curve, c.vout, 0) + (VarInt.Write(c.nHeight) + tail)) ==
      Some(Read(Coins(c.fCoinBase, Trim(Canonical(Trim(c.vout))), Kept(c.nHeight), Kept(c.nVersion)), tail))
  {
    var avail := [Avail(c.vout, 0), Avail(c.vout, 1)] + AllBits(ms);
    var rest := VarInt.Write(c.nHeight) + tail;
    assert ReadOuts(curve, avail, WriteOuts(curve, c.vout, 0) + rest) == Some(Read(Blanked(c.vout, 0, |avail|), rest)) by {
      MaskTells(c.vout, ms);
      ReadWrittenOuts(curve, avail, c.vout, 0, rest);
    }
    assert Trim(Blanked(c.vout, 0, |avail|)) == Trim(Canonical(Trim(c.vout))) by {
      MaskIsEnough(c.vout, ms);
      TrimBlanked(c.vout, |avail|);
    }
    ReadWrittenIff(c.nHeight, tail);
  }

  lemma Nest(a: Bytes, b: Bytes, c: Bytes, d: Bytes, e: Bytes, f: Bytes)
    ensures a + (b + (c + (d + e))) + f == a + (b + (c + (d + (e + f))))
  {
  }

  /** The header code gives back the flags and the number of mask bytes that are not zero. */
  lemma HeaderReads(c: Coins, ms: seq<byte>)
    requires !c.IsPruned() && ms == Mask(c.vout, MaskSize(c.vout))
    ensures var code := HeaderCode(c);
            && (code % 2 == 1 <==> c.fCoinBase) && (code / 2 % 2 == 1 <==> Avail(c.vout, 0)) && (code / 4 % 2 == 1 <==> Avail(c.vout, 1))
            && code / 8 + (if Avail(c.vout, 0) || Avail(c.vout, 1) then 0 else 1) == Nonzero(ms)
  {
    var first, second := Avail(c.vout, 0), Avail(c.vout, 1);
    SomethingLeft(c.vout, ms);
    CodeParts(if first || second then Nonzero(ms) else Nonzero(ms) - 1, c.fCoinBase, first, second);
  }

  /** The source's assertion: some output is left, so the header has something to say. */
  lemma SomethingLeft(vout: seq<TxOut>, ms: seq<byte>)
    requires ms == Mask(vout, MaskSize(vout)) && exists i | 0 <= i < |vout| :: !vout[i].IsNull()
    ensures Avail(vout, 0) || Avail(vout, 1) || Nonzero(ms) > 0
  {
    if ms != [] {
      MaskIsEnough(vout, ms);
      LastCounts(ms);
    } else {
      var i :| 0 <= i < |vout| && !vout[i].IsNull();
      NoMaskNeeded(vout, i);
    }
  }

  lemma NoMaskNeeded(vout: seq<TxOut>, i: nat)
    requires Avail(vout, i) && MaskSize(vout) == 0
    ensures Avail(vout, 0) || Avail(vout, 1)
  {
    WithinMask(vout, i);
    assert i == 0 || i == 1;
  }

  /* ---- The source's loops ---- */

  lemma {:induction false} ByteOfSnoc(bits: seq<bool>, x: bool)
    ensures ByteOf(bits + [x]) == ByteOf(bits) + (if x then Pow2(|bits|) else 0)
  {
    if bits == [] {
      assert ([] + [x])[1..] == [];
    } else {
      assert (bits + [x])[1..] == bits[1..] + [x];
      ByteOfSnoc(bits[1..], x);
    }
  }

  /** One byte of the bitmask, bit by bit. */
  method AvailByte(vout: seq<TxOut>, b: nat) returns (chAvail: nat)
    ensures chAvail == MaskByte(vout, b)
  {
    ghost var bits := Block(vout, b);
    chAvail := 0;
    assert bits[..0] == [];
    for i := 0 to 8
      invariant chAvail == ByteOf(bits[..i])
    {
      assert bits[..i + 1] == bits[..i] + [bits[i]];
      ByteOfSnoc(bits[..i], bits[i]);
      if 2 + b * 8 + i < |vout| && !vout[2 + b * 8 + i].IsNull() {
        ByteOfBound(bits[..i]);
        OrIsSum(chAvail, 1, i);
        chAvail := BitOr(chAvail, Pow2(i));
      }
    }
    assert bits[..8] == bits;
  }

  /** The length of the bitmask and the number of its bytes that are not zero. */
  method CalcMaskSize(vout: seq<TxOut>) returns (nBytes: nat, nNonzeroBytes: nat)
    ensures nBytes == MaskSize(vout) && nNonzeroBytes == Nonzero(Mask(vout, MaskSize(vout)))
  {
    nBytes, nNonzeroBytes := 0, 0;
    var b := 0;
    while 2 + b * 8 < |vout|
      invariant b <= Blocks(vout) && nBytes == LastUsed(vout, b) && nNonzeroBytes == Nonzero(Mask(vout, b))
    {
      var fZero := IsZeroBlock(vout, b);
      if !fZero {
        nBytes := b + 1;
        nNonzeroBytes := nNonzeroBytes + 1;
      }
      b := b + 1;
    }
    assert b == Blocks(vout);
    LastUsedIsNonzero(vout, b);
    TrailingZeroes(vout, MaskSize(vout), b);
  }

  method IsZeroBlock(vout: seq<TxOut>, b: nat) returns (fZero: bool)
    ensures fZero <==> MaskByte(vout, b) == 0
  {
    ghost var bits := Block(vout, b);
    fZero := true;
    var i := 0;
    while i < 8 && 2 + b * 8 + i < |vout|
      invariant 0 <= i <= 8 && (fZero <==> forall k | 0 <= k < i :: !bits[k])
    {
      assert bits[i] == !vout[2 + b * 8 + i].IsNull();
      if !vout[2 + b * 8 + i].IsNull() {
        fZero := false;
      }
      i := i + 1;
    }
    assert forall k | i <= k < 8 :: !bits[k];
    ZeroIff(bits);
  }

  lemma {:induction false} ZeroIff(bits: seq<bool>)
    ensures ByteOf(bits) == 0 <==> forall k | 0 <= k < |bits| :: !bits[k]
  {
    if k: nat :| k < |bits| && bits[k] {
      ByteNotZero(bits, k);
    } else {
      AllClear(bits);
    }
  }

  lemma {:induction false} AllClear(bits: seq<bool>)
    requires forall k: nat | k < |bits| :: !bits[k]
    ensures ByteOf(bits) == 0
  {
    if bits != [] {
      AllClear(bits[1..]);
    }
  }

  lemma {:induction false} TrailingZeroes(vout: seq<TxOut>, k: nat, n: nat)
    requires k <= n && forall b | k <= b < n :: MaskByte(vout, b) == 0
    ensures Nonzero(Mask(vout, n)) == Nonzero(Mask(vout, k))
    decreases n
  {
    if k < n {
      TrailingZeroes(vout, k, n - 1);
      assert Mask(vout, n)[..n - 1] == Mask(vout, n - 1);
    }
  }

  /** The source's serialization. Only values that are not pruned have one. */
  method SerializeCoins(curve: ScriptCompressor.Curve, c: Coins) returns (s: Bytes)
    requires !c.IsPruned()
    ensures s == Serialize(curve, c)
  {
    var nMaskSize, nMaskCode := CalcMaskSize(c.vout);
    var nCode := Code(c, nMaskCode);
    var mask := MaskBytes(c.vout, nMaskSize);
    var outs := OutsBytes(curve, c.vout);
    var version := WriteVarInt(c.nVersion);
    var header := WriteVarInt(nCode);
    var height := WriteVarInt(c.nHeight);
    s := version + (header + (mask + (outs + height)));
  }

  /** The header code, with the writer's assertion that there is something to say. */
  method Code(c: Coins, nMaskCode: nat) returns (nCode: nat)
    requires !c.IsPruned() && nMaskCode == Nonzero(Mask(c.vout, MaskSize(c.vout)))
    ensures nCode == HeaderCode(c)
  {
    var fFirst, fSecond := |c.vout| > 0 && !c.vout[0].IsNull(), |c.vout| > 1 && !c.vout[1].IsNull();
    CodeIs(c, nMaskCode);
    assert fFirst || fSecond || nMaskCode > 0;
    nCode := 8 * (nMaskCode - (if fFirst || fSecond then 0 else 1)) + (if c.fCoinBase then 1 else 0)
      + (if fFirst then 2 else 0) + (if fSecond then 4 else 0);
  }

  lemma CodeIs(c: Coins, nMaskCode: nat)
    requires !c.IsPruned() && nMaskCode == Nonzero(Mask(c.vout, MaskSize(c.vout)))
    ensures var first, second := Avail(c.vout, 0), Avail(c.vout, 1);
            && (first || second || nMaskCode > 0)
            && HeaderCode(c) == 8 * (nMaskCode - (if first || second then 0 else 1)) + (if c.fCoinBase then 1 else 0)
                 + (if first then 2 else 0) + (if second then 4 else 0)
  {
    SomethingLeft(c.vout, Mask(c.vout, MaskSize(c.vout)));
  }

  method MaskBytes(vout: seq<TxOut>, nMaskSize: nat) returns (s: Bytes)
    ensures s == Mask(vout, nMaskSize)
  {
    s := [];
    for b := 0 to nMaskSize
      invariant s == Mask(vout, b)
    {
      var chAvail := AvailByte(vout, b);
      s := s + [chAvail];
    }
  }

  method OutsBytes(curve: ScriptCompressor.Curve, vout: seq<TxOut>) returns (s: Bytes)
    ensures s == WriteOuts(curve, vout, 0)
  {
    s := [];
    ghost var all := WriteOuts(curve, vout, 0);
    for i := 0 to |vout|
      invariant all == s + WriteOuts(curve, vout, i)
    {
      OutsNext(curve, vout, i, s);
      if !vout[i].IsNull() {
        var out := OutBytes(curve, vout[i]);
        s := s + out;
      }
    }
  }

  method OutBytes(curve: ScriptCompressor.Curve, out: TxOut) returns (s: Bytes)
    ensures s == WriteOut(curve, out)
  {
    var nVal := Amounts.CompressAmount(Amounts.Unsigned(out.nValue));
    var amount := WriteVarInt(nVal as int);
    var script := ScriptCompressor.WriteScript(curve, out.scriptPubKey);
    s := amount + script;
  }

  lemma OutsNext(curve: ScriptCompressor.Curve, vout: seq<TxOut>, i: nat, s: Bytes)
    requires i < |vout|
    ensures s + WriteOuts(curve, vout, i) == (if vout[i].IsNull() then s else s + WriteOut(curve, vout[i])) + WriteOuts(curve, vout, i + 1)
  {
    if vout[i].IsNull() {
      assert WriteOuts(curve, vout, i) == [] + WriteOuts(curve, vout, i + 1);
    }
  }

  /** The source's reader; None where the stream ends too early. */
  method UnserializeCoins(curve: ScriptCompressor.Curve, s: Bytes) returns (r: Option<Read<Coins>>)
    ensures r == Unserialize(curve, s)
  {
    var version := ReadVarIntLoop(s);
    if version.None? {
      return None;
    }
    var code := ReadVarIntLoop(version.value.rest);
    if code.None? {
      return None;
    }
    var nCode := code.value.value;
    var first, second := nCode / 2 % 2 == 1, nCode / 4 % 2 == 1;
    var mask := ReadMaskLoop(nCode / 8 + (if first || second then 0 else 1), code.value.rest);
    if mask.None? {
      return None;
    }
    var outs := ReadOutsLoop(curve, [first, second] + mask.value.value, mask.value.rest);
    if outs.None? {
      return None;
    }
    var height := ReadVarIntLoop(outs.value.rest);
    if height.None? {
      return None;
    }
    r := Some(Read(Coins(nCode % 2 == 1, Trim(outs.value.value), height.value.value, version.value.value), height.value.rest));
  }

  /** What a reader that has got `head` so far makes of the result for the rest. */
  function Prefixed<T>(head: seq<T>, r: Option<Read<seq<T>>>): Option<Read<seq<T>>> {
    match r
    case None => None
    case Some(read) => Some(Read(head + read.value, read.rest))
  }

  lemma PrefixedTwice<T>(a: seq<T>, b: seq<T>, r: Option<Read<seq<T>>>)
    ensures Prefixed(a, Prefixed(b, r)) == Prefixed(a + b, r)
  {
    if r.Some? {
      assert a + (b + r.value.value) == a + b + r.value.value;
    }
  }

  method ReadMaskLoop(code: nat, s: Bytes) returns (r: Option<Read<seq<bool>>>)
    ensures r == ReadMask(code, s)
  {
    var nMaskCode, i := code, 0;
    var vAvail: seq<bool> := [];
    assert s[0..] == s;
    ghost var all := ReadMask(code, s);
    NoPrefix(all);
    while nMaskCode > 0
      invariant i <= |s| && all == Prefixed(vAvail, ReadMask(nMaskCode, s[i..]))
      decreases |s| - i
    {
      if i == |s| {
        return None;
      }
      var chAvail := s[i];
      assert s[i..][1..] == s[i + 1..];
      PrefixedTwice(vAvail, BitsOf(chAvail, 8), ReadMask(if chAvail != 0 then nMaskCode - 1 else nMaskCode, s[i + 1..]));
      vAvail := vAvail + BitsOf(chAvail, 8);
      if chAvail != 0 {
        nMaskCode := nMaskCode - 1;
      }
      i := i + 1;
    }
    assert vAvail + [] == vAvail;
    r := Some(Read(vAvail, s[i..]));
  }

  lemma NoPrefix<T>(r: Option<Read<seq<T>>>)
    ensures Prefixed([], r) == r
  {
    if r.Some? {
      assert [] + r.value.value == r.value.value;
    }
  }

  method ReadOutFrom(curve: ScriptCompressor.Curve, s: Bytes) returns (r: Option<Read<TxOut>>)
    ensures r == ReadOut(curve, s)
  {
    var v := ReadVarIntLoop(s);
    if v.None? {
      return None;
    }
    var amount := Amounts.DecompressAmount(Amounts.Wrap(v.value.value));
    var script := ScriptCompressor.ReadScriptFrom(curve, v.value.rest);
    if script.None? {
      return None;
    }
    r := Some(Read(TxOut(Amounts.Signed(amount), script.value.value), script.value.rest));
  }

  method ReadOutsLoop(curve: ScriptCompressor.Curve, vAvail: seq<bool>, s: Bytes) returns (r: Option<Read<seq<TxOut>>>)
    ensures r == ReadOuts(curve, vAvail, s)
  {
    var vout: seq<TxOut> := [];
    var rest := s;
    ghost var all := ReadOuts(curve, vAvail, s);
    NoPrefix(all);
    assert vAvail[0..] == vAvail;
    for i := 0 to |vAvail|
      invariant all == Prefixed(vout, ReadOuts(curve, vAvail[i..], rest))
    {
      assert vAvail[i..][1..] == vAvail[i + 1..];
      if vAvail[i] {
        var out := ReadOutFrom(curve, rest);
        if out.None? {
          return None;
        }
        PrefixedTwice(vout, [out.value.value], ReadOuts(curve, vAvail[i + 1..], out.value.rest));
        vout, rest := vout + [out.value.value], out.value.rest;
      } else {
        PrefixedTwice(vout, [NULL_OUT], ReadOuts(curve, vAvail[i + 1..], rest));
        vout := vout + [NULL_OUT];
      }
    }
    assert vout + [] == vout;
    r := Some(Read(vout, rest));
  }
}
