/**
 * The compact format of difficulty targets: a sign, a 23-bit mantissa and an exponent of base 256 in 32 bits.
 */
module Compact {
  import opened Prelude
  import opened Arithmetic
  import opened Limbs
  import opened Words
  import opened ArithShift
  import opened ArithDivide

  const WIDTH := 8

  /** A number without its lowest `k` bits. */
  function Dropped(x: nat, k: nat): nat {
    if k == 0 then x else Dropped(x / 2, k - 1)
  }

  /** The exponent: the number of bytes that hold the number and a clear sign bit. */
  function Exponent(x: nat): nat {
    if x == 0 then 0 else BitLength(x) / 8 + 1
  }

  function Mantissa(x: nat): nat {
    if Exponent(x) <= 3 then Scaled(x, 8 * (3 - Exponent(x))) else Dropped(x, 8 * (Exponent(x) - 3))
  }

  function Encode(x: nat, negative: bool): nat {
    Exponent(x) * 0x100_0000 + Mantissa(x) + (if negative && Mantissa(x) != 0 then 0x80_0000 else 0)
  }

  datatype Decoded = Decoded(value: nat, negative: bool, overflow: bool)

  function DecodeParts(size: nat, word: nat, sign: bool): Decoded {
    if size <= 3 then
      var shifted := Dropped(word, 8 * (3 - size));
      Decoded(shifted, shifted != 0 && sign, false)
    else
      Decoded(Scaled(word, 8 * (size - 3)) % Weight(WIDTH), word != 0 && sign, Overflows(size, word))
  }

  predicate Overflows(size: nat, word: nat) {
    word != 0 && (size > 34 || (word > 0xff && size > 33) || (word > 0xffff && size > 32))
  }

  function Decode(c: nat): Decoded {
    DecodeParts(c / 0x100_0000, c % 0x80_0000, c / 0x80_0000 % 2 == 1)
  }

  /** The bits of a number that the mantissa has no room for. */
  function Lost(x: nat): nat {
    if Exponent(x) <= 3 then 0 else 8 * (Exponent(x) - 3)
  }

  /** A number with those bits cleared. */
  function Truncate(x: nat): nat {
    Scaled(Dropped(x, Lost(x)), Lost(x))
  }

  /* ---- Bits appended and dropped ---- */

  lemma {:induction false} ScaledBits(x: nat, k: nat)
    requires x > 0
    ensures Scaled(x, k) > 0 && BitLength(Scaled(x, k)) == BitLength(x) + k
  {
    if k > 0 {
      ScaledBits(x, k - 1);
    }
  }

  lemma {:induction false} DroppedBits(x: nat, k: nat)
    ensures BitLength(Dropped(x, k)) == if BitLength(x) <= k then 0 else BitLength(x) - k
  {
    if k > 0 {
      DroppedBits(x / 2, k - 1);
    }
  }

  lemma {:induction false} ScaledMonotone(x: nat, y: nat, k: nat)
    requires x <= y
    ensures Scaled(x, k) <= Scaled(y, k)
  {
    if k > 0 {
      ScaledMonotone(x, y, k - 1);
    }
  }

  lemma {:induction false} DroppedMonotone(x: nat, y: nat, k: nat)
    requires x <= y
    ensures Dropped(x, k) <= Dropped(y, k)
  {
    if k > 0 {
      DroppedMonotone(x / 2, y / 2, k - 1);
    }
  }

  lemma {:induction false} DropScaled(x: nat, k: nat)
    ensures Dropped(Scaled(x, k), k) == x
  {
    if k > 0 {
      DropScaled(x, k - 1);
    }
  }

  /** Dropping bits and appending zeros in their place rounds down, by less than one unit. */
  lemma {:induction false} ScaleDropped(x: nat, k: nat)
    ensures Scaled(Dropped(x, k), k) <= x < Scaled(Dropped(x, k), k) + Pow2(k)
  {
    if k > 0 {
      ScaleDropped(x / 2, k - 1);
    }
  }

  lemma {:induction false} ScaledSum(x: nat, j: nat, k: nat)
    ensures Scaled(x, j + k) == Scaled(Scaled(x, j), k)
  {
    if k > 0 {
      ScaledSum(x, j, k - 1);
    }
  }

  lemma {:induction false} DroppedIsQuotient(x: nat, k: nat)
    ensures Dropped(x, k) == x / Pow2(k)
  {
    if k > 0 {
      DroppedIsQuotient(x / 2, k - 1);
      DivDiv(x, 2, Pow2(k - 1));
    }
  }

  lemma BitLengthMonotone(x: nat, y: nat)
    requires BitLength(x) < BitLength(y)
    ensures x < y
  {
    BitLengthBounds(x);
    BitLengthBounds(y);
    Pow2Monotone(BitLength(x), BitLength(y) - 1);
  }

  lemma FewBits(x: nat, b: nat)
    requires BitLength(x) <= b
    ensures x < Pow2(b)
  {
    BitLengthBounds(x);
    Pow2Monotone(BitLength(x), b);
  }

  /* ---- What a code means ---- */

  /** A code stands for its mantissa times a power of 256, rounded towards zero; the flags tell its sign and whether it fits. */
  lemma DecodeIs(c: nat, size: nat, word: nat, sign: bool)
    requires word < 0x80_0000 && c == size * 0x100_0000 + (if sign then 0x80_0000 else 0) + word
    ensures size <= 3 ==> Decode(c).value == word / Pow2(8 * (3 - size))
    ensures size > 3 ==> Decode(c).value == (word * Pow2(8 * (size - 3))) % Weight(WIDTH)
    ensures Decode(c).negative <==> sign && word != 0 && (size <= 3 ==> word / Pow2(8 * (3 - size)) != 0)
  {
    CodeParts(c, size, word, sign);
    if size <= 3 {
      DroppedIsQuotient(word, 8 * (3 - size));
      DroppedZero(word, 8 * (3 - size));
    } else {
      ScaledIsProduct(word, 8 * (size - 3));
    }
  }

  lemma CodeParts(c: nat, size: nat, word: nat, sign: bool)
    requires word < 0x80_0000 && c == size * 0x100_0000 + (if sign then 0x80_0000 else 0) + word
    ensures c / 0x100_0000 == size && c % 0x80_0000 == word && (c / 0x80_0000 % 2 == 1 <==> sign)
  {
  }

  lemma DroppedZero(x: nat, k: nat)
    ensures x == 0 ==> x / Pow2(k) == 0
  {
  }

  /** The code of a number: the fewest bytes that leave the sign bit clear, and its three leading ones. */
  lemma EncodeIs(x: nat, negative: bool)
    ensures var size := Encode(x, negative) / 0x100_0000;
            var word := Encode(x, negative) % 0x80_0000;
            && (x > 0 ==> size > 0 && x < Pow2(8 * size - 1) && (size > 1 ==> Pow2(8 * (size - 1) - 1) <= x))
            && (x == 0 ==> size == 0 && word == 0)
            && word == (if size <= 3 then x * Pow2(8 * (3 - size)) else x / Pow2(8 * (size - 3)))
            && (Encode(x, negative) / 0x80_0000 % 2 == 1 <==> negative && word != 0)
  {
    MantissaBits(x);
    var size, word := Exponent(x), Mantissa(x);
    var c := Encode(x, negative);
    CodeParts(c, size, word, negative && word != 0);
    if size <= 3 {
      ScaledIsProduct(x, 8 * (3 - size));
    } else {
      DroppedIsQuotient(x, 8 * (size - 3));
    }
    if x > 0 {
      ExponentBounds(x, size);
    }
  }

  lemma ExponentBounds(x: nat, size: nat)
    requires x > 0 && size == Exponent(x)
    ensures x < Pow2(8 * size - 1) && (size > 1 ==> Pow2(8 * (size - 1) - 1) <= x)
  {
    BitLengthBounds(x);
    Pow2Monotone(BitLength(x), 8 * size - 1);
    if size > 1 {
      Pow2Monotone(8 * (size - 1) - 1, BitLength(x) - 1);
    }
  }

  /* ---- Encoding ---- */

  lemma Pow2OfMantissa()
    ensures Pow2(23) == 0x80_0000 && Pow2(24) == 0x100_0000
  {
    Pow2Values();
    Pow2Sum(8, 16);
  }

  /** The mantissa has 16 to 23 bits, so it leaves the sign bit clear. */
  lemma MantissaBits(x: nat)
    ensures x == 0 ==> Mantissa(x) == 0
    ensures x > 0 ==> 16 <= BitLength(Mantissa(x)) <= 23
    ensures Mantissa(x) < 0x80_0000
  {
    if x == 0 {
      DropScaled(0, 24);
      ScaledZero(24);
    } else if Exponent(x) <= 3 {
      ScaledBits(x, 8 * (3 - Exponent(x)));
    } else {
      DroppedBits(x, 8 * (Exponent(x) - 3));
    }
    Pow2OfMantissa();
    FewBits(Mantissa(x), 23);
  }

  lemma {:induction false} ScaledZero(k: nat)
    ensures Scaled(0, k) == 0
  {
    if k > 0 {
      ScaledZero(k - 1);
    }
  }

  lemma EncodeParts(x: nat, negative: bool)
    ensures Decode(Encode(x, negative)) == DecodeParts(Exponent(x), Mantissa(x), negative && x != 0)
  {
    MantissaBits(x);
    Unpack(Exponent(x), Mantissa(x), if negative && x != 0 then 1 else 0);
  }

  lemma Unpack(e: nat, m: nat, sign: nat)
    requires m < 0x80_0000 && sign <= 1
    ensures var c := e * 0x100_0000 + m + 0x80_0000 * sign;
            c / 0x100_0000 == e && c % 0x80_0000 == m && c / 0x80_0000 % 2 == sign
  {
    var c := e * 0x100_0000 + m + 0x80_0000 * sign;
    DivModUnique(c, 0x100_0000, e, m + 0x80_0000 * sign);
    DivModUnique(c, 0x80_0000, 2 * e + sign, m);
  }

  lemma TruncateBits(x: nat)
    ensures Truncate(x) <= x < Truncate(x) + Pow2(Lost(x))
    ensures BitLength(Truncate(x)) == BitLength(x)
  {
    ScaleDropped(x, Lost(x));
    if x == 0 {
    } else {
      DroppedBits(x, Lost(x));
      ScaledBits(Dropped(x, Lost(x)), Lost(x));
    }
  }

  /**
   * Encoding a 256-bit number and decoding it again raises neither flag beyond the sign that was asked for,
   * and gives the number without the bits below its mantissa.
   */
  lemma DecodeEncoded(x: nat, negative: bool)
    requires BitLength(x) <= 256
    ensures Decode(Encode(x, negative)) == Decoded(Truncate(x), negative && x != 0, false)
    ensures Truncate(x) <= x < Truncate(x) + Pow2(Lost(x))
  {
    EncodeParts(x, negative);
    MantissaBits(x);
    TruncateBits(x);
    if Exponent(x) <= 3 {
      DropScaled(x, 8 * (3 - Exponent(x)));
    } else {
      NoWrap256(Truncate(x));
      NoOverflow(x);
    }
  }

  lemma NoWrap256(v: nat)
    requires BitLength(v) <= 256
    ensures v % Weight(WIDTH) == v
  {
    FewBits(v, 256);
    NoWrap(v, 256, WIDTH);
  }

  lemma NoOverflow(x: nat)
    requires BitLength(x) <= 256
    ensures !Overflows(Exponent(x), Mantissa(x))
  {
    if Exponent(x) > 32 {
      DroppedBits(x, Lost(x));
      Pow2Values();
      FewBits(Mantissa(x), 16);
    }
  }

  /** Truncating again changes nothing, so encoding what was decoded gives the same code. */
  lemma EncodeIdempotent(x: nat, negative: bool)
    ensures Truncate(Truncate(x)) == Truncate(x) && Encode(Truncate(x), negative) == Encode(x, negative)
  {
    if Exponent(x) <= 3 {
      assert Truncate(x) == x;
    } else {
      TruncateBits(x);
      DropScaled(Dropped(x, Lost(x)), Lost(x));
      assert Exponent(Truncate(x)) == Exponent(x);
    }
  }

  /** Decoded targets keep the order of the numbers they were encoded from. */
  lemma TruncateMonotone(x: nat, y: nat)
    requires x <= y
    ensures Truncate(x) <= Truncate(y)
  {
    if BitLength(x) > BitLength(y) {
      BitLengthMonotone(y, x);
    }
    if Exponent(x) == Exponent(y) {
      DroppedMonotone(x, y, Lost(x));
      ScaledMonotone(Dropped(x, Lost(x)), Dropped(y, Lost(x)), Lost(x));
    } else {
      TruncateBits(x);
      TruncateBits(y);
      BitLengthMonotone(Truncate(x), Truncate(y));
    }
  }

  /** Any code that decodes without overflow stands for a number that encoding and decoding keep. */
  lemma DecodedIsExact(c: nat)
    requires !Decode(c).overflow
    ensures Truncate(Decode(c).value) == Decode(c).value && BitLength(Decode(c).value) <= 256
  {
    PartsAreExact(c / 0x100_0000, c % 0x80_0000, c / 0x80_0000 % 2 == 1);
  }

  lemma PartsAreExact(size: nat, word: nat, sign: bool)
    requires word < 0x80_0000 && !DecodeParts(size, word, sign).overflow
    ensures var v := DecodeParts(size, word, sign).value;
            Truncate(v) == v && BitLength(v) <= 256
  {
    assert BitLength(word) <= 23 by {
      Pow2OfMantissa();
      BitLengthAtMost(word, 23);
    }
    if size <= 3 {
      DroppedBits(word, 8 * (3 - size));
    } else if word == 0 {
      ScaledZero(8 * (size - 3));
      NoWrap256(0);
    } else {
      ScaledWordFits(size, word);
      NoWrap256(Scaled(word, 8 * (size - 3)));
      ScaledWordIsExact(size, word);
    }
  }

  lemma ScaledWordFits(size: nat, word: nat)
    requires size > 3 && 0 < word && BitLength(word) <= 23 && !Overflows(size, word)
    ensures BitLength(Scaled(word, 8 * (size - 3))) <= 256
  {
    ScaledBits(word, 8 * (size - 3));
    Pow2Values();
    if word <= 0xff {
      BitLengthAtMost(word, 8);
    } else if word <= 0xffff {
      BitLengthAtMost(word, 16);
    }
  }

  /** A word of more than `b` bits. */
  lemma MoreBits(word: nat, b: nat)
    requires word >= Pow2(b)
    ensures BitLength(word) > b
  {
    if BitLength(word) <= b {
      FewBits(word, b);
    }
  }

  lemma OverflowBits(size: nat, word: nat)
    requires size > 3 && 0 < word && Overflows(size, word)
    ensures BitLength(word) + 8 * (size - 3) > 256
  {
    Pow2Values();
    if word > 0xffff {
      MoreBits(word, 16);
    } else if word > 0xff {
      MoreBits(word, 8);
    } else {
      MoreBits(word, 0);
    }
  }

  /** The overflow flag is raised exactly if the number does not fit into 256 bits. */
  lemma OverflowsIff(size: nat, word: nat)
    requires size > 3 && word < 0x80_0000
    ensures Overflows(size, word) <==> Scaled(word, 8 * (size - 3)) >= Weight(WIDTH)
  {
    var k := 8 * (size - 3);
    WeightIsPow2(WIDTH);
    if word == 0 {
      ScaledZero(k);
    } else {
      Pow2OfMantissa();
      BitLengthAtMost(word, 23);
      ScaledBits(word, k);
      if Overflows(size, word) {
        OverflowBits(size, word);
        FitsIff(Scaled(word, k), 256);
      } else {
        ScaledWordFits(size, word);
        FitsIff(Scaled(word, k), 256);
      }
    }
  }

  lemma FitsIff(x: nat, b: nat)
    ensures x < Pow2(b) <==> BitLength(x) <= b
  {
    if x < Pow2(b) {
      BitLengthAtMost(x, b);
    } else {
      MoreBits(x, b);
    }
  }

  lemma ScaledWordIsExact(size: nat, word: nat)
    requires size > 3 && 0 < word && BitLength(word) <= 23
    ensures Truncate(Scaled(word, 8 * (size - 3))) == Scaled(word, 8 * (size - 3))
  {
    var k := 8 * (size - 3);
    ScaledBits(word, k);
    var lost := Lost(Scaled(word, k));
    ScaledSum(word, k - lost, lost);
    DropScaled(Scaled(word, k - lost), lost);
  }

  /* ---- The source's functions ---- */

  lemma {:induction false} DroppedSum(x: nat, j: nat, k: nat)
    ensures Dropped(x, j + k) == Dropped(Dropped(x, j), k)
  {
    if j > 0 {
      DroppedSum(x / 2, j - 1, k);
    }
  }

  /** The first three bytes of a number, when its size in bytes is `n`. */
  function Leading(x: nat, n: nat): nat {
    if n <= 3 then Scaled(x, 8 * (3 - n)) else Dropped(x, 8 * (n - 3))
  }

  /** One byte less of the leading bytes, one more in the exponent. */
  lemma LeadingNext(x: nat, n: nat)
    ensures Leading(x, n + 1) == Dropped(Leading(x, n), 8)
  {
    if n < 3 {
      var k := 8 * (2 - n);
      ScaledSum(x, k, 8);
      DropScaled(Scaled(x, k), 8);
    } else {
      DroppedSum(x, 8 * (n - 3), 8);
    }
  }

  lemma LeadingBits(x: nat)
    requires x > 0
    ensures BitLength(Leading(x, Bytes(x))) == BitLength(x) - 8 * Bytes(x) + 24
  {
    var n := Bytes(x);
    if n <= 3 {
      ScaledBits(x, 8 * (3 - n));
    } else {
      DroppedBits(x, 8 * (n - 3));
    }
  }

  lemma LeadingIsMantissa(x: nat)
    ensures Mantissa(x) == Leading(x, Exponent(x))
  {
  }

  /** The number of bytes of a number. */
  function Bytes(x: nat): nat {
    (BitLength(x) + 7) / 8
  }

  /** If the leading three bytes reach the sign bit, the exponent has to be one more. */
  lemma Adjust(x: nat, w: nat)
    requires w == Leading(x, Bytes(x))
    ensures w < 0x100_0000
    ensures w >= 0x80_0000 ==> Exponent(x) == Bytes(x) + 1 && Mantissa(x) == w / 0x100
    ensures w < 0x80_0000 ==> Exponent(x) == Bytes(x) && Mantissa(x) == w
  {
    LeadingIsMantissa(x);
    if x == 0 {
      ScaledZero(24);
    } else {
      LeadingBits(x);
      SignBit(w);
      SizeCases(BitLength(x));
      LeadingNext(x, Bytes(x));
      ByteDropped(w);
    }
  }

  lemma SizeCases(bits: nat)
    requires bits > 0
    ensures var n := (bits + 7) / 8;
            if bits == 8 * n then bits / 8 + 1 == n + 1 else bits < 8 * n && bits / 8 + 1 == n
  {
  }

  lemma SignBit(w: nat)
    requires BitLength(w) <= 24
    ensures w < 0x100_0000 && (w >= 0x80_0000 <==> BitLength(w) == 24)
  {
    Pow2OfMantissa();
    FewBits(w, 24);
    if w < 0x80_0000 {
      BitLengthAtMost(w, 23);
    } else if BitLength(w) <= 23 {
      FewBits(w, 23);
    }
  }

  lemma ByteDropped(w: nat)
    ensures Dropped(w, 8) == w / 0x100
  {
    DroppedIsQuotient(w, 8);
    Pow2Values();
  }

  /** Assignment of a 64-bit number. */
  method AssignWord(pn: array<uint32>, b: uint64)
    requires pn.Length == WIDTH
    modifies pn
    ensures Val(pn[..]) == b as nat
  {
    pn[0] := (b % BASE as uint64) as uint32;
    pn[1] := (b / BASE as uint64) as uint32;
    for i := 2 to pn.Length
      invariant pn[0] as int == b as int % BASE && pn[1] as int == b as int / BASE
      invariant forall k | 2 <= k < i :: pn[k] == 0
    {
      pn[i] := 0;
    }
    LowTwo(pn[..]);
  }

  lemma LowTwo(s: seq<uint32>)
    requires |s| >= 2
    ensures Val(s[..2]) == s[0] as nat + s[1] as nat * BASE
    ensures (forall k | 2 <= k < |s| :: s[k] == 0) ==> Val(s) == Val(s[..2])
  {
    ValTake(s, 0);
    ValTake(s, 1);
    assert s[..0] == [];
    if forall k | 2 <= k < |s| :: s[k] == 0 {
      ValHighZero(s, 2);
    }
  }

  method GetLow64(pn: array<uint32>) returns (r: uint64)
    requires pn.Length == WIDTH
    ensures r as nat == Val(pn[..]) % UINT64_LIMIT
  {
    ghost var s := pn[..];
    var low, high := pn[0] as nat, pn[1] as nat * BASE;
    Pow2Values();
    OrIsSum(low, pn[1] as nat, 32);
    r := BitOr(low, high) as uint64;
    LowTwo(s);
    LowOf(s);
  }

  lemma LowOf(s: seq<uint32>)
    requires |s| >= 2
    ensures Val(s) % UINT64_LIMIT == Val(s[..2])
  {
    ValSplit(s, 2);
    ValBound(s[..2]);
    assert Weight(2) == UINT64_LIMIT;
    DivModUnique(Val(s), UINT64_LIMIT, Val(s[2..]), Val(s[..2]));
  }

  method SetCompact(pn: array<uint32>, nCompact: uint32) returns (negative: bool, overflow: bool)
    requires pn.Length == WIDTH
    modifies pn
    ensures Decoded(Val(pn[..]), negative, overflow) == Decode(nCompact as nat)
  {
    var nSize: nat := nCompact as nat / 0x100_0000;
    var nWord := nCompact % 0x80_0000;
    if nSize <= 3 {
      DroppedIsQuotient(nWord as nat, 8 * (3 - nSize));
      nWord := Shr(nWord, 8 * (3 - nSize));
      AssignWord(pn, nWord as uint64);
    } else {
      AssignWord(pn, nWord as uint64);
      ScaledIsProduct(nWord as nat, 8 * (nSize - 3));
      ShiftLeft(pn, 8 * (nSize - 3));
    }
    negative := nWord != 0 && nCompact / 0x80_0000 % 2 == 1;
    overflow := nWord != 0 && (nSize > 34 || (nWord > 0xff && nSize > 33) || (nWord > 0xffff && nSize > 32));
  }

  method GetCompact(pn: array<uint32>, negative: bool) returns (r: uint32)
    requires pn.Length == WIDTH
    ensures r as nat == Encode(Val(pn[..]), negative)
  {
    var nSize, nCompact := SizeAndMantissa(pn);
    assert nCompact < 0x80_0000 && nSize < 256;
    r := Pack(nSize, nCompact, if negative && nCompact != 0 then 1 else 0);
  }

  /** The mantissa, moved below the sign bit where needed, and the exponent that goes with it. */
  method SizeAndMantissa(pn: array<uint32>) returns (nSize: nat, nCompact: uint32)
    requires pn.Length == WIDTH
    ensures nSize == Exponent(Val(pn[..])) <= 33 && nCompact as nat == Mantissa(Val(pn[..])) < 0x80_0000
  {
    ghost var x := Val(pn[..]);
    BitLengthFits(pn[..]);
    Adjust(x, Leading(x, Bytes(x)));
    MantissaBits(x);
    var bits := Bits(pn);
    nSize := (bits + 7) / 8;
    nCompact := LeadingBytes(pn, nSize);
    nSize, nCompact := ClearSign(nSize, nCompact);
  }

  /** A mantissa that reaches the sign bit gives up its lowest byte. */
  method ClearSign(nSize: nat, nCompact: uint32) returns (size: nat, mantissa: uint32)
    requires nCompact < 0x100_0000
    ensures nCompact >= 0x80_0000 ==> size == nSize + 1 && mantissa as nat == nCompact as nat / 0x100
    ensures nCompact < 0x80_0000 ==> size == nSize && mantissa == nCompact
  {
    size, mantissa := nSize, nCompact;
    if nCompact / 0x80_0000 % 2 == 1 {
      mantissa, size := nCompact / 0x100, nSize + 1;
    }
  }

  /** Put the exponent and the sign bit beside the mantissa. */
  method Pack(nSize: nat, nCompact: uint32, sign: nat) returns (r: uint32)
    requires nSize < 128 && nCompact < 0x80_0000 && sign <= 1
    ensures r as nat == nSize * 0x100_0000 + nCompact as nat + 0x80_0000 * sign
  {
    Pow2OfMantissa();
    OrIsSum(nCompact as nat, nSize, 24);
    var sized := BitOr(nCompact as nat, nSize * 0x100_0000);
    if sign == 1 {
      DivModUnique(sized, 0x80_0000, 2 * nSize, nCompact as nat);
      OrSetsBit(sized, 23);
      r := BitOr(sized, 0x80_0000) as uint32;
    } else {
      r := sized as uint32;
    }
  }

  lemma Low64Of(x: nat)
    ensures Pow2(24) == 0x100_0000
    ensures x < 0x100_0000 ==> x % UINT64_LIMIT == x
  {
    Pow2OfMantissa();
  }

  method LeadingBytes(pn: array<uint32>, nSize: nat) returns (nCompact: uint32)
    requires pn.Length == WIDTH && nSize == Bytes(Val(pn[..]))
    ensures nCompact as nat == Leading(Val(pn[..]), nSize)
  {
    ghost var x := Val(pn[..]);
    Adjust(x, Leading(x, nSize));
    if nSize <= 3 {
      FewBits(x, 24);
      Low64Of(x);
      var low := GetLow64(pn);
      assert low as nat == x;
      ScaledIsProduct(x, 8 * (3 - nSize));
      nCompact := (low as nat * Pow2(8 * (3 - nSize))) as uint32;
    } else {
      var bn := Copy(pn);
      DroppedIsQuotient(x, 8 * (nSize - 3));
      ShiftRight(bn, 8 * (nSize - 3));
      Low64Of(Leading(x, nSize));
      var low := GetLow64(bn);
      assert low as nat == Leading(x, nSize);
      nCompact := low as uint32;
    }
  }
}
