/** Base58 text: leading zero bytes become leading ones, the rest is a change of base. */
module Base58 {
  import opened Prelude
  import opened Arithmetic
  import opened Radix

  /* ---- The buffers are large enough ---- */

  lemma SquarePow(b: nat, e: nat, v: nat)
    requires Pow(b, e) == v
    ensures Pow(b, 2 * e) == v * v
  {
    PowSum(b, e, e);
  }

  lemma Pow58()
    ensures Pow(58, 0) == 1 && Pow(58, 1) == 58
    ensures Pow(58, 2) == 3364 && Pow(58, 3) == 195112
    ensures Pow(58, 4) == 11316496 && Pow(58, 5) == 656356768
    ensures Pow(58, 6) == 38068692544 && Pow(58, 7) == 2207984167552
    ensures Pow(58, 8) == 128063081718016 && Pow(58, 9) == 7427658739644928
    ensures Pow(58, 10) == 430804206899405824 && Pow(58, 11) == 24986644000165537792
    ensures Pow(58, 12) == 1449225352009601191936 && Pow(58, 13) == 84055070416556869132288
    ensures Pow(58, 14) == 4875194084160298409672704 && Pow(58, 15) == 282761256881297307761016832
  {
    assert Pow(58, 1) == 58;
    assert Pow(58, 2) == 3364;
    assert Pow(58, 3) == 195112;
    assert Pow(58, 4) == 11316496;
    assert Pow(58, 5) == 656356768;
    assert Pow(58, 6) == 38068692544;
    assert Pow(58, 7) == 2207984167552;
    assert Pow(58, 8) == 128063081718016;
    assert Pow(58, 9) == 7427658739644928;
    assert Pow(58, 10) == 430804206899405824;
    assert Pow(58, 11) == 24986644000165537792;
    assert Pow(58, 12) == 1449225352009601191936;
    assert Pow(58, 13) == 84055070416556869132288;
    assert Pow(58, 14) == 4875194084160298409672704;
    assert Pow(58, 15) == 282761256881297307761016832;
  }

  lemma Pow256()
    ensures Pow(256, 0) == 0x1 && Pow(256, 1) == 0x100
    ensures Pow(256, 2) == 0x1_0000 && Pow(256, 3) == 0x100_0000
    ensures Pow(256, 4) == 0x1_0000_0000 && Pow(256, 5) == 0x100_0000_0000
    ensures Pow(256, 6) == 0x1_0000_0000_0000 && Pow(256, 7) == 0x100_0000_0000_0000
    ensures Pow(256, 8) == 0x1_0000_0000_0000_0000 && Pow(256, 9) == 0x100_0000_0000_0000_0000
    ensures Pow(256, 10) == 0x1_0000_0000_0000_0000_0000 && Pow(256, 11) == 0x100_0000_0000_0000_0000_0000
  {
    assert Pow(256, 1) == 0x100;
    assert Pow(256, 2) == 0x1_0000;
    assert Pow(256, 3) == 0x100_0000;
    assert Pow(256, 4) == 0x1_0000_0000;
    assert Pow(256, 5) == 0x100_0000_0000;
    assert Pow(256, 6) == 0x1_0000_0000_0000;
    assert Pow(256, 7) == 0x100_0000_0000_0000;
    assert Pow(256, 8) == 0x1_0000_0000_0000_0000;
    assert Pow(256, 9) == 0x100_0000_0000_0000_0000;
    assert Pow(256, 10) == 0x1_0000_0000_0000_0000_0000;
    assert Pow(256, 11) == 0x100_0000_0000_0000_0000_0000;
  }

  lemma Pow58Of71()
    ensures Pow(58, 71) <= Pow(256, 52)
  {
    Pow58();
    SquarePow(58, 8, 128063081718016);
    SquarePow(58, 16, 16400152899115243850138976256);
    SquarePow(58, 32, 268965015114358137726910587140455987105619365599731777536);
    PowSum(58, 64, 7);
    Pow256();
    SquarePow(256, 8, 0x1_0000_0000_0000_0000);
    SquarePow(256, 16, 0x1_0000_0000_0000_0000_0000_0000_0000_0000);
    PowSum(256, 32, 16);
    PowSum(256, 48, 4);
  }

  lemma {:induction false} PowMonotone(b: nat, e: nat, f: nat)
    requires b > 0 && e <= f
    ensures Pow(b, e) <= Pow(b, f)
  {
    if e < f {
      PowMonotone(b, e, f - 1);
      MulMonotone(Pow(b, f - 1), 1, b);
    }
  }

  lemma ProductBound(a: nat, b: nat, c: nat, d: nat)
    requires a <= c && b <= d
    ensures a * b <= c * d
  {
    MulMonotone(a, b, d);
    MulMonotone(d, a, c);
  }

  /** Enough base 58 digits for `n` bytes. */
  function EncodedDigits(n: nat): nat {
    if n >= 8 then 11 + EncodedDigits(n - 8) else [0, 2, 3, 5, 6, 7, 9, 10][n]
  }

  lemma {:induction false} EncodedDigitsSuffice(n: nat)
    ensures Pow(256, n) <= Pow(58, EncodedDigits(n))
    ensures EncodedDigits(n) <= n * 138 / 100 + 1
  {
    Pow58();
    Pow256();
    if n >= 8 {
      EncodedDigitsSuffice(n - 8);
      PowSum(256, 8, n - 8);
      PowSum(58, 11, EncodedDigits(n - 8));
      ProductBound(Pow(256, 8), Pow(256, n - 8), Pow(58, 11), Pow(58, EncodedDigits(n - 8)));
    }
  }

  /** Enough bytes for `n` base 58 digits. */
  function DecodedBytes(n: nat): nat {
    if n >= 71 then 52 + DecodedBytes(n - 71) else FewBytes(n)
  }

  function FewBytes(n: nat): nat {
    if n >= 15 then 11 + FewBytes(n - 15) else [0, 1, 2, 3, 3, 4, 5, 6, 6, 7, 8, 9, 9, 10, 11][n]
  }

  lemma Block(a: nat, b: nat, m: nat, k: nat)
    requires Pow(58, a) <= Pow(256, b) && Pow(58, m) <= Pow(256, k)
    ensures Pow(58, a + m) <= Pow(256, b + k)
  {
    PowSum(58, a, m);
    PowSum(256, b, k);
    ProductBound(Pow(58, a), Pow(58, m), Pow(256, b), Pow(256, k));
  }

  lemma BlockOf15(m: nat, k: nat)
    requires Pow(58, m) <= Pow(256, k)
    ensures Pow(58, 15 + m) <= Pow(256, 11 + k)
  {
    Pow58();
    Pow256();
    Block(15, 11, m, k);
  }

  lemma BlockOf71(m: nat, k: nat)
    requires Pow(58, m) <= Pow(256, k)
    ensures Pow(58, 71 + m) <= Pow(256, 52 + k)
  {
    Pow58Of71();
    Block(71, 52, m, k);
  }

  lemma FewestBytesSuffice(n: nat)
    requires n < 15
    ensures Pow(58, n) <= Pow(256, FewBytes(n)) && 3000 * (FewBytes(n) - 1) <= 2200 * n - 200
  {
    Pow58();
    Pow256();
  }

  lemma {:induction false} FewBytesSuffice(n: nat)
    ensures Pow(58, n) <= Pow(256, FewBytes(n)) && 3000 * (FewBytes(n) - 1) <= 2200 * n - 200
  {
    if n >= 15 {
      FewBytesSuffice(n - 15);
      BlockOf15(n - 15, FewBytes(n - 15));
    } else {
      FewestBytesSuffice(n);
    }
  }

  lemma {:induction false} DecodedBytesSuffice(n: nat)
    ensures Pow(58, n) <= Pow(256, DecodedBytes(n)) && 1000 * (DecodedBytes(n) - 1) <= 733 * n
  {
    if n >= 71 {
      DecodedBytesSuffice(n - 71);
      BlockOf71(n - 71, DecodedBytes(n - 71));
    } else {
      FewBytesSuffice(n);
    }
  }

  /** The buffer for encoding `n` bytes holds any number they can stand for. */
  lemma EncodeBufferSuffices(n: nat)
    ensures Pow(256, n) <= Pow(58, n * 138 / 100 + 1)
  {
    EncodedDigitsSuffice(n);
    PowMonotone(58, EncodedDigits(n), n * 138 / 100 + 1);
  }

  /** The buffer for decoding `n` characters holds any number they can stand for. */
  lemma DecodeBufferSuffices(n: nat)
    ensures Pow(58, n) <= Pow(256, n * 733 / 1000 + 1)
  {
    DecodedBytesSuffice(n);
    PowMonotone(256, DecodedBytes(n), n * 733 / 1000 + 1);
  }

  /* ---- Text ---- */

  /** The character of a digit: all alphanumeric characters in ASCII order, except "0", "I", "O" and "l". */
  function CharOf(d: nat): (c: char)
    requires d < 58
    ensures DigitOf(c) == Some(d)
  {
    if d < 9 then (49 + d) as char else if d < 17 then (65 + d - 9) as char else if d < 22 then (74 + d - 17) as char
    else if d < 33 then (80 + d - 22) as char else if d < 44 then (97 + d - 33) as char else (109 + d - 44) as char
  }

  /** The position of a character in the alphabet, if it is there. */
  function DigitOf(c: char): (r: Option<nat>)
    ensures r.Some? ==> r.value < 58
  {
    var n := c as int;
    if 49 <= n <= 57 then Some(n - 49) else if 65 <= n <= 72 then Some(n - 65 + 9) else if 74 <= n <= 78 then Some(n - 74 + 17)
    else if 80 <= n <= 90 then Some(n - 80 + 22) else if 97 <= n <= 107 then Some(n - 97 + 33)
    else if 109 <= n <= 122 then Some(n - 109 + 44) else None
  }

  lemma CharOfDigit(c: char)
    requires DigitOf(c).Some?
    ensures CharOf(DigitOf(c).value) == c
  {
  }

  predicate IsSpace(c: char) {
    c == ' ' || 9 <= c as int <= 13
  }

  lemma DigitsAreNoSpaces(c: char)
    requires DigitOf(c).Some?
    ensures !IsSpace(c)
  {
  }

  predicate Alphabetic(s: string) {
    forall i | 0 <= i < |s| :: DigitOf(s[i]).Some?
  }

  predicate Spaces(s: string) {
    forall i | 0 <= i < |s| :: IsSpace(s[i])
  }

  function Text(digits: seq<nat>): (r: string)
    requires Digits(digits, 58)
    ensures |r| == |digits| && Alphabetic(r)
  {
    if digits == [] then [] else Text(digits[..|digits| - 1]) + [CharOf(digits[|digits| - 1])]
  }

  function DigitsOf(s: string): (r: seq<nat>)
    requires Alphabetic(s)
    ensures |r| == |s| && Digits(r, 58)
  {
    if s == [] then [] else DigitsOf(s[..|s| - 1]) + [DigitOf(s[|s| - 1]).value]
  }

  lemma {:induction false} DigitsOfText(digits: seq<nat>)
    requires Digits(digits, 58)
    ensures DigitsOf(Text(digits)) == digits
  {
    if digits != [] {
      DigitsOfText(digits[..|digits| - 1]);
      assert Text(digits)[..|digits| - 1] == Text(digits[..|digits| - 1]);
    }
  }

  lemma {:induction false} TextOfDigits(s: string)
    requires Alphabetic(s)
    ensures Text(DigitsOf(s)) == s
  {
    if s != [] {
      TextOfDigits(s[..|s| - 1]);
      CharOfDigit(s[|s| - 1]);
      assert DigitsOf(s)[..|s| - 1] == DigitsOf(s[..|s| - 1]);
    }
  }

  /* ---- Encoding and decoding ---- */

  /** Leading zeroes are kept one for one; the rest is rewritten in the other base. */
  function Convert(s: seq<nat>, base: nat, other: nat): (r: seq<nat>)
    requires Digits(s, base) && base > 1 && other > 1
    ensures Digits(r, other)
  {
    Zeros(|s| - |Strip(s)|) + ToBase(Num(Strip(s), base), other)
  }

  lemma {:induction false} StripZeros(n: nat, s: seq<nat>)
    requires s != [] ==> s[0] != 0
    ensures Strip(Zeros(n) + s) == s
    decreases n
  {
    if n == 0 {
      assert Zeros(0) + s == s;
    } else {
      assert (Zeros(n) + s)[1..] == Zeros(n - 1) + s;
      StripZeros(n - 1, s);
    }
  }

  lemma ZerosAndStrip(s: seq<nat>)
    ensures s == Zeros(|s| - |Strip(s)|) + Strip(s)
  {
    var k := |s| - |Strip(s)|;
    StripSkipsZeroes(s);
    assert s[..k] == Zeros(k);
    assert s == s[..k] + s[k..];
  }

  /** Converting to the other base and back gives the same digits. */
  lemma ConvertBack(s: seq<nat>, base: nat, other: nat)
    requires Digits(s, base) && base > 1 && other > 1
    ensures Convert(Convert(s, base, other), other, base) == s
  {
    var v := Num(Strip(s), base);
    var t := Convert(s, base, other);
    StripDigits(s, base);
    StripZeros(|s| - |Strip(s)|, ToBase(v, other));
    ToBaseNum(v, other);
    assert |t| - |Strip(t)| == |s| - |Strip(s)|;
    ToBaseUnique(Strip(s), base);
    ZerosAndStrip(s);
  }

  predicate Bytes(b: seq<nat>) {
    Digits(b, 256)
  }

  function Encode(b: seq<nat>): string
    requires Bytes(b)
  {
    Text(Convert(b, 256, 58))
  }

  /** Skip the leading spaces. */
  function SkipSpaces(s: string): (r: string)
    ensures |r| <= |s|
  {
    if s != [] && IsSpace(s[0]) then SkipSpaces(s[1..]) else s
  }

  /** The characters before the first space. */
  function Word(s: string): (r: string)
    ensures |r| <= |s|
  {
    if s != [] && !IsSpace(s[0]) then [s[0]] + Word(s[1..]) else []
  }

  lemma {:induction false} SkippedSpaces(s: string)
    ensures SkipSpaces(s) == s[|s| - |SkipSpaces(s)|..]
    ensures forall i | 0 <= i < |s| - |SkipSpaces(s)| :: IsSpace(s[i])
  {
    if s != [] && IsSpace(s[0]) {
      SkippedSpaces(s[1..]);
      assert forall i | 0 < i < |s| :: s[i] == s[1..][i - 1];
    }
  }

  lemma {:induction false} WordIsPrefix(s: string)
    ensures Word(s) == s[..|Word(s)|]
  {
    if s != [] && !IsSpace(s[0]) {
      WordIsPrefix(s[1..]);
    }
  }

  /** Between spaces, there is one word of alphabet characters. */
  predicate Decodable(s: string) {
    var body := SkipSpaces(s);
    Alphabetic(Word(body)) && Spaces(body[|Word(body)|..])
  }

  function Decode(s: string): (r: Option<seq<nat>>)
    ensures r.Some? <==> Decodable(s)
    ensures r.Some? ==> Bytes(r.value)
  {
    if Decodable(s) then Some(Convert(DigitsOf(Word(SkipSpaces(s))), 58, 256)) else None
  }

  lemma {:induction false} SkipsSpaces(a: string, s: string)
    requires Spaces(a) && (s != [] ==> !IsSpace(s[0]))
    ensures SkipSpaces(a + s) == s
  {
    if a == [] {
      assert a + s == s;
    } else {
      assert (a + s)[1..] == a[1..] + s;
      SkipsSpaces(a[1..], s);
    }
  }

  lemma {:induction false} WordEnds(w: string, z: string)
    requires Alphabetic(w) && Spaces(z)
    ensures Word(w + z) == w
  {
    if w == [] {
      assert w + z == z;
    } else {
      DigitsAreNoSpaces(w[0]);
      assert (w + z)[1..] == w[1..] + z;
      WordEnds(w[1..], z);
    }
  }

  /** Spaces around a word of alphabet characters do not matter. */
  lemma DecodeSpaced(a: string, w: string, z: string)
    requires Spaces(a) && Alphabetic(w) && Spaces(z)
    ensures Decode(a + w + z) == Some(Convert(DigitsOf(w), 58, 256))
  {
    if w == [] {
      assert a + w + z == (a + z) + [];
      SkipsSpaces(a + z, []);
    } else {
      DigitsAreNoSpaces(w[0]);
      assert a + w + z == a + (w + z);
      SkipsSpaces(a, w + z);
      WordEnds(w, z);
      assert (w + z)[|w|..] == z;
    }
  }

  /** Nothing else decodes. */
  lemma DecodeOnlySpaced(s: string) returns (a: string, w: string, z: string)
    requires Decodable(s)
    ensures s == a + w + z && Spaces(a) && Alphabetic(w) && Spaces(z)
  {
    var body := SkipSpaces(s);
    var k := |s| - |body|;
    var word := Word(body);
    SkippedSpaces(s);
    WordIsPrefix(body);
    a, w, z := s[..k], s[k..k + |word|], s[k + |word|..];
    assert w == word;
    assert z == body[|word|..];
    Rejoin(s, k, k + |word|);
  }

  lemma Rejoin(s: string, k: nat, m: nat)
    requires k <= m <= |s|
    ensures s == s[..k] + s[k..m] + s[m..]
  {
  }

  lemma DecodeWord(w: string)
    requires Alphabetic(w)
    ensures Decode(w) == Some(Convert(DigitsOf(w), 58, 256))
  {
    assert "" + w + "" == w;
    DecodeSpaced("", w, "");
  }

  /** Decoding inverts encoding, for every byte string. */
  lemma DecodeEncoded(b: seq<nat>)
    requires Bytes(b)
    ensures Decode(Encode(b)) == Some(b)
  {
    var digits := Convert(b, 256, 58);
    DecodeWord(Text(digits));
    DigitsOfText(digits);
    ConvertBack(b, 256, 58);
  }

  /** Encoding inverts decoding, up to spaces around the text. */
  lemma EncodeDecoded(a: string, w: string, z: string)
    requires Spaces(a) && Alphabetic(w) && Spaces(z)
    ensures Decode(a + w + z).Some? && Encode(Decode(a + w + z).value) == w
  {
    DecodeSpaced(a, w, z);
    ConvertBack(DigitsOf(w), 58, 256);
    TextOfDigits(w);
  }

  /* ---- The source's loops ---- */

  lemma MulAddStep(x: int, m: int, carryIn: int, low: int, carry: int, p: int, nb: int, nx: int, base: int, c: int)
    requires carryIn + m * x == carry * base + low && nb + carryIn * p == nx * m + c
    ensures (low * p + nb) + carry * (base * p) == (x * p + nx) * m + c
  {
    MulAssoc(carry, base, p);
    MulDistributes(p, carry * base, low);
    MulDistributes(p, carryIn, m * x);
    MulDistributes(m, x * p, nx);
    MulAssoc(m, x, p);
  }

  /** One pass over the buffer, from its end: multiply by `m` and add `c`; what does not fit is returned. */
  method MulAdd(buf: array<nat>, base: nat, m: nat, c: nat) returns (carry: nat)
    requires base > 1 && Digits(buf[..], base)
    modifies buf
    ensures Digits(buf[..], base)
    ensures Num(buf[..], base) + carry * Pow(base, buf.Length) == Num(old(buf[..]), base) * m + c
  {
    ghost var x := buf[..];
    carry := c;
    var j := buf.Length;
    while j > 0
      invariant 0 <= j <= buf.Length && buf[..j] == x[..j] && Digits(buf[..], base)
      invariant Num(buf[j..], base) + carry * Pow(base, buf.Length - j) == Num(x[j..], base) * m + c
    {
      j := j - 1;
      assert buf[j] == x[j];
      carry := MulAddDigit(buf, j, base, m, c, carry, x);
    }
    assert buf[0..] == buf[..] && x[0..] == x;
  }

  /** The pass at one digit. */
  method MulAddDigit(buf: array<nat>, j: nat, base: nat, m: nat, ghost c: nat, carryIn: nat, ghost x: seq<nat>) returns (carry: nat)
    requires base > 1 && j < buf.Length == |x| && Digits(buf[..], base) && buf[j] == x[j]
    requires Num(buf[j + 1..], base) + carryIn * Pow(base, buf.Length - j - 1) == Num(x[j + 1..], base) * m + c
    modifies buf
    ensures Digits(buf[..], base) && buf[..j] == old(buf[..j])
    ensures Num(buf[j..], base) + carry * Pow(base, buf.Length - j) == Num(x[j..], base) * m + c
  {
    var sum := carryIn + m * buf[j];
    ghost var before := buf[j + 1..];
    buf[j] := sum % base;
    carry := sum / base;
    assert buf[j..] == [sum % base] + before && x[j..] == [x[j]] + x[j + 1..];
    NumCons(sum % base, before, base);
    NumCons(x[j], x[j + 1..], base);
    DivModIs(sum, base);
    MulAddStep(x[j], m, carryIn, sum % base, carry, Pow(base, |before|), Num(before, base), Num(x[j + 1..], base), base, c);
  }

  /** A pass over a buffer that is large enough: the source's assertion that nothing is carried out holds. */
  method Apply(buf: array<nat>, base: nat, m: nat, c: nat)
    requires base > 1 && Digits(buf[..], base) && Num(buf[..], base) * m + c < Pow(base, buf.Length)
    modifies buf
    ensures Digits(buf[..], base) && Num(buf[..], base) == Num(old(buf[..]), base) * m + c
  {
    ghost var v := Num(buf[..], base) * m + c;
    var carry := MulAdd(buf, base, m, c);
    NoCarry(carry, Pow(base, buf.Length), Num(buf[..], base), v);
    assert carry == 0;
  }

  /** Rewrite digits in the other base, in a buffer that is large enough. */
  method ChangeBase(s: seq<nat>, base: nat, other: nat, size: nat) returns (r: seq<nat>)
    requires base > 1 && other > 1 && Digits(s, base) && Pow(base, |s|) <= Pow(other, size)
    ensures Digits(r, other) && r == ToBase(Num(s, base), other)
  {
    var buf := new nat[size](i => 0);
    ZeroBuffer(buf[..], other);
    for i := 0 to |s|
      invariant Digits(buf[..], other) && Num(buf[..], other) == Num(s[..i], base)
    {
      NumSnoc(s[..i], s[i], base);
      assert s[..i] + [s[i]] == s[..i + 1];
      PrefixFits(s, i + 1, base, other, size);
      Apply(buf, other, base, s[i]);
    }
    assert s[..|s|] == s;
    StripIsToBase(buf[..], other);
    var k := CountZeroes(buf[..]);
    r := buf[k..];
  }

  lemma {:induction false} ZeroBuffer(s: seq<nat>, base: nat)
    requires forall i | 0 <= i < |s| :: s[i] == 0
    ensures Num(s, base) == 0
  {
    if s != [] {
      ZeroBuffer(s[..|s| - 1], base);
    }
  }

  lemma PrefixFits(s: seq<nat>, i: nat, base: nat, other: nat, size: nat)
    requires base > 1 && i <= |s| && Digits(s, base) && Pow(base, |s|) <= Pow(other, size)
    ensures Num(s[..i], base) < Pow(other, size)
  {
    NumBound(s[..i], base);
    PowMonotone(base, i, |s|);
  }

  lemma NoCarry(carry: nat, p: nat, n: nat, v: nat)
    requires n + carry * p == v < p
    ensures carry == 0
  {
    if carry > 0 {
      MulMonotone(p, 1, carry);
    }
  }

  method CountZeroes(s: seq<nat>) returns (k: nat)
    ensures k == |s| - |Strip(s)| && s[k..] == Strip(s)
  {
    k := 0;
    while k < |s| && s[k] == 0
      invariant k <= |s| && Strip(s[k..]) == Strip(s)
    {
      assert s[k..][1..] == s[k + 1..];
      k := k + 1;
    }
  }

  method EncodeBase58(b: seq<nat>) returns (str: string)
    requires Bytes(b)
    ensures str == Encode(b)
  {
    var zeroes := CountZeroes(b);
    var rest := b[zeroes..];
    EncodeBufferSuffices(|rest|);
    var digits := ChangeBase(rest, 256, 58, |rest| * 138 / 100 + 1);
    ConvertParts(b, 256, 58, zeroes, digits);
    str := WriteText(Zeros(zeroes) + digits);
  }

  lemma ConvertParts(s: seq<nat>, base: nat, other: nat, k: nat, r: seq<nat>)
    requires Digits(s, base) && base > 1 && other > 1 && k == |s| - |Strip(s)| && r == ToBase(Num(Strip(s), base), other)
    ensures Convert(s, base, other) == Zeros(k) + r && Digits(Zeros(k) + r, other)
  {
  }

  method WriteText(digits: seq<nat>) returns (str: string)
    requires Digits(digits, 58)
    ensures str == Text(digits)
  {
    str := "";
    for i := 0 to |digits|
      invariant str == Text(digits[..i])
    {
      assert digits[..i + 1][..i] == digits[..i];
      str := str + [CharOf(digits[i])];
    }
    assert digits[..|digits|] == digits;
  }

  method DecodeBase58(psz: string) returns (vch: Option<seq<nat>>)
    ensures vch == Decode(psz)
  {
    var start := 0;
    while start < |psz| && IsSpace(psz[start])
      invariant start <= |psz| && SkipSpaces(psz[start..]) == SkipSpaces(psz)
    {
      assert psz[start..][1..] == psz[start + 1..];
      start := start + 1;
    }
    vch := DecodeBody(psz[start..]);
  }

  /** What is left of a string after a position is what is left of its word there. */
  ghost predicate Reading(body: string, i: nat) {
    i <= |body| && Word(body) == body[..i] + Word(body[i..])
  }

  lemma ReadingNext(body: string, i: nat)
    requires Reading(body, i) && i < |body| && !IsSpace(body[i])
    ensures Reading(body, i + 1) && i < |Word(body)| && Word(body)[i] == body[i]
  {
    assert body[i..][1..] == body[i + 1..];
    assert body[..i] + ([body[i]] + Word(body[i + 1..])) == body[..i + 1] + Word(body[i + 1..]);
  }

  lemma ReadingDone(body: string, i: nat)
    requires Reading(body, i) && (i < |body| ==> IsSpace(body[i]))
    ensures Word(body) == body[..i]
  {
    assert Word(body[i..]) == [];
  }

  /** Leading ones are leading zero digits. */
  lemma {:induction false} OnesAreZeros(w: string, n: nat)
    requires n <= |w| && Alphabetic(w) && (forall i | 0 <= i < n :: w[i] == '1') && (n < |w| ==> w[n] != '1')
    ensures Strip(DigitsOf(w)) == DigitsOf(w[n..])
  {
    var d := DigitsOf(w);
    DigitsOfSplit(w, n);
    forall i | 0 <= i < n
      ensures DigitsOf(w[..n])[i] == 0
    {
      DigitAt(w[..n], i);
    }
    assert DigitsOf(w[..n]) == Zeros(n);
    if n < |w| {
      DigitAt(w[n..], 0);
    }
    StripZeros(n, DigitsOf(w[n..]));
  }

  lemma {:induction false} DigitAt(w: string, i: nat)
    requires Alphabetic(w) && i < |w|
    ensures DigitsOf(w)[i] == DigitOf(w[i]).value && (w[i] == '1' <==> DigitsOf(w)[i] == 0)
  {
    if i < |w| - 1 {
      DigitAt(w[..|w| - 1], i);
    }
  }

  lemma {:induction false} DigitsOfSplit(w: string, n: nat)
    requires Alphabetic(w) && n <= |w|
    ensures DigitsOf(w) == DigitsOf(w[..n]) + DigitsOf(w[n..])
  {
    if n == |w| {
      assert w[..n] == w && w[n..] == [];
    } else {
      var init := w[..|w| - 1];
      DigitsOfSplit(init, n);
      assert init[..n] == w[..n] && w[n..][..|w| - n - 1] == init[n..];
    }
  }

  method DecodeBody(body: string) returns (vch: Option<seq<nat>>)
    requires SkipSpaces(body) == body
    ensures vch == Decode(body)
  {
    var zeroes := CountOnes(body);
    var rest := body[zeroes..];
    var ok, end, bytes := DecodeRest(rest);
    if ok {
      ok := OnlySpaces(rest[end..]);
    }
    BodyDecodes(body, zeroes);
    vch := if ok then Some(Zeros(zeroes) + bytes) else None;
  }

  method CountOnes(body: string) returns (zeroes: nat)
    ensures Reading(body, zeroes) && (forall i | 0 <= i < zeroes :: body[i] == '1') && (zeroes < |body| ==> body[zeroes] != '1')
  {
    zeroes := 0;
    while zeroes < |body| && body[zeroes] == '1'
      invariant Reading(body, zeroes) && forall i | 0 <= i < zeroes :: body[i] == '1'
    {
      ReadingNext(body, zeroes);
      zeroes := zeroes + 1;
    }
  }

  method OnlySpaces(s: string) returns (blank: bool)
    ensures blank == Spaces(s)
  {
    var i := 0;
    while i < |s| && IsSpace(s[i])
      invariant i <= |s| && forall k | 0 <= k < i :: IsSpace(s[k])
    {
      i := i + 1;
    }
    blank := i == |s|;
  }

  /** Decoding what follows the leading ones. */
  lemma BodyDecodes(body: string, zeroes: nat)
    requires SkipSpaces(body) == body && Reading(body, zeroes)
    requires (forall i | 0 <= i < zeroes :: body[i] == '1') && (zeroes < |body| ==> body[zeroes] != '1')
    ensures var rest := body[zeroes..];
            var word := Word(rest);
            Decode(body) ==
              if Alphabetic(word) && Spaces(rest[|word|..]) then Some(Zeros(zeroes) + ToBase(Num(DigitsOf(word), 58), 256)) else None
  {
    var rest, ones := body[zeroes..], body[..zeroes];
    var word := Word(rest);
    assert body[|ones + word|..] == rest[|word|..];
    AlphabeticAppend(ones, word);
    if Alphabetic(word) {
      WordIsPrefix(rest);
      assert word != [] ==> word[0] == rest[0] == body[zeroes];
      assert (ones + word)[zeroes..] == word;
      OnesAreZeros(ones + word, zeroes);
      ConvertParts(DigitsOf(ones + word), 58, 256, zeroes, ToBase(Num(DigitsOf(word), 58), 256));
    }
  }

  lemma AlphabeticAppend(s: string, t: string)
    requires Alphabetic(s)
    ensures Alphabetic(s + t) <==> Alphabetic(t)
  {
    if Alphabetic(s + t) {
      forall i | 0 <= i < |t|
        ensures DigitOf(t[i]).Some?
      {
        assert (s + t)[|s| + i] == t[i];
      }
    }
  }

  method DecodeRest(rest: string) returns (ok: bool, end: nat, bytes: seq<nat>)
    ensures ok == Alphabetic(Word(rest))
    ensures ok ==> end == |Word(rest)| && bytes == ToBase(Num(DigitsOf(Word(rest)), 58), 256)
  {
    var size := |rest| * 733 / 1000 + 1;
    var b256 := new nat[size](i => 0);
    ZeroBuffer(b256[..], 256);
    end := 0;
    while end < |rest| && !IsSpace(rest[end])
      invariant Reading(rest, end) && Alphabetic(rest[..end])
      invariant Digits(b256[..], 256) && Num(b256[..], 256) == Num(DigitsOf(rest[..end]), 58)
    {
      ReadingNext(rest, end);
      var ch := DigitOf(rest[end]);
      if ch.None? {
        return false, 0, [];
      }
      WordGrows(rest, end, size);
      Apply(b256, 256, 58, ch.value);
      end := end + 1;
    }
    ReadingDone(rest, end);
    StripIsToBase(b256[..], 256);
    var k := CountZeroes(b256[..]);
    bytes := b256[k..];
    ok := true;
  }

  /** One more character of the word still fits the buffer. */
  lemma WordGrows(rest: string, i: nat, size: nat)
    requires i < |rest| && Alphabetic(rest[..i]) && DigitOf(rest[i]).Some? && size == |rest| * 733 / 1000 + 1
    ensures Alphabetic(rest[..i + 1])
    ensures Num(DigitsOf(rest[..i + 1]), 58) == Num(DigitsOf(rest[..i]), 58) * 58 + DigitOf(rest[i]).value < Pow(256, size)
  {
    var w' := rest[..i + 1];
    assert w' == rest[..i] + [rest[i]];
    assert w'[..|w'| - 1] == rest[..i];
    NumSnoc(DigitsOf(rest[..i]), DigitOf(rest[i]).value, 58);
    assert Num(DigitsOf(w'), 58) < Pow(256, size) by {
      NumBound(DigitsOf(w'), 58);
      PowMonotone(58, i + 1, |rest|);
      DecodeBufferSuffices(|rest|);
    }
  }
}
