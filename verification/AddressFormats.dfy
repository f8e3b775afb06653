/** Address texts that are fixed by their standards: character sets and published examples. */
module AddressFormats {
  import opened Bech32
  import opened Bech32Text
  import opened Radix
  import Base58

  /** Bech32 symbols are written with these characters, in this order. */
  lemma CharsetIs(i: nat, v: bv8)
    requires i < 32 && v as int == i
    ensures v < 32 && ToChar(v) as int == "qpzry9x8gf2tvdw0s3jn54khce6mua7l"[i] as int
  {
  }

  lemma Steps(c: bv32, s: Data, v: bv8, c': bv32, t: Data)
    requires From(1, s) == c && Step(c, v) == c' && t == s + [v]
    ensures From(1, t) == c'
  {
    assert t[..|s|] == s;
  }

  lemma StepOne()
    ensures Step(0x1, 3) == 0x23 && Step(0x23, 0) == 0x460 && Step(0x460, 1) == 0x8c01 && Step(0x8c01, 10) == 0x11802a && Step(0x11802a, 28) == 0x230055c
  {
    GenIsBits(0);
    assert Leading(0x1) == 0 && Leading(0x23) == 0 && Leading(0x460) == 0 && Leading(0x8c01) == 0 && Leading(0x11802a) == 0;
  }

  lemma StepTwo()
    ensures Step(0x230055c, 25) == 0x3d6afc2b && Step(0x2f84386, 20) == 0x24622766
  {
    GenIsBits(1);
    assert Leading(0x230055c) == 1 && Leading(0x2f84386) == 1;
  }

  lemma StepThree()
    ensures Step(0x3d6afc2b, 31) == 0x2f84386
  {
    GenIsBits(30);
    assert Leading(0x3d6afc2b) == 30;
  }

  lemma StepFour()
    ensures Step(0x24622766, 31) == 1
  {
    GenIsBits(18);
    assert Leading(0x24622766) == 18;
  }

  lemma ShortestChecksum()
    ensures PolyMod([3, 0, 1, 10, 28, 25, 31, 20, 31]) == 1
  {
    StepOne();
    StepTwo();
    StepThree();
    StepFour();
    Steps(1, [], 3, 0x23, [3]);
    Steps(0x23, [3], 0, 0x460, [3, 0]);
    Steps(0x460, [3, 0], 1, 0x8c01, [3, 0, 1]);
    Steps(0x8c01, [3, 0, 1], 10, 0x11802a, [3, 0, 1, 10]);
    Steps(0x11802a, [3, 0, 1, 10], 28, 0x230055c, [3, 0, 1, 10, 28]);
    Steps(0x230055c, [3, 0, 1, 10, 28], 25, 0x3d6afc2b, [3, 0, 1, 10, 28, 25]);
    Steps(0x3d6afc2b, [3, 0, 1, 10, 28, 25], 31, 0x2f84386, [3, 0, 1, 10, 28, 25, 31]);
    Steps(0x2f84386, [3, 0, 1, 10, 28, 25, 31], 20, 0x24622766, [3, 0, 1, 10, 28, 25, 31, 20]);
    Steps(0x24622766, [3, 0, 1, 10, 28, 25, 31, 20], 31, 1, [3, 0, 1, 10, 28, 25, 31, 20, 31]);
  }

  lemma {:induction false} SeparatorAt(t: Data, k: nat)
    requires k < |t| && t[k] == 49 && forall i | k < i < |t| :: t[i] != 49
    ensures LastSeparator(t) == k
  {
    if k < |t| - 1 {
      SeparatorAt(t[..|t| - 1], k);
    }
  }

  lemma ValuesNext(t: Data, c: bv8, x: bv8, v: Data, t': Data, v': Data)
    requires Values(t) == v && t' == t + [c] && FromChar(c) == x && v' == v + [x]
    ensures Values(t') == v'
  {
    assert t'[..|t|] == t;
  }

  lemma SixChars()
    ensures FromChar(50) == 10 && FromChar(85) == 28 && FromChar(69) == 25 && FromChar(76) == 31 && FromChar(53) == 20
  {
  }

  lemma ShortestSymbols()
    ensures Values([50, 85, 69, 76, 53, 76]) == [10, 28, 25, 31, 20, 31]
  {
    SixChars();
    FirstSymbols();
    ValuesNext([50, 85, 69], 76, 31, [10, 28, 25], [50, 85, 69, 76], [10, 28, 25, 31]);
    ValuesNext([50, 85, 69, 76], 53, 20, [10, 28, 25, 31], [50, 85, 69, 76, 53], [10, 28, 25, 31, 20]);
    ValuesNext([50, 85, 69, 76, 53], 76, 31, [10, 28, 25, 31, 20], [50, 85, 69, 76, 53, 76], [10, 28, 25, 31, 20, 31]);
  }

  lemma FirstSymbols()
    ensures Values([50, 85, 69]) == [10, 28, 25]
  {
    SixChars();
    ValuesNext([], 50, 10, [], [50], [10]);
    ValuesNext([50], 85, 28, [10], [50, 85], [10, 28]);
    ValuesNext([50, 85], 69, 25, [10, 28], [50, 85, 69], [10, 28, 25]);
  }

  /** The shortest published example: "A12UEL5L" has the prefix "a" and no data. */
  lemma ShortestExample(t: Data)
    requires t == [65, 49, 50, 85, 69, 76, 53, 76]
    ensures Decode(t) == ([97], [])
  {
    SeparatorAt(t, 1);
    ShortestSymbols();
    ShortestChecksum();
    var values: Data := [10, 28, 25, 31, 20, 31];
    assert t[2..] == [50, 85, 69, 76, 53, 76] && t[..1] == [65];
    var one: Data := [65];
    assert one[..0] == [] && Lowers(one) == [97];
    var a: Data := [97];
    assert a[..0] == [] && ExpandHRP(a) == [3, 0, 1];
    assert ExpandHRP(a) + values == [3, 0, 1, 10, 28, 25, 31, 20, 31];
    assert values[..0] == [];
  }

  /** Base 58 digits are all digits and letters in ASCII order, except "0", "I", "O" and "l". */
  lemma AlphabetIs(i: nat)
    requires i < 58
    ensures var c := Base58.CharOf(i);
            && ('1' <= c <= '9' || ('A' <= c <= 'Z' && c != 'I' && c != 'O') || ('a' <= c <= 'z' && c != 'l'))
            && (i == 0 ==> c == '1') && (i == 57 ==> c == 'z')
            && (i < 57 ==> c < Base58.CharOf(i + 1))
  {
  }

  /** A text stands for the same number as its bytes, and has a leading one for each leading zero byte. */
  lemma Base58Means(b: seq<nat>)
    requires Base58.Bytes(b)
    ensures var digits := Base58.DigitsOf(Base58.Encode(b));
            Num(digits, 58) == Num(b, 256) && |digits| - |Strip(digits)| == |b| - |Strip(b)|
  {
    var digits := Base58.Convert(b, 256, 58);
    Base58.DigitsOfText(digits);
    var rest := ToBase(Num(Strip(b), 256), 58);
    Base58.StripZeros(|b| - |Strip(b)|, rest);
    NumStrip(digits, 58);
    NumStrip(b, 256);
    ToBaseNum(Num(Strip(b), 256), 58);
  }
}
