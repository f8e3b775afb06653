/** Bech32 strings as text: the character set, and what encoding and decoding do to each other. */
module Bech32Text {
  import opened Bech32

  /** The characters for the 32 symbols. */
  const CHARSET: Data := [
    113, 112, 122, 114, 121, 57, 120, 56, 103, 102, 50, 116, 118, 100, 119, 48,
    115, 51, 106, 110, 53, 52, 107, 104, 99, 101, 54, 109, 117, 97, 55, 108]

  const NONE: bv8 := 0xff

  const SEPARATOR: bv8 := 49

  predicate IsPrintable(c: bv8) { 33 <= c <= 126 }
  predicate IsLower(c: bv8) { 97 <= c <= 122 }
  predicate IsUpper(c: bv8) { 65 <= c <= 90 }

  function LowerCase(c: bv8): bv8 {
    if IsUpper(c) then c - 65 + 97 else c
  }

  lemma SymbolIndex(v: bv8)
    requires v < 32
    ensures v as int < 32
  {
  }

  function ToChar(v: bv8): bv8
    requires v < 32
  {
    SymbolIndex(v);
    CHARSET[v as int]
  }

  /** The symbol of a character, upper or lower case; 0xff stands for the source's -1. */
  function FromChar(c: bv8): bv8 {
    if c == 48 then 15 else if c == 50 then 10 else if c == 51 then 17 else if c == 52 then 21
    else if c == 53 then 20 else if c == 54 then 26 else if c == 55 then 30 else if c == 56 then 7
    else if c == 57 then 5 else if c == 97 || c == 65 then 29 else if c == 99 || c == 67 then 24 else if c == 100 || c == 68 then 13
    else if c == 101 || c == 69 then 25 else if c == 102 || c == 70 then 9 else if c == 103 || c == 71 then 8 else if c == 104 || c == 72 then 23
    else if c == 106 || c == 74 then 18 else if c == 107 || c == 75 then 22 else if c == 108 || c == 76 then 31 else if c == 109 || c == 77 then 27
    else if c == 110 || c == 78 then 19 else if c == 112 || c == 80 then 1 else if c == 113 || c == 81 then 0 else if c == 114 || c == 82 then 3
    else if c == 115 || c == 83 then 16 else if c == 116 || c == 84 then 11 else if c == 117 || c == 85 then 28 else if c == 118 || c == 86 then 12
    else if c == 119 || c == 87 then 14 else if c == 120 || c == 88 then 6 else if c == 121 || c == 89 then 4 else if c == 122 || c == 90 then 2
    else NONE
  }

  lemma ToCharIsPlain(v: bv8)
    requires v < 32
    ensures IsPrintable(ToChar(v)) && !IsUpper(ToChar(v)) && ToChar(v) != SEPARATOR
  {
  }

  lemma FromToChar(v: bv8)
    requires v < 32
    ensures FromChar(ToChar(v)) == v
  {
  }

  lemma ToFromChar(c: bv8)
    ensures FromChar(c) == NONE || (FromChar(c) < 32 && ToChar(FromChar(c)) == LowerCase(c))
  {
  }

  /* ---- Strings ---- */

  function Chars(v: Data): (r: Data)
    requires Symbols(v)
    ensures |r| == |v|
  {
    if v == [] then [] else Chars(v[..|v| - 1]) + [ToChar(v[|v| - 1])]
  }

  function Values(t: Data): (r: Data)
    ensures |r| == |t|
  {
    if t == [] then [] else Values(t[..|t| - 1]) + [FromChar(t[|t| - 1])]
  }

  function Lowers(t: Data): (r: Data)
    ensures |r| == |t|
  {
    if t == [] then [] else Lowers(t[..|t| - 1]) + [LowerCase(t[|t| - 1])]
  }

  predicate AllPrintable(t: Data) { forall i | 0 <= i < |t| :: IsPrintable(t[i]) }
  predicate NoUpper(t: Data) { forall i | 0 <= i < |t| :: !IsUpper(t[i]) }
  predicate NoLower(t: Data) { forall i | 0 <= i < |t| :: !IsLower(t[i]) }
  predicate NoSeparator(t: Data) { forall i | 0 <= i < |t| :: t[i] != SEPARATOR }

  /** Every character stands for a symbol. */
  predicate Known(t: Data) { NoNone(Values(t)) }
  predicate NoNone(v: Data) { forall i | 0 <= i < |v| :: v[i] != NONE }

  /** The last separator, or -1. */
  function LastSeparator(t: Data): (r: int)
    ensures -1 <= r < |t| && (r >= 0 ==> t[r] == SEPARATOR)
  {
    if t == [] then -1
    else if t[|t| - 1] == SEPARATOR then |t| - 1
    else LastSeparator(t[..|t| - 1])
  }

  function Encode(hrp: Data, values: Data): Data {
    if !Symbols(values) then []
    else
      CreatedVerifies(hrp, values);
      SymbolsAppend(values, CreateChecksum(hrp, values));
      hrp + [SEPARATOR] + Chars(values + CreateChecksum(hrp, values))
  }

  /** The human-readable part and the data; both empty on failure. */
  function Decode(t: Data): (Data, Data) {
    if !AllPrintable(t) || (!NoLower(t) && !NoUpper(t)) then ([], [])
    else DecodeAt(t, LastSeparator(t))
  }

  function DecodeAt(t: Data, pos: int): (Data, Data)
    requires pos < |t|
  {
    if |t| > 1023 || pos <= 0 || pos + 7 > |t| || !Known(t[pos + 1..]) then ([], [])
    else
      var values, hrp := Values(t[pos + 1..]), Lowers(t[..pos]);
      if !VerifyChecksum(hrp, values) then ([], []) else (hrp, values[..|values| - 6])
  }

  lemma {:induction false} CharsArePlain(v: Data)
    requires Symbols(v)
    ensures AllPrintable(Chars(v)) && NoUpper(Chars(v)) && NoSeparator(Chars(v))
  {
    if v != [] {
      CharsArePlain(v[..|v| - 1]);
      ToCharIsPlain(v[|v| - 1]);
    }
  }

  lemma {:induction false} ValuesOfChars(v: Data)
    requires Symbols(v)
    ensures Values(Chars(v)) == v
  {
    if v != [] {
      var init, last := v[..|v| - 1], v[|v| - 1];
      ValuesOfChars(init);
      ValuesNext(Chars(init), last);
    }
  }

  lemma ValuesNext(t: Data, v: bv8)
    requires v < 32
    ensures Values(t + [ToChar(v)]) == Values(t) + [v]
  {
    FromToChar(v);
    assert (t + [ToChar(v)])[..|t|] == t;
  }

  lemma {:induction false} ValuesAt(t: Data, i: nat)
    requires i < |t|
    ensures Values(t)[i] == FromChar(t[i])
  {
    if i < |t| - 1 {
      ValuesAt(t[..|t| - 1], i);
    }
  }

  lemma SymbolsAreKnown(v: Data)
    requires Symbols(v)
    ensures NoNone(v)
  {
  }

  lemma CharsNext(v: Data, i: nat)
    requires i < |v| && Symbols(v[..i]) && v[i] < 32
    ensures Symbols(v[..i + 1]) && Chars(v[..i + 1]) == Chars(v[..i]) + [ToChar(v[i])]
  {
    assert v[..i + 1] == v[..i] + [v[i]];
    assert v[..i + 1][..i] == v[..i];
  }

  lemma {:induction false} CharsOfValues(t: Data)
    requires Known(t)
    ensures Symbols(Values(t)) && Chars(Values(t)) == Lowers(t)
  {
    if t != [] {
      var init, last := t[..|t| - 1], t[|t| - 1];
      assert Values(t)[..|t| - 1] == Values(init) && Values(t)[|t| - 1] == FromChar(last);
      CharsOfValues(init);
      ToFromChar(last);
    }
  }

  lemma LowerCaseIs(c: bv8)
    ensures !IsUpper(LowerCase(c)) && (!IsUpper(c) ==> LowerCase(c) == c)
  {
  }

  lemma {:induction false} LowersIs(t: Data)
    ensures NoUpper(Lowers(t)) && (NoUpper(t) ==> Lowers(t) == t)
  {
    if t != [] {
      LowersIs(t[..|t| - 1]);
      LowerCaseIs(t[|t| - 1]);
    }
  }

  lemma {:induction false} LowersConcat(s: Data, t: Data)
    ensures Lowers(s + t) == Lowers(s) + Lowers(t)
  {
    if t == [] {
      assert s + t == s;
    } else {
      assert (s + t)[..|s + t| - 1] == s + t[..|t| - 1];
      LowersConcat(s, t[..|t| - 1]);
    }
  }

  lemma {:induction false} SeparatorFound(hrp: Data, tail: Data)
    requires NoSeparator(tail)
    ensures LastSeparator(hrp + [SEPARATOR] + tail) == |hrp|
  {
    var t := hrp + [SEPARATOR] + tail;
    if tail != [] {
      assert t[..|t| - 1] == hrp + [SEPARATOR] + tail[..|tail| - 1];
      SeparatorFound(hrp, tail[..|tail| - 1]);
    }
  }

  /** What can be encoded so that it decodes again. */
  predicate Encodable(hrp: Data, values: Data) {
    hrp != [] && AllPrintable(hrp) && NoUpper(hrp) && Symbols(values) && |hrp| + 1 + |values| + 6 <= 1023
  }

  /** Decoding splits an encoded string where it was joined. */
  lemma DecodeOfParts(hrp: Data, combined: Data, t: Data)
    requires Symbols(combined) && t == hrp + [SEPARATOR] + Chars(combined)
    ensures AllPrintable(t) <==> AllPrintable(hrp)
    ensures NoUpper(t) <==> NoUpper(hrp)
    ensures LastSeparator(t) == |hrp| && t[..|hrp|] == hrp && t[|hrp| + 1..] == Chars(combined)
    ensures Known(t[|hrp| + 1..]) && Values(t[|hrp| + 1..]) == combined
  {
    CharsArePlain(combined);
    ValuesOfChars(combined);
    SymbolsAreKnown(combined);
    SeparatorFound(hrp, Chars(combined));
    assert t[|hrp| + 1..] == Chars(combined);
    assert t[..|hrp|] == hrp;
    assert forall i | 0 <= i < |hrp| :: t[i] == hrp[i];
    assert forall i | 0 <= i < |combined| :: t[|hrp| + 1 + i] == Chars(combined)[i];
  }

  lemma RoundTripGood(hrp: Data, values: Data)
    requires Encodable(hrp, values)
    ensures Decode(Encode(hrp, values)) == (hrp, values)
  {
    var checksum := CreateChecksum(hrp, values);
    var combined := values + checksum;
    CreatedVerifies(hrp, values);
    SymbolsAppend(values, checksum);
    var t := Encode(hrp, values);
    DecodeOfParts(hrp, combined, t);
    LowersIs(hrp);
    assert combined[..|combined| - 6] == values;
  }

  lemma RoundTripBad(hrp: Data, values: Data)
    requires !Encodable(hrp, values) && !(hrp == [] && values == [])
    ensures Decode(Encode(hrp, values)) != (hrp, values)
  {
    if Symbols(values) {
      var combined := values + CreateChecksum(hrp, values);
      CreatedVerifies(hrp, values);
      SymbolsAppend(values, CreateChecksum(hrp, values));
      var t := Encode(hrp, values);
      DecodeOfParts(hrp, combined, t);
      LowersIs(hrp);
      assert Decode(t).0 == [] || Decode(t).0 == Lowers(hrp);
    }
  }

  /**
   * An encoded string decodes to what was encoded if and only if the human-readable part is nonempty,
   * printable and without capitals, the data are 5-bit symbols, and the string has at most 1023 characters.
   * (With both parts empty the result is right by accident: failure is reported as two empty parts.)
   */
  lemma DecodeEncodedIff(hrp: Data, values: Data)
    ensures Decode(Encode(hrp, values)) == (hrp, values) <==> Encodable(hrp, values) || (hrp == [] && values == [])
  {
    if Encodable(hrp, values) {
      RoundTripGood(hrp, values);
    } else if hrp == [] && values == [] {
      CreatedVerifies(hrp, values);
      SymbolsAppend(values, CreateChecksum(hrp, values));
      DecodeOfParts(hrp, values + CreateChecksum(hrp, values), Encode(hrp, values));
    } else {
      RoundTripBad(hrp, values);
    }
  }

  /** Encoding what was decoded gives the same string in lower case: a string has no second spelling. */
  lemma EncodeDecoded(t: Data)
    requires Decode(t) != ([], [])
    ensures Encode(Decode(t).0, Decode(t).1) == Lowers(t)
  {
    var pos := LastSeparator(t);
    SplitAt(t, pos);
    EncodeParts(t[..pos], t[pos + 1..]);
  }

  lemma SplitAt(t: Data, pos: nat)
    requires pos < |t| && t[pos] == SEPARATOR
    ensures t == t[..pos] + [SEPARATOR] + t[pos + 1..]
  {
  }

  lemma EncodeParts(head: Data, tail: Data)
    requires Known(tail) && |tail| >= 6 && VerifyChecksum(Lowers(head), Values(tail))
    ensures Encode(Lowers(head), Values(tail)[..|tail| - 6]) == Lowers(head + [SEPARATOR] + tail)
  {
    var hrp, values := Lowers(head), Values(tail);
    var data, checksum := values[..|tail| - 6], values[|tail| - 6..];
    CharsOfValues(tail);
    assert data + checksum == values;
    assert Symbols(data) && Symbols(checksum);
    ChecksumIsUnique(hrp, data, checksum);
    LowersConcat(head + [SEPARATOR], tail);
    LowersConcat(head, [SEPARATOR]);
    SeparatorLower();
  }

  lemma SeparatorLower()
    ensures Lowers([SEPARATOR]) == [SEPARATOR]
  {
    assert [SEPARATOR][..0] == [];
  }

  /* ---- The source's loops ---- */

  method ComputePolyMod(v: Data) returns (c: bv32)
    ensures c == PolyMod(v)
  {
    c := 1;
    for i := 0 to |v|
      invariant c == From(1, v[..i])
    {
      FromUnfold(1, v[..i + 1]);
      assert v[..i + 1][..i] == v[..i];
      c := ConditionalAdds(c, v[i]);
    }
    assert v[..|v|] == v;
  }

  /** One round of the loop: shift in a symbol, then add a generator for each set bit of what was shifted out. */
  method ConditionalAdds(before: bv32, v: bv8) returns (c: bv32)
    ensures c == Step(before, v)
  {
    var c0 := Leading(before);
    GenIsBits(c0);
    ghost var g5 := IfAt(c0 & 16 != 0, 0x2a1462b3, 0);
    ghost var g4 := IfAt(c0 & 8 != 0, 0x3d4233dd, g5);
    ghost var g3 := IfAt(c0 & 4 != 0, 0x1ea119fa, g4);
    ghost var g2 := IfAt(c0 & 2 != 0, 0x26508e6d, g3);
    c := Shifted(before, v);
    c := AddIf(c, c0 & 1 != 0, 0x3b6a57b2, g2);
    c := AddIf(c, c0 & 2 != 0, 0x26508e6d, g3);
    c := AddIf(c, c0 & 4 != 0, 0x1ea119fa, g4);
    c := AddIf(c, c0 & 8 != 0, 0x3d4233dd, g5);
    c := AddIf(c, c0 & 16 != 0, 0x2a1462b3, 0);
    XorSelf(c);
  }

  /** One conditional addition; `rest` is what the ones after it will add. */
  method AddIf(before: bv32, on: bool, k: bv32, ghost rest: bv32) returns (c: bv32)
    ensures Xor(c, rest) == Xor(before, IfAt(on, k, rest))
  {
    c := before;
    if on {
      c := c ^ k;
    }
  }

  method Expand(hrp: Data) returns (r: Data)
    ensures r == ExpandHRP(hrp)
  {
    var n := |hrp|;
    var ret := new bv8[2 * n + 1];
    for i := 0 to n
      invariant forall k | 0 <= k < i :: ret[k] == hrp[k] >> 5
      invariant forall k | 0 <= k < i :: ret[k + n + 1] == hrp[k] & 31
    {
      ret[i] := hrp[i] >> 5;
      ret[i + n + 1] := hrp[i] & 31;
    }
    ret[n] := 0;
    r := ret[..];
    HighsAt(hrp, r[..n]);
    LowsAt(hrp, r[n + 1..]);
    assert r == r[..n] + [0] + r[n + 1..];
  }

  lemma {:induction false} HighsAt(hrp: Data, h: Data)
    requires |h| == |hrp| && forall k | 0 <= k < |hrp| :: h[k] == hrp[k] >> 5
    ensures h == Highs(hrp)
  {
    if hrp != [] {
      HighsAt(hrp[..|hrp| - 1], h[..|h| - 1]);
    }
  }

  lemma {:induction false} LowsAt(hrp: Data, l: Data)
    requires |l| == |hrp| && forall k | 0 <= k < |hrp| :: l[k] == hrp[k] & 31
    ensures l == Lows(hrp)
  {
    if hrp != [] {
      LowsAt(hrp[..|hrp| - 1], l[..|l| - 1]);
    }
  }

  method Checksum(hrp: Data, values: Data) returns (r: Data)
    ensures r == CreateChecksum(hrp, values)
  {
    var expanded := Expand(hrp);
    var enc := expanded + values + ZEROES;
    var polymod := ComputePolyMod(enc);
    r := Groups(polymod ^ 1);
  }

  method EncodeString(hrp: Data, values: Data) returns (ret: Data)
    ensures ret == Encode(hrp, values)
  {
    var checksum := Checksum(hrp, values);
    var ok;
    ok, ret := AppendChars(hrp + [SEPARATOR], values + checksum);
    SymbolsIff(hrp, values);
    if !ok {
      return [];
    }
  }

  method AppendChars(prefix: Data, combined: Data) returns (ok: bool, ret: Data)
    ensures ok == Symbols(combined) && (ok ==> ret == prefix + Chars(combined))
  {
    ret := prefix;
    for i := 0 to |combined|
      invariant Symbols(combined[..i]) && ret == prefix + Chars(combined[..i])
    {
      if combined[i] >= 32 {
        return false, [];
      }
      CharsNext(combined, i);
      ret := ret + [ToChar(combined[i])];
    }
    assert combined[..|combined|] == combined;
    ok := true;
  }

  /** Only the caller's values can be out of range: a created checksum never is. */
  lemma SymbolsIff(hrp: Data, values: Data)
    ensures Symbols(values + CreateChecksum(hrp, values)) <==> Symbols(values)
  {
    var combined := values + CreateChecksum(hrp, values);
    if Symbols(values) {
      CreatedVerifies(hrp, values);
      SymbolsAppend(values, CreateChecksum(hrp, values));
    } else {
      var i :| 0 <= i < |values| && values[i] >= 32;
      assert combined[i] == values[i];
    }
  }

  method DecodeString(str: Data) returns (hrp: Data, data: Data)
    ensures (hrp, data) == Decode(str)
  {
    var lower, upper := false, false;
    for i := 0 to |str|
      invariant AllPrintable(str[..i]) && lower == !NoLower(str[..i]) && upper == !NoUpper(str[..i])
    {
      var c := str[i];
      if c < 33 || c > 126 {
        return [], [];
      }
      CaseSoFar(str, i);
      if c >= 97 && c <= 122 {
        lower := true;
      }
      if c >= 65 && c <= 90 {
        upper := true;
      }
    }
    assert str[..|str|] == str;
    if lower && upper {
      return [], [];
    }
    hrp, data := DecodePlain(str, LastSeparator(str));
  }

  lemma CaseSoFar(t: Data, i: nat)
    requires i < |t|
    ensures AllPrintable(t[..i + 1]) == (AllPrintable(t[..i]) && IsPrintable(t[i]))
    ensures NoLower(t[..i + 1]) == (NoLower(t[..i]) && !IsLower(t[i]))
    ensures NoUpper(t[..i + 1]) == (NoUpper(t[..i]) && !IsUpper(t[i]))
  {
    assert t[..i + 1] == t[..i] + [t[i]];
  }

  method DecodePlain(str: Data, pos: int) returns (hrp: Data, data: Data)
    requires pos < |str|
    ensures (hrp, data) == DecodeAt(str, pos)
  {
    if |str| > 1023 || pos < 0 || pos == 0 || pos + 7 > |str| {
      return [], [];
    }
    var known, values := SymbolsOf(str[pos + 1..]);
    if !known {
      return [], [];
    }
    hrp := LowerAll(str[..pos]);
    var ok := Verify(hrp, values);
    if !ok {
      return [], [];
    }
    data := values[..|values| - 6];
  }

  method SymbolsOf(tail: Data) returns (known: bool, values: Data)
    ensures known == Known(tail) && (known ==> values == Values(tail))
  {
    values := [];
    for i := 0 to |tail|
      invariant values == Values(tail[..i]) && Known(tail[..i])
    {
      var rev := FromChar(tail[i]);
      if rev == NONE {
        ValuesAt(tail, i);
        return false, [];
      }
      assert tail[..i + 1][..i] == tail[..i];
      values := values + [rev];
    }
    assert tail[..|tail|] == tail;
    known := true;
  }

  method LowerAll(t: Data) returns (r: Data)
    ensures r == Lowers(t)
  {
    r := [];
    for i := 0 to |t|
      invariant r == Lowers(t[..i])
    {
      assert t[..i + 1][..i] == t[..i];
      r := r + [LowerCase(t[i])];
    }
    assert t[..|t|] == t;
  }

  method Verify(hrp: Data, values: Data) returns (ok: bool)
    ensures ok == VerifyChecksum(hrp, values)
  {
    var expanded := Expand(hrp);
    var polymod := ComputePolyMod(expanded + values);
    ok := polymod == 1;
  }
}
