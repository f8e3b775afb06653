/** Bech32 strings: a human-readable part, data in 5-bit symbols, and a checksum over both. */
module Bech32 {

  type Data = seq<bv8>

  /* ---- The checksum ---- */

  const GENERATORS: seq<bv32> := [0x3b6a57b2, 0x26508e6d, 0x1ea119fa, 0x3d4233dd, 0x2a1462b3]

  /** Addition of bit-packed polynomials over GF(32). */
  function Xor(a: bv32, b: bv32): bv32 {
    a ^ b
  }

  function If(on: bool, k: bv32): bv32 {
    if on then k else 0
  }

  function LowBit(c: bv32): bool {
    c & 1 != 0
  }

  function Rest(c: bv32): bv32 {
    c >> 1
  }

  /** The coefficient that a step moves out at the top. */
  function Leading(c: bv32): bv32 {
    c >> 25
  }

  /** For each bit of a leading coefficient, the generator that it adds. */
  function Gen(c0: bv32, ks: seq<bv32>): bv32 {
    if ks == [] then 0 else Xor(If(LowBit(c0), ks[0]), Gen(Rest(c0), ks[1..]))
  }

  function Shifted(c: bv32, v: bv8): bv32 {
    ((c & 0x1ffffff) << 5) ^ (v as bv32)
  }

  function Step(c: bv32, v: bv8): bv32 {
    Xor(Shifted(c, v), Gen(Leading(c), GENERATORS))
  }

  lemma XorSelf(k: bv32)
    ensures Xor(k, k) == 0 && Xor(k, 0) == k && Xor(0, k) == k
  {
  }

  lemma IfLinear(p: bool, q: bool, k: bv32)
    ensures If(p != q, k) == Xor(If(p, k), If(q, k))
  {
    XorSelf(k);
    XorSelf(0);
    assert If(true, k) == k && If(false, k) == 0;
  }

  lemma LowBitLinear(a: bv32, b: bv32)
    ensures LowBit(Xor(a, b)) == (LowBit(a) != LowBit(b))
  {
  }

  lemma RestLinear(a: bv32, b: bv32)
    ensures Rest(Xor(a, b)) == Xor(Rest(a), Rest(b))
  {
  }

  lemma LeadingLinear(a: bv32, b: bv32)
    ensures Leading(Xor(a, b)) == Xor(Leading(a), Leading(b))
  {
  }

  lemma ShiftedLinear(a: bv32, b: bv32, x: bv8, y: bv8)
    ensures Shifted(Xor(a, b), x ^ y) == Xor(Shifted(a, x), Shifted(b, y))
  {
  }

  lemma XorOfXors(a: bv32, b: bv32, c: bv32, d: bv32)
    ensures Xor(a ^ b, c ^ d) == a ^ b ^ c ^ d
  {
  }

  lemma Regroup(a1: bv32, b1: bv32, a2: bv32, b2: bv32)
    ensures Xor(Xor(a1, b1), Xor(a2, b2)) == Xor(Xor(a1, a2), Xor(b1, b2))
  {
    XorOfXors(a1, b1, a2, b2);
    XorOfXors(a1, a2, b1, b2);
  }

  lemma {:induction false} GenLinear(a: bv32, b: bv32, ks: seq<bv32>)
    ensures Gen(Xor(a, b), ks) == Xor(Gen(a, ks), Gen(b, ks))
  {
    if ks == [] {
      XorSelf(0);
    } else {
      var tail := ks[1..];
      GenLinear(Rest(a), Rest(b), tail);
      GenNext(a, b, ks, tail);
    }
  }

  lemma GenNext(a: bv32, b: bv32, ks: seq<bv32>, tail: seq<bv32>)
    requires ks != [] && tail == ks[1..] && Gen(Xor(Rest(a), Rest(b)), tail) == Xor(Gen(Rest(a), tail), Gen(Rest(b), tail))
    ensures Gen(Xor(a, b), ks) == Xor(Gen(a, ks), Gen(b, ks))
  {
    RestLinear(a, b);
    GenStep(a, b, ks[0], Gen(Rest(a), tail), Gen(Rest(b), tail));
  }

  lemma GenStep(a: bv32, b: bv32, k: bv32, ga: bv32, gb: bv32)
    ensures Xor(If(LowBit(Xor(a, b)), k), Xor(ga, gb)) == Xor(Xor(If(LowBit(a), k), ga), Xor(If(LowBit(b), k), gb))
  {
    LowBitLinear(a, b);
    IfLinear(LowBit(a), LowBit(b), k);
    Regroup(If(LowBit(a), k), If(LowBit(b), k), ga, gb);
  }

  lemma StepLinear(a: bv32, b: bv32, x: bv8, y: bv8)
    ensures Step(Xor(a, b), x ^ y) == Xor(Step(a, x), Step(b, y))
  {
    ShiftedLinear(a, b, x, y);
    LeadingLinear(a, b);
    GenLinear(Leading(a), Leading(b), GENERATORS);
    Regroup(Shifted(a, x), Shifted(b, y), Gen(Leading(a), GENERATORS), Gen(Leading(b), GENERATORS));
  }

  /* ---- A step written out ---- */

  lemma Bits(c0: bv32)
    ensures LowBit(Rest(c0)) == (c0 & 2 != 0) && LowBit(Rest(Rest(c0))) == (c0 & 4 != 0)
    ensures LowBit(Rest(Rest(Rest(c0)))) == (c0 & 8 != 0) && LowBit(Rest(Rest(Rest(Rest(c0))))) == (c0 & 16 != 0)
  {
  }

  lemma GenUnfold(c0: bv32, k: bv32, ks: seq<bv32>)
    ensures Gen(c0, [k] + ks) == Xor(If(LowBit(c0), k), Gen(Rest(c0), ks))
  {
    assert ([k] + ks)[1..] == ks;
  }

  function IfAt(on: bool, k: bv32, rest: bv32): bv32 {
    if on then k ^ rest else rest
  }

  lemma IfAtIs(on: bool, k: bv32, rest: bv32)
    ensures Xor(If(on, k), rest) == IfAt(on, k, rest)
  {
    XorSelf(rest);
  }

  /** A step of the checksum, with the five conditional additions of the source. */
  lemma GenIsBits(c0: bv32)
    ensures Gen(c0, GENERATORS) ==
      IfAt(c0 & 1 != 0, 0x3b6a57b2, IfAt(c0 & 2 != 0, 0x26508e6d, IfAt(c0 & 4 != 0, 0x1ea119fa, IfAt(c0 & 8 != 0, 0x3d4233dd, IfAt(c0 & 16 != 0, 0x2a1462b3, 0)))))
  {
    Bits(c0);
    var r1, r2, r3, r4 := Rest(c0), Rest(Rest(c0)), Rest(Rest(Rest(c0))), Rest(Rest(Rest(Rest(c0))));
    GenUnfold(r4, 0x2a1462b3, []);
    GenUnfold(r3, 0x3d4233dd, [0x2a1462b3]);
    GenUnfold(r2, 0x1ea119fa, [0x3d4233dd, 0x2a1462b3]);
    GenUnfold(r1, 0x26508e6d, [0x1ea119fa, 0x3d4233dd, 0x2a1462b3]);
    GenUnfold(c0, 0x3b6a57b2, [0x26508e6d, 0x1ea119fa, 0x3d4233dd, 0x2a1462b3]);
    IfAtIs(LowBit(r4), 0x2a1462b3, 0);
    IfAtIs(LowBit(r3), 0x3d4233dd, Gen(r4, [0x2a1462b3]));
    IfAtIs(LowBit(r2), 0x1ea119fa, Gen(r3, [0x3d4233dd, 0x2a1462b3]));
    IfAtIs(LowBit(r1), 0x26508e6d, Gen(r2, [0x1ea119fa, 0x3d4233dd, 0x2a1462b3]));
    IfAtIs(LowBit(c0), 0x3b6a57b2, Gen(r1, [0x26508e6d, 0x1ea119fa, 0x3d4233dd, 0x2a1462b3]));
  }

  /** A checksum state: six 5-bit coefficients. */
  predicate State(c: bv32) {
    c < 0x4000_0000
  }

  predicate Symbols(s: Data) {
    forall i | 0 <= i < |s| :: s[i] < 32
  }

  /** No nonzero state becomes zero: the generator's last coefficient is invertible. */
  lemma StepInjective(c: bv32)
    requires State(c) && Step(c, 0) == 0
    ensures c == 0
  {
    GenIsBits(Leading(c));
  }

  lemma StepState(c: bv32, v: bv8)
    requires State(c) && v < 32
    ensures State(Step(c, v))
  {
    GenIsBits(Leading(c));
  }

  /** While the leading coefficient is zero, a step only appends a symbol. */
  lemma StepAppends(c: bv32, v: bv8)
    requires c < 0x200_0000
    ensures Step(c, v) == Shifted(c, v)
  {
    GenIsBits(Leading(c));
  }

  /* ---- Whole strings of symbols ---- */

  /** The state after more symbols. */
  function From(c: bv32, s: Data): bv32 {
    if s == [] then c else Step(From(c, s[..|s| - 1]), s[|s| - 1])
  }

  function PolyMod(s: Data): bv32 {
    From(1, s)
  }

  lemma {:induction false} FromConcat(c: bv32, s: Data, t: Data)
    ensures From(c, s + t) == From(From(c, s), t)
  {
    if t == [] {
      assert s + t == s;
    } else {
      assert (s + t)[..|s + t| - 1] == s + t[..|t| - 1];
      FromConcat(c, s, t[..|t| - 1]);
    }
  }

  lemma {:induction false} FromState(c: bv32, s: Data)
    requires State(c) && Symbols(s)
    ensures State(From(c, s))
  {
    if s != [] {
      FromState(c, s[..|s| - 1]);
      StepState(From(c, s[..|s| - 1]), s[|s| - 1]);
    }
  }

  /** Symbol-wise sum. */
  function Sum(s: Data, t: Data): (r: Data)
    requires |s| == |t|
    ensures |r| == |s|
  {
    if s == [] then [] else Sum(s[..|s| - 1], t[..|t| - 1]) + [s[|s| - 1] ^ t[|t| - 1]]
  }

  /** The checksum state is linear in the start and in the symbols. */
  lemma {:induction false} FromLinear(a: bv32, b: bv32, s: Data, t: Data)
    requires |s| == |t|
    ensures From(Xor(a, b), Sum(s, t)) == Xor(From(a, s), From(b, t))
  {
    if s != [] {
      var s', t' := s[..|s| - 1], t[..|t| - 1];
      FromLinear(a, b, s', t');
      StepLinear(From(a, s'), From(b, t'), s[|s| - 1], t[|t| - 1]);
      assert Sum(s, t)[..|s| - 1] == Sum(s', t');
    }
  }

  lemma XorZero(a: bv32, b: bv32)
    ensures Xor(a, b) == 0 <==> a == b
  {
  }

  lemma XorState(a: bv32, b: bv32)
    requires State(a) && State(b)
    ensures State(Xor(a, b))
  {
  }

  /** Different states stay different under the same symbol. */
  lemma StepKeepsApart(a: bv32, b: bv32, v: bv8)
    requires State(a) && State(b) && a != b
    ensures Step(a, v) != Step(b, v)
  {
    StepLinear(a, b, v, v);
    XorZero(a, b);
    XorZero(Step(a, v), Step(b, v));
    SymbolSelf(v);
    XorState(a, b);
    if Step(Xor(a, b), 0) == 0 {
      StepInjective(Xor(a, b));
    }
  }

  lemma SymbolSelf(v: bv8)
    ensures v ^ v == 0
  {
  }

  lemma {:induction false} FromKeepsApart(a: bv32, b: bv32, s: Data)
    requires State(a) && State(b) && a != b && Symbols(s)
    ensures From(a, s) != From(b, s)
  {
    if s != [] {
      var s' := s[..|s| - 1];
      FromKeepsApart(a, b, s');
      FromState(a, s');
      FromState(b, s');
      StepKeepsApart(From(a, s'), From(b, s'), s[|s| - 1]);
    }
  }

  /* ---- Six symbols are as good as a state ---- */

  /** A state that `k` symbols can make from nothing. */
  predicate Small(c: bv32, k: nat) {
    if k == 0 then c == 0 else if k == 1 then c < 0x20 else if k == 2 then c < 0x400 else if k == 3 then c < 0x8000
    else if k == 4 then c < 0x10_0000 else if k == 5 then c < 0x200_0000 else c < 0x4000_0000
  }

  lemma StepSmall(c: bv32, v: bv8, k: nat)
    requires k < 6 && Small(c, k) && v < 32
    ensures c < 0x200_0000 && Step(c, v) == Shifted(c, v) && Small(Step(c, v), k + 1)
  {
    StepAppends(c, v);
  }

  lemma {:induction false} WindowSmall(w: Data)
    requires |w| <= 6 && Symbols(w)
    ensures Small(From(0, w), |w|)
  {
    if w != [] {
      var init := w[..|w| - 1];
      WindowSmall(init);
      WindowNext(w, init);
    }
  }

  lemma WindowNext(w: Data, init: Data)
    requires 0 < |w| <= 6 && Symbols(w) && init == w[..|w| - 1] && Small(From(0, init), |init|)
    ensures From(0, w) == Shifted(From(0, init), w[|w| - 1]) && Small(From(0, w), |w|) && From(0, init) < 0x200_0000
  {
    FromUnfold(0, w);
    StepSmall(From(0, init), w[|w| - 1], |init|);
  }

  lemma FromUnfold(c: bv32, w: Data)
    requires w != []
    ensures From(c, w) == Step(From(c, w[..|w| - 1]), w[|w| - 1])
  {
  }

  lemma ShiftedZero(c: bv32, v: bv8)
    requires c < 0x200_0000 && v < 32 && Shifted(c, v) == 0
    ensures c == 0 && v == 0
  {
  }

  lemma {:induction false} ZeroWindow(w: Data)
    requires |w| <= 6 && Symbols(w) && From(0, w) == 0
    ensures forall i | 0 <= i < |w| :: w[i] == 0
  {
    if w != [] {
      var w', v := w[..|w| - 1], w[|w| - 1];
      WindowSmall(w');
      WindowNext(w, w');
      ShiftedZero(From(0, w'), v);
      ZeroWindow(w');
    }
  }

  lemma SymbolSum(x: bv8, y: bv8)
    requires x < 32 && y < 32
    ensures x ^ y < 32 && (x ^ y == 0 ==> x == y)
  {
  }

  lemma {:induction false} SumSymbols(s: Data, t: Data)
    requires |s| == |t| && Symbols(s) && Symbols(t)
    ensures Symbols(Sum(s, t))
    ensures (forall i | 0 <= i < |s| :: Sum(s, t)[i] == 0) ==> s == t
  {
    if s != [] {
      var s', t' := s[..|s| - 1], t[..|t| - 1];
      SumSymbols(s', t');
      SymbolSum(s[|s| - 1], t[|t| - 1]);
      if forall i | 0 <= i < |s| :: Sum(s, t)[i] == 0 {
        assert forall i | 0 <= i < |s'| :: Sum(s', t')[i] == Sum(s, t)[i];
        assert s == s' + [s[|s| - 1]] && t == t' + [t[|t| - 1]];
      }
    }
  }

  /** Up to six symbols are determined by the states before and after them. */
  lemma WindowDetermined(c: bv32, w: Data, w': Data)
    requires |w| == |w'| <= 6 && Symbols(w) && Symbols(w') && From(c, w) == From(c, w')
    ensures w == w'
  {
    FromLinear(c, c, w, w');
    XorZero(c, c);
    XorZero(From(c, w), From(c, w'));
    SumSymbols(w, w');
    ZeroWindow(Sum(w, w'));
  }

  /** The six 5-bit groups of a state, highest first. */
  function Groups(mod: bv32): (r: Data)
    ensures |r| == 6
  {
    [Group5(mod), Group4(mod), Group3(mod), Group2(mod), Group1(mod), Group0(mod)]
  }

  function Group5(mod: bv32): bv8 { ((mod >> 25) & 31) as bv8 }
  function Group4(mod: bv32): bv8 { ((mod >> 20) & 31) as bv8 }
  function Group3(mod: bv32): bv8 { ((mod >> 15) & 31) as bv8 }
  function Group2(mod: bv32): bv8 { ((mod >> 10) & 31) as bv8 }
  function Group1(mod: bv32): bv8 { ((mod >> 5) & 31) as bv8 }
  function Group0(mod: bv32): bv8 { (mod & 31) as bv8 }

  lemma GroupSizes(mod: bv32)
    ensures Group5(mod) < 32 && Group4(mod) < 32 && Group3(mod) < 32
    ensures Group2(mod) < 32 && Group1(mod) < 32 && Group0(mod) < 32
  {
  }

  lemma Repack(mod: bv32)
    requires State(mod)
    ensures Shifted(Shifted(Shifted(Shifted(Shifted(Shifted(0, Group5(mod)), Group4(mod)), Group3(mod)), Group2(mod)), Group1(mod)), Group0(mod)) == mod
  {
  }

  /** Symbols packed into one number. */
  function Packed(w: Data): bv32 {
    if w == [] then 0 else Shifted(Packed(w[..|w| - 1]), w[|w| - 1])
  }

  lemma {:induction false} FromIsPacked(w: Data)
    requires |w| <= 6 && Symbols(w)
    ensures From(0, w) == Packed(w)
  {
    if w != [] {
      var init := w[..|w| - 1];
      WindowSmall(init);
      WindowNext(w, init);
      FromIsPacked(init);
    }
  }

  lemma PackedUnfold(w: Data, v: bv8, whole: Data)
    requires whole == w + [v]
    ensures Packed(whole) == Shifted(Packed(w), v)
  {
    assert whole[..|whole| - 1] == w;
  }

  lemma PackedSix(a: bv8, b: bv8, c: bv8, d: bv8, e: bv8, f: bv8)
    ensures Packed([a, b, c, d, e, f]) == Shifted(Shifted(Shifted(Shifted(Shifted(Shifted(0, a), b), c), d), e), f)
  {
    PackedUnfold([], a, [a]);
    PackedUnfold([a], b, [a, b]);
    PackedUnfold([a, b], c, [a, b, c]);
    PackedUnfold([a, b, c], d, [a, b, c, d]);
    PackedUnfold([a, b, c, d], e, [a, b, c, d, e]);
    PackedUnfold([a, b, c, d, e], f, [a, b, c, d, e, f]);
  }

  lemma GroupsPack(mod: bv32)
    requires State(mod)
    ensures Symbols(Groups(mod)) && From(0, Groups(mod)) == mod
  {
    GroupSizes(mod);
    FromIsPacked(Groups(mod));
    Repack(mod);
    PackedSix(Group5(mod), Group4(mod), Group3(mod), Group2(mod), Group1(mod), Group0(mod));
  }

  /* ---- Creating and verifying a checksum ---- */

  const ZEROES: Data := [0, 0, 0, 0, 0, 0]

  /** The symbols that a human-readable part contributes: the high bits of its characters, then the low ones. */
  function ExpandHRP(hrp: Data): (r: Data)
    ensures |r| == 2 * |hrp| + 1
  {
    Highs(hrp) + [0] + Lows(hrp)
  }

  function Highs(hrp: Data): (r: Data)
    ensures |r| == |hrp|
  {
    if hrp == [] then [] else Highs(hrp[..|hrp| - 1]) + [hrp[|hrp| - 1] >> 5]
  }

  function Lows(hrp: Data): (r: Data)
    ensures |r| == |hrp|
  {
    if hrp == [] then [] else Lows(hrp[..|hrp| - 1]) + [hrp[|hrp| - 1] & 31]
  }

  predicate VerifyChecksum(hrp: Data, values: Data) {
    PolyMod(ExpandHRP(hrp) + values) == 1
  }

  function CreateChecksum(hrp: Data, values: Data): (r: Data)
    ensures |r| == 6
  {
    Groups(Xor(PolyMod(ExpandHRP(hrp) + values + ZEROES), 1))
  }

  lemma HalvesAreSymbols(c: bv8)
    ensures c >> 5 < 32 && c & 31 < 32
  {
  }

  lemma {:induction false} HighsAndLowsAreSymbols(hrp: Data)
    ensures Symbols(Highs(hrp)) && Symbols(Lows(hrp))
  {
    if hrp != [] {
      HighsAndLowsAreSymbols(hrp[..|hrp| - 1]);
      HalvesAreSymbols(hrp[|hrp| - 1]);
    }
  }

  lemma SymbolsAppend(s: Data, t: Data)
    requires Symbols(s) && Symbols(t)
    ensures Symbols(s + t)
  {
  }

  lemma ExpandedAreSymbols(hrp: Data)
    ensures Symbols(ExpandHRP(hrp))
  {
    HighsAndLowsAreSymbols(hrp);
    SymbolsAppend(Highs(hrp), [0]);
    SymbolsAppend(Highs(hrp) + [0], Lows(hrp));
  }

  lemma XorOne(z: bv32)
    requires State(z)
    ensures State(Xor(z, 1)) && Xor(z, Xor(z, 1)) == 1
  {
  }

  lemma {:induction false} SumZeroes(s: Data, t: Data)
    requires |s| == |t| && forall i | 0 <= i < |s| :: s[i] == 0
    ensures Sum(s, t) == t
  {
    if s != [] {
      SumZeroes(s[..|s| - 1], t[..|t| - 1]);
      XorZeroSymbol(t[|t| - 1]);
    }
  }

  lemma XorZeroSymbol(v: bv8)
    ensures 0 ^ v == v
  {
  }

  /** Six symbols taken from the state after six zeroes bring the state to one. */
  lemma ChecksumBringsToOne(c: bv32)
    requires State(c)
    ensures From(c, Groups(Xor(From(c, ZEROES), 1))) == 1
  {
    var z := From(c, ZEROES);
    FromState(c, ZEROES);
    XorOne(z);
    var w := Groups(Xor(z, 1));
    GroupsPack(Xor(z, 1));
    SumZeroes(ZEROES, w);
    FromLinear(c, 0, ZEROES, w);
    XorSelf(c);
  }

  /** A created checksum verifies. */
  lemma CreatedVerifies(hrp: Data, values: Data)
    requires Symbols(values)
    ensures Symbols(CreateChecksum(hrp, values)) && VerifyChecksum(hrp, values + CreateChecksum(hrp, values))
  {
    var body, checksum := ExpandHRP(hrp) + values, CreateChecksum(hrp, values);
    var c := From(1, body);
    ExpandedAreSymbols(hrp);
    SymbolsAppend(ExpandHRP(hrp), values);
    FromState(1, body);
    FromConcat(1, body, ZEROES);
    FromState(c, ZEROES);
    XorOne(From(c, ZEROES));
    GroupsPack(Xor(From(c, ZEROES), 1));
    ChecksumBringsToOne(c);
    FromConcat(1, body, checksum);
    assert ExpandHRP(hrp) + (values + checksum) == body + checksum;
  }

  /** No other six symbols verify. */
  lemma ChecksumIsUnique(hrp: Data, values: Data, checksum: Data)
    requires Symbols(values) && Symbols(checksum) && |checksum| == 6
    ensures VerifyChecksum(hrp, values + checksum) <==> checksum == CreateChecksum(hrp, values)
  {
    CreatedVerifies(hrp, values);
    var body, created := ExpandHRP(hrp) + values, CreateChecksum(hrp, values);
    FromConcat(1, body, created);
    FromConcat(1, body, checksum);
    assert ExpandHRP(hrp) + (values + checksum) == body + checksum;
    assert ExpandHRP(hrp) + (values + created) == body + created;
    if From(From(1, body), checksum) == From(From(1, body), created) {
      WindowDetermined(From(1, body), checksum, created);
    }
  }

  /**
   * Error detection: if a string verifies, none verifies that differs from it only within six consecutive
   * symbols. A single wrong symbol is the simplest case.
   */
  lemma BurstIsDetected(hrp: Data, before: Data, w: Data, w': Data, after: Data)
    requires Symbols(before) && Symbols(w) && Symbols(w') && Symbols(after) && |w| == |w'| <= 6 && w != w'
    requires VerifyChecksum(hrp, before + w + after)
    ensures !VerifyChecksum(hrp, before + w' + after)
  {
    var c := From(1, ExpandHRP(hrp) + before);
    ExpandedAreSymbols(hrp);
    SymbolsAppend(ExpandHRP(hrp), before);
    FromState(1, ExpandHRP(hrp) + before);
    FromState(c, w);
    FromState(c, w');
    ThreeParts(hrp, before, w, after);
    ThreeParts(hrp, before, w', after);
    if From(c, w) == From(c, w') {
      WindowDetermined(c, w, w');
    } else {
      FromKeepsApart(From(c, w), From(c, w'), after);
    }
  }

  lemma Associate(a: Data, b: Data, c: Data, d: Data)
    ensures a + (b + c + d) == a + b + c + d
  {
  }

  lemma ThreeParts(hrp: Data, before: Data, w: Data, after: Data)
    ensures PolyMod(ExpandHRP(hrp) + (before + w + after)) == From(From(From(1, ExpandHRP(hrp) + before), w), after)
  {
    var head := ExpandHRP(hrp) + before;
    Associate(ExpandHRP(hrp), before, w, after);
    FromConcat(1, head + w, after);
    FromConcat(1, head, w);
  }
}
