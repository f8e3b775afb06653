/** The compact form of output scripts: pay-to-key and pay-to-script scripts shrink to their payload. */
module ScriptCompressor {
  import opened Prelude
  import opened VarInt

  const OP_DUP: byte := 0x76
  const OP_HASH160: byte := 0xa9
  const OP_EQUAL: byte := 0x87
  const OP_EQUALVERIFY: byte := 0x88
  const OP_CHECKSIG: byte := 0xac
  const OP_RETURN: byte := 0x6a
  const SPECIAL_SCRIPTS := 6
  const MAX_SCRIPT_SIZE := 10000

  /** Public keys: which uncompressed ones are points of the curve, and the uncompressed form of a compressed one. */
  datatype Curve = Curve(isFullyValid: Bytes -> bool, decompress: Bytes -> Option<Bytes>)

  /** The compressed form of an uncompressed key: its first coordinate and the parity of the second. */
  function ShortKey(key: Bytes): Bytes
    requires |key| == 65
  {
    [2 + key[64] % 2] + key[1..33]
  }

  /** Decompression inverts compression on valid keys. */
  ghost predicate CurveOk(curve: Curve) {
    forall key: Bytes | |key| == 65 && key[0] == 4 && curve.isFullyValid(key) :: curve.decompress(ShortKey(key)) == Some(key)
  }

  predicate IsToKeyID(s: Bytes) {
    |s| == 25 && s[0] == OP_DUP && s[1] == OP_HASH160 && s[2] == 20 && s[23] == OP_EQUALVERIFY && s[24] == OP_CHECKSIG
  }

  predicate IsToScriptID(s: Bytes) {
    |s| == 23 && s[0] == OP_HASH160 && s[1] == 20 && s[22] == OP_EQUAL
  }

  predicate IsToShortKey(s: Bytes) {
    |s| == 35 && s[0] == 33 && s[34] == OP_CHECKSIG && (s[1] == 2 || s[1] == 3)
  }

  predicate IsToLongKey(curve: Curve, s: Bytes) {
    |s| == 67 && s[0] == 65 && s[66] == OP_CHECKSIG && s[1] == 4 && curve.isFullyValid(s[1..66])
  }

  function Compress(curve: Curve, s: Bytes): Option<Bytes> {
    if IsToKeyID(s) then Some([0] + s[3..23])
    else if IsToScriptID(s) then Some([1] + s[2..22])
    else if IsToShortKey(s) then Some([s[1]] + s[2..34])
    else if IsToLongKey(curve, s) then Some([4 + s[65] % 2] + s[2..34])
    else None
  }

  function GetSpecialSize(nSize: nat): nat {
    if nSize <= 1 then 20 else if nSize <= 5 then 32 else 0
  }

  /** The script for a special code and its payload; a key that is no point of the curve leaves the script empty. */
  function Decompress(curve: Curve, nSize: nat, payload: Bytes): Bytes
    requires nSize < SPECIAL_SCRIPTS && |payload| == GetSpecialSize(nSize)
  {
    if nSize == 0 then [OP_DUP, OP_HASH160, 20] + payload + [OP_EQUALVERIFY, OP_CHECKSIG]
    else if nSize == 1 then [OP_HASH160, 20] + payload + [OP_EQUAL]
    else if nSize <= 3 then [33, nSize] + payload + [OP_CHECKSIG]
    else
      match curve.decompress([nSize - 2] + payload)
      case None => []
      case Some(key) => [65] + key + [OP_CHECKSIG]
  }

  function Write(curve: Curve, s: Bytes): Bytes {
    match Compress(curve, s)
    case Some(short) => short
    case None => VarInt.Write(|s| + SPECIAL_SCRIPTS) + s
  }

  function ReadScript(curve: Curve, s: Bytes): Option<Read<Bytes>> {
    match ReadVarInt(s)
    case None => None
    case Some(r) =>
      if r.value < SPECIAL_SCRIPTS then
        var size := GetSpecialSize(r.value);
        if |r.rest| < size then None else Some(Read(Decompress(curve, r.value, r.rest[..size]), r.rest[size..]))
      else
        var size := r.value - SPECIAL_SCRIPTS;
        if |r.rest| < size then None
        else Some(Read(if size > MAX_SCRIPT_SIZE then [OP_RETURN] else r.rest[..size], r.rest[size..]))
  }

  /** A special script is rebuilt from its code and payload. */
  lemma DecompressCompressed(curve: Curve, s: Bytes)
    requires CurveOk(curve) && Compress(curve, s).Some?
    ensures var short := Compress(curve, s).value;
            && |short| > 0 && short[0] < SPECIAL_SCRIPTS && |short| == 1 + GetSpecialSize(short[0])
            && Decompress(curve, short[0], short[1..]) == s
  {
    var short := Compress(curve, s).value;
    if IsToKeyID(s) {
      assert short[1..] == s[3..23];
    } else if IsToScriptID(s) {
      assert short[1..] == s[2..22];
    } else if IsToShortKey(s) {
      assert short[1..] == s[2..34];
    } else {
      LongKey(curve, s);
    }
  }

  lemma LongKey(curve: Curve, s: Bytes)
    requires CurveOk(curve) && IsToLongKey(curve, s)
    ensures var short: Bytes := [4 + s[65] % 2] + s[2..34];
            |short| == 33 && Decompress(curve, short[0], short[1..]) == s
  {
    var key, short: Bytes := s[1..66], [4 + s[65] % 2] + s[2..34];
    assert short[1..] == s[2..34] == key[1..33];
    assert [short[0] - 2] + short[1..] == ShortKey(key);
    assert [65] + key + [OP_CHECKSIG] == s;
  }

  /** A script is read back, with what follows it, unless it is too long, which replaces it by an invalid one. */
  lemma ReadWritten(curve: Curve, s: Bytes, tail: Bytes)
    requires CurveOk(curve)
    ensures ReadScript(curve, Write(curve, s) + tail) == Some(Read(if |s| > MAX_SCRIPT_SIZE then [OP_RETURN] else s, tail))
  {
    if Compress(curve, s).Some? {
      var short := Compress(curve, s).value;
      DecompressCompressed(curve, s);
      SpecialRead(short, tail);
    } else {
      PlainRead(curve, s, tail);
    }
  }

  lemma PlainRead(curve: Curve, s: Bytes, tail: Bytes)
    ensures ReadScript(curve, VarInt.Write(|s| + SPECIAL_SCRIPTS) + s + tail) ==
      Some(Read(if |s| > MAX_SCRIPT_SIZE then [OP_RETURN] else s, tail))
  {
    var n := |s| + SPECIAL_SCRIPTS;
    ReadWrittenIff(n, s + tail);
    assert VarInt.Write(n) + s + tail == VarInt.Write(n) + (s + tail);
    assert (s + tail)[..|s|] == s && (s + tail)[|s|..] == tail;
  }

  method WriteScript(curve: Curve, s: Bytes) returns (r: Bytes)
    ensures r == Write(curve, s)
  {
    var compr := Compress(curve, s);
    if compr.Some? {
      return compr.value;
    }
    var size := WriteVarInt(|s| + SPECIAL_SCRIPTS);
    r := size + s;
  }

  method ReadScriptFrom(curve: Curve, s: Bytes) returns (r: Option<Read<Bytes>>)
    ensures r == ReadScript(curve, s)
  {
    var size := ReadVarIntLoop(s);
    if size.None? {
      return None;
    }
    var nSize, rest := size.value.value, size.value.rest;
    var length := if nSize < SPECIAL_SCRIPTS then GetSpecialSize(nSize) else nSize - SPECIAL_SCRIPTS;
    if |rest| < length {
      return None;
    }
    var script: Bytes;
    if nSize < SPECIAL_SCRIPTS {
      script := Decompress(curve, nSize, rest[..length]);
    } else if length > MAX_SCRIPT_SIZE {
      script := [OP_RETURN];
    } else {
      script := rest[..length];
    }
    r := Some(Read(script, rest[length..]));
  }

  /** The code of a special script reads as a one-byte number. */
  lemma SpecialRead(short: Bytes, tail: Bytes)
    requires |short| > 0 && short[0] < SPECIAL_SCRIPTS
    ensures ReadVarInt(short + tail) == Some(Read(short[0], short[1..] + tail))
    ensures (short[1..] + tail)[..|short| - 1] == short[1..] && (short[1..] + tail)[|short| - 1..] == tail
  {
    assert (short + tail)[1..] == short[1..] + tail;
  }
}
