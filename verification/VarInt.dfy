/** Variable-length integers: base 128 with the most significant digit first, one-to-one. */
module VarInt {
  import opened Prelude

  type Bytes = seq<byte>

  /** A value read from the front of a byte string, and what is left of the string. */
  datatype Read<T> = Read(value: T, rest: Bytes)

  /** All digits but the last: each has its high bit set, and one is subtracted at each step up. */
  function HighDigits(n: nat): Bytes {
    (if n <= 0x7f then [] else HighDigits(n / 128 - 1)) + [128 + n % 128]
  }

  /** The encoding of a number; a negative one is written as its lowest digit. */
  function Write(n: int): Bytes {
    (if n <= 0x7f then [] else HighDigits(n / 128 - 1)) + [n % 128]
  }

  /** Reading goes on while the high bit is set. */
  function ReadOn(n: nat, s: Bytes): Option<Read<nat>>
    decreases |s|
  {
    if s == [] then None
    else if s[0] >= 128 then ReadOn(n * 128 + s[0] % 128 + 1, s[1..])
    else Some(Read(n * 128 + s[0], s[1..]))
  }

  function ReadVarInt(s: Bytes): Option<Read<nat>> {
    ReadOn(0, s)
  }

  lemma {:induction false} ReadHigh(n: nat, s: Bytes)
    ensures ReadOn(0, HighDigits(n) + s) == ReadOn(n + 1, s)
  {
    if n <= 0x7f {
      assert (HighDigits(n) + s)[1..] == s;
    } else {
      var m := n / 128 - 1;
      assert HighDigits(n) + s == HighDigits(m) + ([128 + n % 128] + s);
      ReadHigh(m, [128 + n % 128] + s);
      assert ([128 + n % 128] + s)[1..] == s;
    }
  }

  /** What is left of a number: only its lowest digit, if it is negative. */
  function Kept(n: int): nat {
    if n >= 0 then n else n % 128
  }

  /** A number is read back, with what follows it, if and only if it is not negative. */
  lemma ReadWrittenIff(n: int, s: Bytes)
    ensures ReadVarInt(Write(n) + s) == Some(Read(Kept(n), s))
    ensures Kept(n) == n <==> n >= 0
  {
    if n <= 0x7f {
      assert (Write(n) + s)[1..] == s;
    } else {
      var m := n / 128 - 1;
      assert Write(n) + s == HighDigits(m) + ([n % 128] + s);
      ReadHigh(m, [n % 128] + s);
      assert ([n % 128] + s)[1..] == s;
    }
  }

  /** What has been read so far, written out again. */
  function Digits(n: nat): Bytes {
    if n == 0 then [] else HighDigits(n - 1)
  }

  lemma {:induction false} WriteReadOn(n: nat, s: Bytes)
    requires ReadOn(n, s).Some?
    ensures var r := ReadOn(n, s).value;
            Write(r.value) + r.rest == Digits(n) + s
    decreases |s|
  {
    NextDigit(n, s[0] % 128);
    Regroup(Digits(n), s);
    if s[0] >= 128 {
      WriteReadOn(n * 128 + s[0] % 128 + 1, s[1..]);
    }
  }

  lemma NextDigit(n: nat, d: byte)
    requires d < 128
    ensures HighDigits(n * 128 + d) == Digits(n) + [128 + d] && Write(n * 128 + d) == Digits(n) + [d]
  {
    assert (n * 128 + d) % 128 == d && (n * 128 + d) / 128 == n;
  }

  lemma Regroup(a: Bytes, s: Bytes)
    requires s != []
    ensures a + s == (a + [s[0]]) + s[1..]
  {
  }

  /** Every number has exactly one encoding: whatever can be read is what would have been written. */
  lemma WriteRead(s: Bytes)
    requires ReadVarInt(s).Some?
    ensures Write(ReadVarInt(s).value.value) + ReadVarInt(s).value.rest == s
  {
    WriteReadOn(0, s);
  }

  /** The source's writer: digits are found last first and written in reverse. */
  method WriteVarInt(n: int) returns (r: Bytes)
    ensures r == Write(n)
  {
    var tmp := CollectDigits(n);
    r := [];
    var len := |tmp|;
    assert tmp[..len] == tmp;
    while len > 0
      invariant 0 <= len <= |tmp| && Reversed(tmp) == r + Reversed(tmp[..len])
    {
      len := len - 1;
      ReversedSnoc(tmp[..len], tmp[len]);
      assert tmp[..len] + [tmp[len]] == tmp[..len + 1];
      assert r + ([tmp[len]] + Reversed(tmp[..len])) == (r + [tmp[len]]) + Reversed(tmp[..len]);
      r := r + [tmp[len]];
    }
  }

  method CollectDigits(n: int) returns (tmp: Bytes)
    ensures Reversed(tmp) == Write(n)
  {
    tmp := [n % 128];
    if n <= 0x7f {
      return;
    }
    var rest: nat := n / 128 - 1;
    while true
      invariant Write(n) == HighDigits(rest) + Reversed(tmp)
      decreases rest
    {
      ReversedSnoc(tmp, 128 + rest % 128);
      MoveDigit(rest, Reversed(tmp));
      tmp := tmp + [128 + rest % 128];
      if rest <= 0x7f {
        return;
      }
      rest := rest / 128 - 1;
    }
  }

  lemma MoveDigit(n: nat, s: Bytes)
    ensures HighDigits(n) + s == (if n <= 0x7f then [] else HighDigits(n / 128 - 1)) + ([128 + n % 128] + s)
  {
  }

  lemma ReversedSnoc(s: Bytes, x: byte)
    ensures Reversed(s + [x]) == [x] + Reversed(s)
  {
    assert (s + [x])[..|s|] == s;
  }

  method ReadVarIntLoop(s: Bytes) returns (r: Option<Read<nat>>)
    ensures r == ReadVarInt(s)
  {
    var n: nat := 0;
    var i := 0;
    while i < |s|
      invariant i <= |s| && ReadOn(n, s[i..]) == ReadVarInt(s)
    {
      var chData := s[i];
      assert s[i..][1..] == s[i + 1..];
      n := n * 128 + chData % 128;
      if chData >= 128 {
        n := n + 1;
      } else {
        return Some(Read(n, s[i + 1..]));
      }
      i := i + 1;
    }
    return None;
  }
}
