/** Small types and helpers shared by the component models. */
module Prelude {

  datatype Option<+T> = None | Some(value: T)

  /** An unsigned char of the source. */
  type byte = x: int | 0 <= x < 256

  /** A 256-bit hash. */
  newtype uint256 = x: int | 0 <= x < 0x1_0000000000000000_0000000000000000_0000000000000000_0000000000000000

  /** Some member of a nonempty set. */
  ghost function Pick<T>(s: set<T>): (t: T)
    requires s != {}
    ensures t in s
  {
    var t :| t in s;
    t
  }

  function Min(a: int, b: int): int { if a < b then a else b }

  function Max(a: int, b: int): int { if a < b then b else a }

  function Reversed<T>(s: seq<T>): (r: seq<T>)
    ensures |r| == |s|
  {
    if s == [] then [] else [s[|s| - 1]] + Reversed(s[..|s| - 1])
  }

  function Get<K, V>(m: map<K, V>, k: K): Option<V> {
    if k in m then Some(m[k]) else None
  }

  lemma SameMap<K(!new), V>(a: map<K, V>, b: map<K, V>)
    requires forall k :: Get(a, k) == Get(b, k)
    ensures a == b
  {
    assert forall k :: k in a <==> Get(a, k).Some?;
    assert forall k :: k in b <==> Get(b, k).Some?;
    assert forall k | k in a :: Get(a, k).value == a[k];
  }

  /** The sum of a size over all values of a map. */
  ghost function SumOver<V>(m: map<uint256, V>, size: V -> nat): nat {
    if forall k :: k !in m then 0
    else
      var k :| k in m;
      size(m[k]) + SumOver(m - {k}, size)
  }

  lemma {:induction false} SumOverSplit<V>(m: map<uint256, V>, size: V -> nat, k: uint256)
    requires k in m
    ensures SumOver(m, size) == size(m[k]) + SumOver(m - {k}, size)
    decreases |m|
  {
    var u :| u in m && SumOver(m, size) == size(m[u]) + SumOver(m - {u}, size);
    if u != k {
      SumOverSplit(m - {u}, size, k);
      SumOverSplit(m - {k}, size, u);
      assert m - {u} - {k} == m - {k} - {u};
    }
  }

  const UINT32_LIMIT := 0x1_0000_0000
  const UINT64_LIMIT := 0x1_0000_0000_0000_0000

  newtype uint32 = x: int | 0 <= x < UINT32_LIMIT
  newtype uint64 = x: int | 0 <= x < UINT64_LIMIT
}
