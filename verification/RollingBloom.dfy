/** Bloom filters, and the rolling filter that keeps the most recent insertions in two of them. */
module RollingBloom {
  import opened Prelude
  import opened Arithmetic

  type Key = seq<byte>

  /** The hash functions of a filter with `nBits` bits; the tweak is part of the function. */
  datatype Params = Params(hash: (nat, Key) -> nat, nHashFuncs: nat, nBits: nat)

  function Index(p: Params, i: nat, key: Key): (r: nat)
    requires p.nBits > 0
    ensures r < p.nBits
  {
    p.hash(i, key) % p.nBits
  }

  /** The bits that are set, and the flags for a filter that matches everything and one that matches nothing. */
  datatype Filter = Filter(bits: set<nat>, isFull: bool, isEmpty: bool)

  const CLEARED := Filter({}, false, true)

  /** The bits of the first `n` hash functions. */
  function Indices(p: Params, key: Key, n: nat): set<nat>
    requires p.nBits > 0
  {
    if n == 0 then {} else Indices(p, key, n - 1) + {Index(p, n - 1, key)}
  }

  function Insert(p: Params, f: Filter, key: Key): Filter
    requires p.nBits > 0
  {
    if f.isFull then f else Filter(f.bits + Indices(p, key, p.nHashFuncs), false, false)
  }

  predicate Contains(p: Params, f: Filter, key: Key)
    requires p.nBits > 0
  {
    f.isFull || (!f.isEmpty && Indices(p, key, p.nHashFuncs) <= f.bits)
  }

  /* ---- The rolling filter ---- */

  datatype Rolling = Rolling(b1: Filter, b2: Filter, nInsertions: nat)

  const RESET := Rolling(CLEARED, CLEARED, 0)

  /** Insertion into a filter for the last `n` elements. */
  function RollingInsert(p: Params, n: nat, r: Rolling, key: Key): Rolling
    requires p.nBits > 0
  {
    var b1 := if r.nInsertions == 0 then CLEARED else r.b1;
    var b2 := if r.nInsertions != 0 && r.nInsertions == n then CLEARED else r.b2;
    Rolling(Insert(p, b1, key), Insert(p, b2, key), if r.nInsertions + 1 == 2 * n then 0 else r.nInsertions + 1)
  }

  predicate RollingContains(p: Params, n: nat, r: Rolling, key: Key)
    requires p.nBits > 0
  {
    if r.nInsertions < n then Contains(p, r.b2, key) else Contains(p, r.b1, key)
  }

  function Run(p: Params, n: nat, keys: seq<Key>): Rolling
    requires p.nBits > 0
  {
    if keys == [] then RESET else RollingInsert(p, n, Run(p, n, keys[..|keys| - 1]), keys[|keys| - 1])
  }

  /** A filter contains each of the last `k` keys. */
  ghost predicate HoldsLast(p: Params, f: Filter, keys: seq<Key>, k: nat)
    requires p.nBits > 0
  {
    forall i: nat | |keys| - k <= i < |keys| :: HoldsAt(p, f, keys, i)
  }

  ghost predicate HoldsAt(p: Params, f: Filter, keys: seq<Key>, i: nat)
    requires p.nBits > 0 && i < |keys|
  {
    Contains(p, f, keys[i])
  }

  /** What the two filters hold: which of them was cleared last, and when. */
  ghost predicate Staggered(p: Params, n: nat, r: Rolling, keys: seq<Key>)
    requires p.nBits > 0
  {
    && r.nInsertions < 2 * n
    && HoldsLast(p, r.b1, keys, if r.nInsertions == 0 then 2 * n else r.nInsertions)
    && HoldsLast(p, r.b2, keys, if r.nInsertions <= n then n + r.nInsertions else r.nInsertions - n)
  }

  /** An insertion, after a clear or not, adds the key and keeps what was held. */
  lemma InsertHolds(p: Params, f: Filter, keys: seq<Key>, key: Key, k: nat)
    requires p.nBits > 0 && HoldsLast(p, f, keys, k)
    ensures HoldsLast(p, Insert(p, f, key), keys + [key], k + 1)
  {
    var f', keys' := Insert(p, f, key), keys + [key];
    forall i: nat | |keys'| - (k + 1) <= i < |keys'|
      ensures HoldsAt(p, f', keys', i)
    {
      assert i < |keys| ==> HoldsAt(p, f, keys, i);
    }
  }

  lemma InsertStaggered(p: Params, n: nat, r: Rolling, keys: seq<Key>, key: Key)
    requires p.nBits > 0 && n > 0 && Staggered(p, n, r, keys)
    ensures Staggered(p, n, RollingInsert(p, n, r, key), keys + [key])
  {
    var r' := RollingInsert(p, n, r, key);
    if r.nInsertions == 0 {
      InsertHolds(p, CLEARED, keys, key, 0);
    } else {
      InsertHolds(p, r.b1, keys, key, r.nInsertions);
    }
    if r.nInsertions == n {
      InsertHolds(p, CLEARED, keys, key, 0);
    } else if r.nInsertions < n {
      InsertHolds(p, r.b2, keys, key, n + r.nInsertions);
    } else {
      InsertHolds(p, r.b2, keys, key, r.nInsertions - n);
    }
  }

  lemma {:induction false} RunStaggered(p: Params, n: nat, keys: seq<Key>)
    requires p.nBits > 0 && n > 0
    ensures Staggered(p, n, Run(p, n, keys), keys)
  {
    if keys != [] {
      var init := keys[..|keys| - 1];
      RunStaggered(p, n, init);
      InsertStaggered(p, n, Run(p, n, init), init, keys[|keys| - 1]);
      assert init + [keys[|keys| - 1]] == keys;
    }
  }

  /** After any number of insertions, each of the last `n` inserted keys is contained. */
  lemma LastAreContained(p: Params, n: nat, keys: seq<Key>, i: nat)
    requires p.nBits > 0 && n > 0 && i < |keys| && |keys| - n <= i
    ensures RollingContains(p, n, Run(p, n, keys), keys[i])
  {
    RunStaggered(p, n, keys);
    var r := Run(p, n, keys);
    if r.nInsertions < n {
      assert HoldsAt(p, r.b2, keys, i);
    } else {
      assert HoldsAt(p, r.b1, keys, i);
    }
  }

  /* ---- Exactly what is contained ---- */

  /** Some hash of one of the keys from `from` on leads to bit `x`. */
  ghost predicate Hashed(p: Params, keys: seq<Key>, from: int, x: nat)
    requires p.nBits > 0
  {
    exists m: nat, j: nat :: from <= m < |keys| && j < p.nHashFuncs && HashIs(p, keys, m, j, x)
  }

  predicate HashIs(p: Params, keys: seq<Key>, m: nat, j: nat, x: nat)
    requires p.nBits > 0 && m < |keys|
  {
    p.hash(j, keys[m]) % p.nBits == x
  }

  /** The filter was cleared before the last `k` keys and has taken exactly those. */
  ghost predicate TookLast(p: Params, f: Filter, keys: seq<Key>, k: nat)
    requires p.nBits > 0
  {
    && !f.isFull && (f.isEmpty <==> k == 0)
    && forall x: nat :: x in f.bits <==> Hashed(p, keys, |keys| - k, x)
  }

  lemma {:induction false} IndicesAre(p: Params, key: Key, n: nat, x: nat)
    requires p.nBits > 0
    ensures x in Indices(p, key, n) <==> exists j: nat :: j < n && p.hash(j, key) % p.nBits == x
  {
    if n > 0 {
      IndicesAre(p, key, n - 1, x);
      assert Index(p, n - 1, key) == p.hash(n - 1, key) % p.nBits;
    }
  }

  lemma InsertTakes(p: Params, f: Filter, keys: seq<Key>, key: Key, k: nat)
    requires p.nBits > 0 && TookLast(p, f, keys, k) && k <= |keys|
    ensures TookLast(p, Insert(p, f, key), keys + [key], k + 1)
  {
    var f', keys' := Insert(p, f, key), keys + [key];
    forall x: nat
      ensures x in f'.bits <==> Hashed(p, keys', |keys| - k, x)
    {
      IndicesAre(p, key, p.nHashFuncs, x);
      HashedNext(p, keys, key, |keys| - k, x);
    }
  }

  lemma HashedNext(p: Params, keys: seq<Key>, key: Key, from: int, x: nat)
    requires p.nBits > 0 && from <= |keys|
    ensures Hashed(p, keys + [key], from, x) <==> Hashed(p, keys, from, x) || exists j: nat :: j < p.nHashFuncs && p.hash(j, key) % p.nBits == x
  {
    var keys' := keys + [key];
    if m: nat, j: nat :| from <= m < |keys| && j < p.nHashFuncs && HashIs(p, keys, m, j, x) {
      assert HashIs(p, keys', m, j, x);
    }
    if j: nat :| j < p.nHashFuncs && p.hash(j, key) % p.nBits == x {
      assert HashIs(p, keys', |keys|, j, x);
    }
    if m: nat, j: nat :| from <= m < |keys'| && j < p.nHashFuncs && HashIs(p, keys', m, j, x) {
      assert m < |keys| ==> HashIs(p, keys, m, j, x);
    }
  }

  lemma ClearedTookNone(p: Params, keys: seq<Key>)
    requires p.nBits > 0
    ensures TookLast(p, CLEARED, keys, 0)
  {
  }

  /** What the two filters have taken after `total` insertions: which of them was cleared last, and when. */
  ghost predicate Exact(p: Params, n: nat, r: Rolling, keys: seq<Key>)
    requires p.nBits > 0 && n > 0
  {
    && r.nInsertions == |keys| % (2 * n)
    && TookLast(p, r.b1, keys, if r.nInsertions == 0 then Min(|keys|, 2 * n) else r.nInsertions)
    && TookLast(p, r.b2, keys, if r.nInsertions <= n then Min(|keys|, n + r.nInsertions) else r.nInsertions - n)
  }

  lemma NextCount(k: nat, n: nat)
    requires n > 0
    ensures (k + 1) % (2 * n) == if k % (2 * n) + 1 == 2 * n then 0 else k % (2 * n) + 1
    ensures k % (2 * n) <= k && (k < 2 * n ==> k % (2 * n) == k)
  {
    var d, c := 2 * n, k % (2 * n);
    var q := k / d;
    assert k == d * q + c;
    if c + 1 == d {
      assert k + 1 == d * (q + 1);
      DivModUnique(k + 1, d, q + 1, 0);
    } else {
      DivModUnique(k + 1, d, q, c + 1);
    }
    if k < d {
      DivModUnique(k, d, 0, k);
    }
  }

  /** The filter after an insertion that may clear it first. */
  lemma TakesNext(p: Params, f: Filter, keys: seq<Key>, key: Key, all: seq<Key>, k: nat, clear: bool, k': nat)
    requires p.nBits > 0 && TookLast(p, f, keys, k) && k <= |keys| && all == keys + [key]
    requires k' == if clear then 1 else k + 1
    ensures TookLast(p, Insert(p, if clear then CLEARED else f, key), all, k')
  {
    if clear {
      ClearedTookNone(p, keys);
      InsertTakes(p, CLEARED, keys, key, 0);
    } else {
      InsertTakes(p, f, keys, key, k);
    }
  }

  lemma InsertExact(p: Params, n: nat, r: Rolling, keys: seq<Key>, key: Key, all: seq<Key>) returns (r': Rolling)
    requires p.nBits > 0 && n > 0 && Exact(p, n, r, keys) && all == keys + [key]
    ensures r' == RollingInsert(p, n, r, key) && Exact(p, n, r', all)
  {
    NextCount(|keys|, n);
    r' := RollingInsert(p, n, r, key);
    var c := r.nInsertions;
    var k1 := if c == 0 then Min(|keys|, 2 * n) else c;
    TakesNext(p, r.b1, keys, key, all, k1, c == 0, if c == 0 then 1 else k1 + 1);
    var k2 := if c <= n then Min(|keys|, n + c) else c - n;
    TakesNext(p, r.b2, keys, key, all, k2, c == n, if c == n then 1 else k2 + 1);
  }

  lemma StartExact(p: Params, n: nat)
    requires p.nBits > 0 && n > 0
    ensures Exact(p, n, RESET, [])
  {
    NextCount(0, n);
    ClearedTookNone(p, []);
  }

  lemma {:induction false} RunExact(p: Params, n: nat, keys: seq<Key>) returns (r: Rolling)
    requires p.nBits > 0 && n > 0
    ensures r == Run(p, n, keys) && Exact(p, n, r, keys)
  {
    if keys == [] {
      StartExact(p, n);
      r := RESET;
    } else {
      var init, last := keys[..|keys| - 1], keys[|keys| - 1];
      r := RunExact(p, n, init);
      r := InsertExact(p, n, r, init, last, keys);
    }
  }

  /**
   * Exactly what is contained after any number of insertions: the keys each of whose hashes is a hash of one of the
   * keys inserted since the filter that is read was cleared, at least the last `n` and fewer than twice as many.
   */
  lemma ContainsIff(p: Params, n: nat, keys: seq<Key>, key: Key)
    requires p.nBits > 0 && n > 0
    ensures var c := |keys| % (2 * n);
            var since := if c < n then Min(|keys|, n + c) else c;
            RollingContains(p, n, Run(p, n, keys), key) <==>
              keys != [] && forall i: nat | i < p.nHashFuncs :: Hashed(p, keys, |keys| - since, p.hash(i, key) % p.nBits)
  {
    var r := RunExact(p, n, keys);
    NextCount(|keys|, n);
    var c := r.nInsertions;
    var f := if c < n then r.b2 else r.b1;
    forall i: nat | i < p.nHashFuncs
      ensures p.hash(i, key) % p.nBits in Indices(p, key, p.nHashFuncs)
    {
      IndicesAre(p, key, p.nHashFuncs, p.hash(i, key) % p.nBits);
    }
    forall x | x in Indices(p, key, p.nHashFuncs)
      ensures exists i: nat :: i < p.nHashFuncs && p.hash(i, key) % p.nBits == x
    {
      IndicesAre(p, key, p.nHashFuncs, x);
    }
  }

  /* ---- The filters as bit arrays ---- */

  function Bit(k: nat): bv8
    requires k < 8
  {
    (1 as bv8) << k
  }

  predicate IsSet(v: bv8, k: nat)
    requires k < 8
  {
    v & Bit(k) != 0
  }

  lemma OrSets(v: bv8, k: nat, j: nat)
    requires k < 8 && j < 8
    ensures IsSet(v | Bit(k), j) <==> IsSet(v, j) || j == k
  {
  }

  class BloomFilter {
    var vData: seq<bv8>
    var isFull: bool
    var isEmpty: bool
    const p: Params

    ghost predicate Valid()
      reads this
    {
      |vData| > 0 && p.nBits == 8 * |vData|
    }

    ghost function Value(): Filter
      requires Valid()
      reads this
    {
      Filter(BitsOf(vData), isFull, isEmpty)
    }

    /** An empty filter of `size` bytes. */
    constructor (size: nat, hash: (nat, Key) -> nat, nHashFuncs: nat)
      requires size > 0
      ensures Valid() && Value() == CLEARED && p == Params(hash, nHashFuncs, 8 * size)
    {
      vData := seq(size, i => 0);
      isFull, isEmpty := false, true;
      p := Params(hash, nHashFuncs, 8 * size);
      new;
      ZeroBits(vData);
    }

    method Clear()
      requires Valid()
      modifies this
      ensures Valid() && Value() == CLEARED
    {
      vData := seq(|vData|, i => 0);
      isFull, isEmpty := false, true;
      ZeroBits(vData);
    }

    method InsertKey(vKey: Key)
      requires Valid()
      modifies this
      ensures Valid() && Value() == Insert(p, old(Value()), vKey)
    {
      if isFull {
        return;
      }
      ghost var bits := BitsOf(vData);
      for i := 0 to p.nHashFuncs
        invariant Valid() && !isFull && BitsOf(vData) == bits + Indices(p, vKey, i)
      {
        SetBit(Index(p, i, vKey));
      }
      isEmpty := false;
    }

    method SetBit(nIndex: nat)
      requires Valid() && nIndex < p.nBits
      modifies this`vData
      ensures Valid() && BitsOf(vData) == old(BitsOf(vData)) + {nIndex}
    {
      SetBitSets(vData, nIndex);
      vData := vData[nIndex / 8 := vData[nIndex / 8] | Bit(nIndex % 8)];
    }

    method ContainsKey(vKey: Key) returns (r: bool)
      requires Valid()
      ensures r == Contains(p, Value(), vKey)
    {
      if isFull {
        return true;
      }
      if isEmpty {
        return false;
      }
      for i := 0 to p.nHashFuncs
        invariant Indices(p, vKey, i) <= BitsOf(vData)
      {
        var nIndex := Index(p, i, vKey);
        if !IsSet(vData[nIndex / 8], nIndex % 8) {
          IndexIn(p, vKey, i, p.nHashFuncs);
          return false;
        }
      }
      return true;
    }
  }

  ghost function BitsOf(v: seq<bv8>): set<nat> {
    set i: nat | i < 8 * |v| && IsSet(v[i / 8], i % 8)
  }

  lemma ZeroBits(v: seq<bv8>)
    requires forall i | 0 <= i < |v| :: v[i] == 0
    ensures BitsOf(v) == {}
  {
    forall i: nat | i < 8 * |v|
      ensures !IsSet(v[i / 8], i % 8)
    {
      ZeroNotSet(i % 8);
    }
  }

  lemma ZeroNotSet(k: nat)
    requires k < 8
    ensures !IsSet(0, k)
  {
  }

  lemma SetBitSets(v: seq<bv8>, n: nat)
    requires n < 8 * |v|
    ensures BitsOf(v[n / 8 := v[n / 8] | Bit(n % 8)]) == BitsOf(v) + {n}
  {
    var v' := v[n / 8 := v[n / 8] | Bit(n % 8)];
    forall i: nat | i < 8 * |v|
      ensures IsSet(v'[i / 8], i % 8) <==> IsSet(v[i / 8], i % 8) || i == n
    {
      OrSets(v[n / 8], n % 8, i % 8);
    }
  }

  lemma {:induction false} IndexIn(p: Params, key: Key, i: nat, n: nat)
    requires p.nBits > 0 && i < n
    ensures Index(p, i, key) in Indices(p, key, n)
  {
    if i < n - 1 {
      IndexIn(p, key, i, n - 1);
    }
  }

  class RollingBloomFilter {
    const b1: BloomFilter
    const b2: BloomFilter
    const nBloomSize: nat
    var nInsertions: nat

    ghost predicate Valid()
      reads this, b1, b2
    {
      b1 != b2 && b1.Valid() && b2.Valid() && b1.p == b2.p && nBloomSize % 2 == 0
    }

    ghost function Value(): Rolling
      requires Valid()
      reads this, b1, b2
    {
      Rolling(b1.Value(), b2.Value(), nInsertions)
    }

    /** A filter for the last `nElements` insertions; the size of the bit arrays comes from the caller. */
    constructor (nElements: nat, size: nat, hash: (nat, Key) -> nat, nHashFuncs: nat)
      requires size > 0
      ensures Valid() && fresh(b1) && fresh(b2) && nBloomSize == 2 * nElements
      ensures Value() == RESET && b1.p == Params(hash, nHashFuncs, 8 * size)
    {
      b1 := new BloomFilter(size, hash, nHashFuncs);
      b2 := new BloomFilter(size, hash, nHashFuncs);
      nBloomSize := nElements * 2;
      nInsertions := 0;
    }

    method InsertKey(vKey: Key)
      requires Valid()
      modifies this, b1, b2
      ensures Valid() && Value() == RollingInsert(b1.p, nBloomSize / 2, old(Value()), vKey)
    {
      if nInsertions == 0 {
        b1.Clear();
      } else if nInsertions == nBloomSize / 2 {
        b2.Clear();
      }
      b1.InsertKey(vKey);
      b2.InsertKey(vKey);
      nInsertions := nInsertions + 1;
      if nInsertions == nBloomSize {
        nInsertions := 0;
      }
    }

    method ContainsKey(vKey: Key) returns (r: bool)
      requires Valid()
      ensures r == RollingContains(b1.p, nBloomSize / 2, Value(), vKey)
    {
      if nInsertions < nBloomSize / 2 {
        r := b2.ContainsKey(vKey);
      } else {
        r := b1.ContainsKey(vKey);
      }
    }
  }
}
