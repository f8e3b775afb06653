/** The value stored per transaction in the unspent-output set (`CCoins`). */
module Coins {
  import opened Prelude

  /** A transaction output; a spent output is kept as a null one until it can be trimmed. */
  datatype TxOut = TxOut(nValue: int, scriptPubKey: seq<byte>) {
    predicate IsNull() { nValue == -1 }
  }

  /** Drop the spent outputs at the end of the vector. */
  function Trim(vout: seq<TxOut>): (r: seq<TxOut>)
    ensures r <= vout
    ensures forall i | |r| <= i < |vout| :: vout[i].IsNull()
    ensures r != [] ==> !r[|r| - 1].IsNull()
  {
    if vout != [] && vout[|vout| - 1].IsNull() then Trim(vout[..|vout| - 1]) else vout
  }

  datatype Coins = Coins(fCoinBase: bool, vout: seq<TxOut>, nHeight: int, nVersion: int) {

    /** Whether every output is spent. */
    predicate IsPruned() {
      forall i | 0 <= i < |vout| :: vout[i].IsNull()
    }

    function Cleanup(): Coins {
      this.(vout := Trim(vout))
    }

    /** The source's equality: all pruned values are the same value. */
    predicate Equiv(that: Coins) {
      (IsPruned() && that.IsPruned()) || this == that
    }
  }

  const EMPTY := Coins(false, [], 0, 0)

  /** Releasing a modifier trims the value; trimming never changes whether it is pruned. */
  lemma CleanupIsPruned(c: Coins)
    ensures c.Cleanup().IsPruned() <==> c.IsPruned()
    ensures c.IsPruned() <==> c.Cleanup().vout == []
  {
    var r := Trim(c.vout);
    if r != [] {
      assert c.vout[|r| - 1] == r[|r| - 1];
    }
  }

  /** Memory charged for the outputs: one unit per output slot plus its script bytes. */
  function Usage(c: Coins): nat {
    OutputsUsage(c.vout)
  }

  function OutputsUsage(vout: seq<TxOut>): nat {
    if vout == [] then 0 else 1 + |vout[0].scriptPubKey| + OutputsUsage(vout[1..])
  }
}
