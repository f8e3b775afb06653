/** The budget rules in terms of the blocks, budgets and records themselves. */
module BudgetLaws {
  import opened Prelude
  import opened Budget

  /** The outputs that are a payment: its script and its amount, both. */
  function Paying(p: Payment, vout: seq<TxOut>): set<int> {
    set i | 0 <= i < |vout| && vout[i] == TxOut(p.payee, p.nAmount)
  }

  lemma CountIs(p: Payment, vout: seq<TxOut>)
    ensures Count(p, vout) == |Paying(p, vout)|
  {
    CountFrom(p, vout, 0);
    assert vout[0..] == vout;
    assert Paying(p, vout) == set i | 0 <= i < |vout| && vout[i] == TxOut(p.payee, p.nAmount);
  }

  lemma {:induction false} CountFrom(p: Payment, vout: seq<TxOut>, k: nat)
    requires k <= |vout|
    ensures Count(p, vout[k..]) == |set i | k <= i < |vout| && vout[i] == TxOut(p.payee, p.nAmount)|
    decreases |vout| - k
  {
    var from := set i | k <= i < |vout| && vout[i] == TxOut(p.payee, p.nAmount);
    if k < |vout| {
      CountFrom(p, vout, k + 1);
      assert vout[k..][1..] == vout[k + 1..];
      var next := set i | k + 1 <= i < |vout| && vout[i] == TxOut(p.payee, p.nAmount);
      if vout[k] == TxOut(p.payee, p.nAmount) {
        assert from == next + {k};
      } else {
        assert from == next;
      }
    } else {
      assert from == {};
    }
  }

  /** The height is one of the budget's blocks. */
  predicate Covers(b: FinalizedBudget, height: int) {
    b.blockStart <= height < b.blockStart + |b.payments|
  }

  /** What is left of the records, and what is added, when a budget finds its payment in a block. */
  predicate RecordsAfter(b: FinalizedBudget, before: History, after: History, p: Payment, height: int, q: uint256) {
    if q in before && Covers(b, before[q]) then q in after && after[q] == before[q]
    else if q == p.proposal then q in after && after[q] == height
    else q !in after
  }

  /**
   * The verdict of one budget: nothing to say outside its blocks or if no output is the payment due; otherwise valid
   * exactly if one output is, in script and amount, and the proposal has no record in its blocks. The records of
   * other blocks are dropped, and the proposal gets its record.
   */
  lemma VerdictIs(b: FinalizedBudget, history: History, vout: seq<TxOut>, height: int)
    ensures var v := CheckBudget(b, history, vout, height);
            if !Covers(b, height) || Paying(b.payments[height - b.blockStart], vout) == {} then v == Verdict(InValid, history)
            else
              var p := b.payments[height - b.blockStart];
              && v.status == (if |Paying(p, vout)| == 1 && !(p.proposal in history && Covers(b, history[p.proposal])) then Valid else DoublePayment)
              && forall q :: RecordsAfter(b, history, v.history, p, height, q)
  {
    if Covers(b, height) {
      var p := b.payments[height - b.blockStart];
      CountIs(p, vout);
      CheckOutputsIs(b, history, p, vout, height, InValid);
      CheckBudgetIff(b, history, vout, height);
      assert Paying(p, vout) == {} <==> |Paying(p, vout)| == 0;
    }
  }

  /* ---- All budgets ---- */

  /** The most votes are a bound that is reached, unless no budget for the height has any. */
  lemma {:induction false} MostIs(budgets: seq<FinalizedBudget>, height: int, start: int)
    ensures var most := Highest(budgets, height, start);
            && most >= start
            && (forall i | 0 <= i < |budgets| && Covers(budgets[i], height) :: budgets[i].votes <= most)
            && (most > start ==> exists i :: 0 <= i < |budgets| && Covers(budgets[i], height) && budgets[i].votes == most)
  {
    if budgets != [] {
      var init := budgets[..|budgets| - 1];
      MostIs(init, height, start);
      var most := Highest(budgets, height, start);
      if most > start && Highest(init, height, start) == most {
        var i :| 0 <= i < |init| && Covers(init[i], height) && init[i].votes == most;
        assert budgets[i] == init[i];
      }
      assert forall i | 0 <= i < |init| :: budgets[i] == init[i];
    }
  }

  /** A height has a budget payment exactly if some budget for it has more than a twentieth of the masternodes' votes. */
  lemma PaymentBlockIff(budgets: seq<FinalizedBudget>, enabled: nat, height: int)
    ensures IsBudgetPaymentBlock(budgets, enabled, height) <==>
              exists i :: 0 <= i < |budgets| && Covers(budgets[i], height) && budgets[i].votes > enabled / 20
  {
    MostIs(budgets, height, -1);
  }

  /** The budget that a block is filled from: the first of those with the most votes. */
  predicate IsFirstBest(budgets: seq<FinalizedBudget>, height: int, i: nat) {
    && i < |budgets| && Covers(budgets[i], height) && budgets[i].votes > 0
    && (forall k | 0 <= k < |budgets| && Covers(budgets[k], height) :: budgets[k].votes <= budgets[i].votes)
    && (forall k | 0 <= k < i && Covers(budgets[k], height) :: budgets[k].votes < budgets[i].votes)
  }

  lemma {:induction false} ChosenIs(budgets: seq<FinalizedBudget>, height: int)
    ensures var b := Chosen(budgets, height);
            if b.Some? then exists i: nat :: IsFirstBest(budgets, height, i) && budgets[i] == b.value
            else forall k | 0 <= k < |budgets| && Covers(budgets[k], height) :: budgets[k].votes == 0
  {
    if budgets != [] {
      var init, last := budgets[..|budgets| - 1], |budgets| - 1;
      ChosenIs(init, height);
      MostIs(init, height, 0);
      assert forall k | 0 <= k < |init| :: budgets[k] == init[k];
      var b := Chosen(budgets, height);
      if budgets[last].votes > Highest(init, height, 0) && Covers(budgets[last], height) {
        assert IsFirstBest(budgets, height, last);
      } else if b.Some? {
        var i: nat :| IsFirstBest(init, height, i) && init[i] == b.value;
        assert IsFirstBest(budgets, height, i);
      }
    }
  }

  /** A block is filled with the outputs of the reward and, if a budget for the height has a vote, the payment of the first best one. */
  lemma FilledIs(budgets: seq<FinalizedBudget>, reward: seq<TxOut>, height: int)
    ensures var vout := FillBlockPayee(budgets, reward, height);
            if forall k | 0 <= k < |budgets| && Covers(budgets[k], height) :: budgets[k].votes == 0 then vout == reward
            else exists i: nat :: IsFirstBest(budgets, height, i) &&
                   var p := budgets[i].payments[height - budgets[i].blockStart];
                   vout == reward + [TxOut(p.payee, p.nAmount)]
  {
    ChosenIs(budgets, height);
  }

  /** The first `n` checks are made, none before the last of them finds the block valid, and that one gives the verdict. */
  ghost predicate Settles(checks: seq<Check>, history: History, n: nat, status: Status, v: Verdict) {
    && n <= |checks| && v.history == After(checks[..n], history)
    && (forall k: nat | k + 1 < n :: !FindsValid(checks, history, k))
    && v.status == (if n == 0 then status else Judge(checks[n - 1], After(checks[..n - 1], history)).status)
    && (v.status != Valid ==> n == |checks|)
  }

  predicate FindsValid(checks: seq<Check>, history: History, k: nat)
    requires k < |checks|
  {
    Judge(checks[k], After(checks[..k], history)).status == Valid
  }

  /** The manager's verdict in general: the checks are made in order, up to the first that finds the block valid. */
  lemma {:induction false} CheckAllIs(budgets: seq<FinalizedBudget>, floor: int, history: History, vout: seq<TxOut>, height: int, status: Status)
    returns (n: nat)
    requires status != Valid
    ensures Settles(Checks(budgets, floor, vout, height), history, n, status, CheckAll(budgets, floor, history, vout, height, status))
    decreases |budgets|
  {
    if budgets == [] {
      n := 0;
      assert Checks(budgets, floor, vout, height)[..0] == [];
    } else {
      var rest := Checks(budgets[1..], floor, vout, height);
      if budgets[0].votes > floor && budgets[0].InWindow(height) {
        var c := Check(budgets[0], vout, height);
        var v := Judge(c, history);
        if v.status == Valid {
          n := 1;
          assert ([c] + rest)[..1] == [c] && ([c] + rest)[..0] == [] && [c][..0] == [];
        } else {
          n := CheckAllIs(budgets[1..], floor, v.history, vout, height, v.status);
          SettlesFront(c, rest, history, n, status, CheckAll(budgets[1..], floor, v.history, vout, height, v.status));
          n := n + 1;
        }
      } else {
        assert [] + rest == rest;
        n := CheckAllIs(budgets[1..], floor, history, vout, height, status);
      }
    }
  }

  lemma SettlesFront(c: Check, rest: seq<Check>, history: History, n: nat, status: Status, v: Verdict)
    requires Judge(c, history).status != Valid && Settles(rest, Judge(c, history).history, n, Judge(c, history).status, v)
    ensures Settles([c] + rest, history, n + 1, status, v)
  {
    var all := [c] + rest;
    FrontCheck(c, rest, history, n);
    forall k: nat | k < n
      ensures !FindsValid(all, history, k)
    {
      if k > 0 {
        FrontCheck(c, rest, history, k - 1);
        assert !FindsValid(rest, Judge(c, history).history, k - 1);
      }
    }
    if n > 0 {
      FrontCheck(c, rest, history, n - 1);
    }
  }

  lemma FrontCheck(c: Check, rest: seq<Check>, history: History, k: nat)
    requires k <= |rest|
    ensures var all := [c] + rest;
            all[..0] == [] && After(all[..k + 1], history) == After(rest[..k], Judge(c, history).history)
  {
    assert ([c] + rest)[..k + 1] == [c] + rest[..k];
    AfterFront(c, rest[..k], history);
  }

  /** A block is accepted only if exactly one output is the payment, in script and amount, of a budget with enough votes. */
  lemma AcceptedPays(budgets: seq<FinalizedBudget>, enabled: nat, history: History, vout: seq<TxOut>, height: int)
    requires CheckBlock(budgets, enabled, history, vout, height).status == Valid
    ensures exists i :: && 0 <= i < |budgets| && Covers(budgets[i], height)
                        && (forall k | 0 <= k < |budgets| && Covers(budgets[k], height) :: budgets[k].votes - enabled / 10 < budgets[i].votes)
                        && |Paying(budgets[i].payments[height - budgets[i].blockStart], vout)| == 1
  {
    var most := Highest(budgets, height, 0);
    MostIs(budgets, height, 0);
    var i := Accepting(budgets, most - enabled / 10, history, vout, height, InValid);
  }

  lemma {:induction false} Accepting(budgets: seq<FinalizedBudget>, floor: int, history: History, vout: seq<TxOut>, height: int, status: Status)
    returns (i: nat)
    requires status != Valid && CheckAll(budgets, floor, history, vout, height, status).status == Valid
    ensures i < |budgets| && budgets[i].votes > floor && Covers(budgets[i], height)
    ensures |Paying(budgets[i].payments[height - budgets[i].blockStart], vout)| == 1
    decreases |budgets|
  {
    if budgets[0].votes > floor && budgets[0].InWindow(height) {
      var v := CheckBudget(budgets[0], history, vout, height);
      if v.status == Valid {
        VerdictIs(budgets[0], history, vout, height);
        i := 0;
      } else {
        i := Accepting(budgets[1..], floor, v.history, vout, height, v.status);
        i := i + 1;
      }
    } else {
      i := Accepting(budgets[1..], floor, history, vout, height, status);
      i := i + 1;
    }
  }
}
