/**
 * Superblock payments of the masternode budget: which payment a block is filled with, whether a block's
 * payment is accepted, and the payment history that stops proposals from being paid twice.
 */
module Budget {
  import opened Prelude

  type Script = seq<byte>

  datatype TxOut = TxOut(scriptPubKey: Script, nValue: int)

  datatype Payment = Payment(proposal: uint256, payee: Script, nAmount: int)

  /** A finalized budget: one payment per block from its start on, and how many masternodes voted for it. */
  datatype FinalizedBudget = FinalizedBudget(blockStart: int, payments: seq<Payment>, votes: nat) {
    function BlockEnd(): int { blockStart + |payments| - 1 }

    predicate InWindow(height: int) { blockStart <= height <= BlockEnd() }

    function PaymentAt(height: int): Payment
      requires InWindow(height)
    {
      payments[height - blockStart]
    }
  }

  datatype Status = InValid | Valid | DoublePayment

  /** Which proposal was paid at which height. There is one history for all budgets. */
  type History = map<uint256, int>

  /* ---- One budget ---- */

  /** The records that a check by this budget leaves: those of its own blocks. */
  function Purge(b: FinalizedBudget, history: History): History {
    map p | p in history && b.InWindow(history[p]) :: history[p]
  }

  datatype Paid = Paid(already: bool, history: History)

  /** Whether a proposal was paid in the window of this budget; if not, that is recorded now. */
  function IsPaidAlready(b: FinalizedBudget, history: History, proposal: uint256, height: int): Paid {
    var kept := Purge(b, history);
    if proposal in kept then Paid(true, kept) else Paid(false, kept[proposal := height])
  }

  datatype Verdict = Verdict(status: Status, history: History)

  predicate Matches(p: Payment, out: TxOut) {
    p.payee == out.scriptPubKey && p.nAmount == out.nValue
  }

  /** The loop over the outputs: each one that matches the payment is looked up in the history. */
  function CheckOutputs(b: FinalizedBudget, history: History, p: Payment, vout: seq<TxOut>, height: int, status: Status): Verdict
    decreases |vout|
  {
    if vout == [] then Verdict(status, history)
    else if !Matches(p, vout[0]) then CheckOutputs(b, history, p, vout[1..], height, status)
    else
      var paid := IsPaidAlready(b, history, p.proposal, height);
      if paid.already then Verdict(DoublePayment, paid.history)
      else CheckOutputs(b, paid.history, p, vout[1..], height, Valid)
  }

  /** The source's `CFinalizedBudget::IsTransactionValid`. */
  function CheckBudget(b: FinalizedBudget, history: History, vout: seq<TxOut>, height: int): Verdict {
    if !b.InWindow(height) then Verdict(InValid, history)
    else CheckOutputs(b, history, b.PaymentAt(height), vout, height, InValid)
  }

  function Count(p: Payment, vout: seq<TxOut>): nat {
    if vout == [] then 0 else (if Matches(p, vout[0]) then 1 else 0) + Count(p, vout[1..])
  }

  /** A proposal has a record that this budget keeps. */
  predicate Recorded(b: FinalizedBudget, history: History, proposal: uint256) {
    proposal in history && b.InWindow(history[proposal])
  }

  lemma {:induction false} CheckOutputsIs(b: FinalizedBudget, history: History, p: Payment, vout: seq<TxOut>, height: int, status: Status)
    requires b.InWindow(height)
    ensures var v := CheckOutputs(b, history, p, vout, height, status);
            var n := Count(p, vout);
            && (n == 0 ==> v == Verdict(status, history))
            && (n > 0 ==> v.history == IsPaidAlready(b, history, p.proposal, height).history)
            && (n > 0 && Recorded(b, history, p.proposal) ==> v.status == DoublePayment)
            && (n > 1 ==> v.status == DoublePayment)
            && (n == 1 && !Recorded(b, history, p.proposal) ==> v.status == Valid)
    decreases |vout|
  {
    if vout != [] {
      if Matches(p, vout[0]) {
        var paid := IsPaidAlready(b, history, p.proposal, height);
        PaidTwice(b, history, p.proposal, height);
        if !paid.already {
          CheckOutputsIs(b, paid.history, p, vout[1..], height, Valid);
        }
      } else {
        CheckOutputsIs(b, history, p, vout[1..], height, status);
      }
    }
  }

  /** Looking a proposal up records it, and looking again changes nothing. */
  lemma PaidTwice(b: FinalizedBudget, history: History, proposal: uint256, height: int)
    requires b.InWindow(height)
    ensures var paid := IsPaidAlready(b, history, proposal, height);
            && (paid.already <==> Recorded(b, history, proposal))
            && Recorded(b, paid.history, proposal)
            && IsPaidAlready(b, paid.history, proposal, height) == Paid(true, paid.history)
  {
    var paid := IsPaidAlready(b, history, proposal, height);
    assert Purge(b, paid.history) == paid.history;
  }

  /**
   * A block is judged valid by a budget if and only if the height is in its window, exactly one output is the
   * payment for that height, and the proposal has no record in the window.
   */
  lemma CheckBudgetIff(b: FinalizedBudget, history: History, vout: seq<TxOut>, height: int)
    ensures var v := CheckBudget(b, history, vout, height);
            && (v.status == Valid <==>
                  b.InWindow(height) && Count(b.PaymentAt(height), vout) == 1 && !Recorded(b, history, b.PaymentAt(height).proposal))
            && (v.status == InValid <==> !b.InWindow(height) || Count(b.PaymentAt(height), vout) == 0)
            && (v.status == Valid ==> Recorded(b, v.history, b.PaymentAt(height).proposal))
  {
    if b.InWindow(height) {
      var p := b.PaymentAt(height);
      CheckOutputsIs(b, history, p, vout, height, InValid);
      PaidTwice(b, history, p.proposal, height);
    }
  }

  /* ---- Runs of checks ---- */

  datatype Check = Check(budget: FinalizedBudget, vout: seq<TxOut>, height: int)

  function Judge(c: Check, history: History): Verdict {
    CheckBudget(c.budget, history, c.vout, c.height)
  }

  /** The check looks at the payment history at all. */
  predicate Reaches(c: Check) {
    c.budget.InWindow(c.height) && Count(c.budget.PaymentAt(c.height), c.vout) > 0
  }

  function After(checks: seq<Check>, history: History): History {
    if checks == [] then history else Judge(checks[|checks| - 1], After(checks[..|checks| - 1], history)).history
  }

  /** What a check makes of the record of a proposal: kept in the window, else dropped, and written anew if it is paid. */
  function NextRecord(c: Check, record: Option<int>, proposal: uint256): Option<int> {
    if !Reaches(c) || (record.Some? && c.budget.InWindow(record.value)) then record
    else if c.budget.PaymentAt(c.height).proposal == proposal then Some(c.height)
    else None
  }

  /** The record of a proposal after a run of checks, as told by the checks alone. */
  function RecordOf(checks: seq<Check>, record: Option<int>, proposal: uint256): Option<int> {
    if checks == [] then record else NextRecord(checks[|checks| - 1], RecordOf(checks[..|checks| - 1], record, proposal), proposal)
  }

  lemma NextRecordIs(c: Check, history: History, proposal: uint256)
    ensures Get(Judge(c, history).history, proposal) == NextRecord(c, Get(history, proposal), proposal)
  {
    if c.budget.InWindow(c.height) {
      CheckOutputsIs(c.budget, history, c.budget.PaymentAt(c.height), c.vout, c.height, InValid);
    }
  }

  /** The payment history after any run of checks, record by record. */
  lemma {:induction false} RecordIs(checks: seq<Check>, history: History, proposal: uint256)
    ensures Get(After(checks, history), proposal) == RecordOf(checks, Get(history, proposal), proposal)
  {
    if checks != [] {
      var init := checks[..|checks| - 1];
      RecordIs(init, history, proposal);
      NextRecordIs(checks[|checks| - 1], After(init, history), proposal);
    }
  }

  /** A record outlives a check if and only if the check leaves the history alone or is by a budget whose window covers it. */
  lemma RecordSurvivesIff(c: Check, history: History, proposal: uint256)
    requires proposal in history
    ensures Get(Judge(c, history).history, proposal) == Some(history[proposal]) <==>
      !Reaches(c) || c.budget.InWindow(history[proposal])
  {
    NextRecordIs(c, history, proposal);
  }

  /** A check that was judged valid records its proposal at its own height. */
  lemma ValidRecords(c: Check, history: History)
    requires Judge(c, history).status == Valid
    ensures c.budget.InWindow(c.height)
    ensures Get(Judge(c, history).history, c.budget.PaymentAt(c.height).proposal) == Some(c.height)
  {
    CheckBudgetIff(c.budget, history, c.vout, c.height);
    CheckOutputsIs(c.budget, history, c.budget.PaymentAt(c.height), c.vout, c.height, InValid);
  }

  /**
   * When a proposal that was judged valid is judged valid again, after any run of checks by any budgets: if and
   * only if the block pays it once and the run has left no record of it in the window of the judging budget.
   */
  lemma ValidAgainIff(first: Check, history: History, between: seq<Check>, second: Check)
    requires Judge(first, history).status == Valid
    requires first.budget.InWindow(first.height) && second.budget.InWindow(second.height)
    requires second.budget.PaymentAt(second.height).proposal == first.budget.PaymentAt(first.height).proposal
    ensures var p := second.budget.PaymentAt(second.height);
            var record := RecordOf(between, Some(first.height), p.proposal);
            Judge(second, After(between, Judge(first, history).history)).status == Valid <==>
              Count(p, second.vout) == 1 && !(record.Some? && second.budget.InWindow(record.value))
  {
    var h1 := Judge(first, history).history;
    ValidRecords(first, history);
    RecordIs(between, h1, first.budget.PaymentAt(first.height).proposal);
    CheckBudgetIff(second.budget, After(between, h1), second.vout, second.height);
  }

  /** No check of the run drops a record at the given height. */
  predicate Covered(checks: seq<Check>, height: int) {
    forall i | 0 <= i < |checks| :: Reaches(checks[i]) ==> checks[i].budget.InWindow(height)
  }

  lemma {:induction false} CoveredKeeps(checks: seq<Check>, height: int, proposal: uint256)
    requires Covered(checks, height)
    ensures RecordOf(checks, Some(height), proposal) == Some(height)
  {
    if checks != [] {
      CoveredKeeps(checks[..|checks| - 1], height, proposal);
    }
  }

  /**
   * In particular: if every check that looked at the history since then was by a budget whose window covers
   * that height, the proposal is not judged valid again.
   */
  lemma {:induction false} NotValidAgain(first: Check, history: History, between: seq<Check>, second: Check)
    requires Judge(first, history).status == Valid && Covered(between + [second], first.height)
    requires first.budget.InWindow(first.height) && second.budget.InWindow(second.height)
    requires second.budget.PaymentAt(second.height).proposal == first.budget.PaymentAt(first.height).proposal
    ensures Judge(second, After(between, Judge(first, history).history)).status != Valid
  {
    assert Covered(between, first.height) by {
      assert forall i | 0 <= i < |between| :: (between + [second])[i] == between[i];
    }
    CoveredKeeps(between, first.height, first.budget.PaymentAt(first.height).proposal);
    assert (between + [second])[|between|] == second;
    ValidAgainIff(first, history, between, second);
  }

  /** For one budget on its own, no proposal is ever judged valid twice. */
  lemma {:induction false} OneBudgetPaysOnce(b: FinalizedBudget, first: Check, history: History, between: seq<Check>, second: Check)
    requires first.budget == b && second.budget == b && forall i | 0 <= i < |between| :: between[i].budget == b
    requires Judge(first, history).status == Valid && b.InWindow(first.height) && b.InWindow(second.height)
    requires b.PaymentAt(second.height).proposal == b.PaymentAt(first.height).proposal
    ensures Judge(second, After(between, Judge(first, history).history)).status != Valid
  {
    assert forall i | 0 <= i < |between + [second]| :: (between + [second])[i].budget == b;
    NotValidAgain(first, history, between, second);
  }

  /** With another budget's check in between, a proposal can be judged valid twice: the record of the first time is gone. */
  lemma OtherBudgetForgets(p: Payment, q: Payment)
    requires p.proposal != q.proposal
    ensures var b, other := FinalizedBudget(100, [p], 1), FinalizedBudget(200, [q], 1);
            var pay, paid := Check(b, [TxOut(p.payee, p.nAmount)], 100), Check(other, [TxOut(q.payee, q.nAmount)], 200);
            && Judge(pay, map[]).status == Valid
            && Judge(pay, After([paid], Judge(pay, map[]).history)).status == Valid
  {
    var b, other := FinalizedBudget(100, [p], 1), FinalizedBudget(200, [q], 1);
    var pay, paid := Check(b, [TxOut(p.payee, p.nAmount)], 100), Check(other, [TxOut(q.payee, q.nAmount)], 200);
    var h1 := Judge(pay, map[]).history;
    CheckBudgetIff(b, map[], pay.vout, 100);
    ValidRecords(pay, map[]);
    assert [paid][..0] == [];
    var h2 := Judge(paid, h1).history;
    CheckOutputsIs(other, h1, q, paid.vout, 200, InValid);
    CheckBudgetIff(b, h2, pay.vout, 100);
  }

  /* ---- All budgets ---- */

  /** The most votes above `start` of any budget whose window covers the height. */
  function Highest(budgets: seq<FinalizedBudget>, height: int, start: int): int {
    if budgets == [] then start
    else
      var b, most := budgets[|budgets| - 1], Highest(budgets[..|budgets| - 1], height, start);
      if b.votes > most && b.InWindow(height) then b.votes else most
  }

  /** The budget a block is filled from: the first with the most votes, if any has one. */
  function Chosen(budgets: seq<FinalizedBudget>, height: int): (r: Option<FinalizedBudget>)
    ensures r.Some? ==> r.value.InWindow(height) && r.value in budgets
    ensures if r.Some? then r.value.votes == Highest(budgets, height, 0) > 0 else Highest(budgets, height, 0) == 0
  {
    if budgets == [] then None
    else
      var b, best := budgets[|budgets| - 1], Chosen(budgets[..|budgets| - 1], height);
      if b.votes > Highest(budgets[..|budgets| - 1], height, 0) && b.InWindow(height) then Some(b) else best
  }

  /** The outputs of a budget block: those of the block reward, then the budget payment. */
  function FillBlockPayee(budgets: seq<FinalizedBudget>, reward: seq<TxOut>, height: int): seq<TxOut> {
    match Chosen(budgets, height)
    case None => reward
    case Some(b) => reward + [TxOut(b.PaymentAt(height).payee, b.PaymentAt(height).nAmount)]
  }

  predicate IsBudgetPaymentBlock(budgets: seq<FinalizedBudget>, enabled: nat, height: int) {
    Highest(budgets, height, -1) > enabled / 20
  }

  /** The loop over the budgets with enough votes; the first that judges the block valid settles it. */
  function CheckAll(budgets: seq<FinalizedBudget>, floor: int, history: History, vout: seq<TxOut>, height: int, status: Status): Verdict
    decreases |budgets|
  {
    if budgets == [] then Verdict(status, history)
    else if budgets[0].votes > floor && budgets[0].InWindow(height) then
      var v := CheckBudget(budgets[0], history, vout, height);
      if v.status == Valid then v else CheckAll(budgets[1..], floor, v.history, vout, height, v.status)
    else CheckAll(budgets[1..], floor, history, vout, height, status)
  }

  /** The source's `CBudgetManager::IsTransactionValid`. */
  function CheckBlock(budgets: seq<FinalizedBudget>, enabled: nat, history: History, vout: seq<TxOut>, height: int): Verdict {
    var most := Highest(budgets, height, 0);
    if most < enabled / 20 then Verdict(InValid, history) else CheckAll(budgets, most - enabled / 10, history, vout, height, InValid)
  }

  lemma {:induction false} HighestFromZero(budgets: seq<FinalizedBudget>, height: int)
    ensures Highest(budgets, height, 0) == if Highest(budgets, height, -1) > 0 then Highest(budgets, height, -1) else 0
  {
    if budgets != [] {
      HighestFromZero(budgets[..|budgets| - 1], height);
    }
  }

  lemma {:induction false} HighestBounds(budgets: seq<FinalizedBudget>, height: int, i: nat)
    requires i < |budgets| && budgets[i].InWindow(height)
    ensures budgets[i].votes <= Highest(budgets, height, 0)
  {
    if i < |budgets| - 1 {
      HighestBounds(budgets[..|budgets| - 1], height, i);
    }
  }

  /** The checks a block goes through until one of them accepts it. */
  function Checks(budgets: seq<FinalizedBudget>, floor: int, vout: seq<TxOut>, height: int): (r: seq<Check>)
    ensures forall i | 0 <= i < |r| :: r[i].budget.InWindow(r[i].height)
  {
    if budgets == [] then []
    else
      (if budgets[0].votes > floor && budgets[0].InWindow(height) then [Check(budgets[0], vout, height)] else [])
      + Checks(budgets[1..], floor, vout, height)
  }

  /** Check `i` finds its payment once, and no record of the proposal that its budget's window covers. */
  predicate Pays(checks: seq<Check>, history: History, i: nat)
    requires i < |checks| && checks[i].budget.InWindow(checks[i].height)
  {
    var p := checks[i].budget.PaymentAt(checks[i].height);
    var record := RecordOf(checks[..i], Get(history, p.proposal), p.proposal);
    Count(p, checks[i].vout) == 1 && !(record.Some? && checks[i].budget.InWindow(record.value))
  }

  lemma PaysIsValid(checks: seq<Check>, history: History, i: nat)
    requires i < |checks| && checks[i].budget.InWindow(checks[i].height)
    ensures Pays(checks, history, i) <==> Judge(checks[i], After(checks[..i], history)).status == Valid
  {
    var c := checks[i];
    RecordIs(checks[..i], history, c.budget.PaymentAt(c.height).proposal);
    CheckBudgetIff(c.budget, After(checks[..i], history), c.vout, c.height);
  }

  lemma {:induction false} AfterFront(c: Check, checks: seq<Check>, history: History)
    ensures After([c] + checks, history) == After(checks, Judge(c, history).history)
    decreases |checks|
  {
    var all := [c] + checks;
    if checks == [] {
      assert all[..0] == [];
    } else {
      assert all[..|all| - 1] == [c] + checks[..|checks| - 1];
      AfterFront(c, checks[..|checks| - 1], history);
    }
  }

  /** What a later check finds is not changed by telling the first one apart from the rest. */
  lemma PaysRest(c: Check, checks: seq<Check>, history: History, i: nat)
    requires i < |checks| && checks[i].budget.InWindow(checks[i].height)
    ensures Pays([c] + checks, history, i + 1) <==> Pays(checks, Judge(c, history).history, i)
  {
    assert ([c] + checks)[..i + 1] == [c] + checks[..i];
    AfterFront(c, checks[..i], history);
    PaysIsValid([c] + checks, history, i + 1);
    PaysIsValid(checks, Judge(c, history).history, i);
  }

  ghost predicate SomePays(checks: seq<Check>, history: History)
    requires forall i | 0 <= i < |checks| :: checks[i].budget.InWindow(checks[i].height)
  {
    exists i: nat | i < |checks| :: Pays(checks, history, i)
  }

  lemma SomePaysFront(c: Check, checks: seq<Check>, history: History)
    requires c.budget.InWindow(c.height) && forall i | 0 <= i < |checks| :: checks[i].budget.InWindow(checks[i].height)
    ensures SomePays([c] + checks, history) <==> Judge(c, history).status == Valid || SomePays(checks, Judge(c, history).history)
  {
    var all, h := [c] + checks, Judge(c, history).history;
    assert all[..0] == [];
    PaysIsValid(all, history, 0);
    if i: nat :| i < |all| && Pays(all, history, i) {
      if i > 0 {
        PaysRest(c, checks, history, i - 1);
      }
    }
    if i: nat :| i < |checks| && Pays(checks, h, i) {
      PaysRest(c, checks, history, i);
      assert Pays(all, history, i + 1);
    }
  }

  lemma {:induction false} CheckAllIff(budgets: seq<FinalizedBudget>, floor: int, history: History, vout: seq<TxOut>, height: int, status: Status)
    requires status != Valid
    ensures CheckAll(budgets, floor, history, vout, height, status).status == Valid <==>
      SomePays(Checks(budgets, floor, vout, height), history)
    decreases |budgets|
  {
    if budgets != [] {
      var rest := Checks(budgets[1..], floor, vout, height);
      if budgets[0].votes > floor && budgets[0].InWindow(height) {
        var v := CheckBudget(budgets[0], history, vout, height);
        SomePaysFront(Check(budgets[0], vout, height), rest, history);
        if v.status != Valid {
          CheckAllIff(budgets[1..], floor, v.history, vout, height, v.status);
        }
      } else {
        assert [] + rest == rest;
        CheckAllIff(budgets[1..], floor, history, vout, height, status);
      }
    }
  }

  /**
   * Exactly when a block is accepted: the best budget has a twentieth of the masternodes' votes, and some budget
   * less than a tenth of the masternodes behind it finds its payment once among the outputs and no record of
   * the proposal in its window, counting the records that the checks before it make and drop.
   */
  lemma BlockAcceptedIff(budgets: seq<FinalizedBudget>, enabled: nat, history: History, vout: seq<TxOut>, height: int)
    ensures var most := Highest(budgets, height, 0);
            CheckBlock(budgets, enabled, history, vout, height).status == Valid <==>
              most >= enabled / 20 && SomePays(Checks(budgets, most - enabled / 10, vout, height), history)
  {
    CheckAllIff(budgets, Highest(budgets, height, 0) - enabled / 10, history, vout, height, InValid);
  }

  /** No budget that is checked and pays the proposal finds its payment twice among the outputs. */
  predicate Unambiguous(budgets: seq<FinalizedBudget>, floor: int, vout: seq<TxOut>, height: int, proposal: uint256) {
    forall i | 0 <= i < |budgets| && budgets[i].votes > floor && budgets[i].InWindow(height) && budgets[i].PaymentAt(height).proposal == proposal ::
      Count(budgets[i].PaymentAt(height), vout) <= 1
  }

  /** A proposal without a record in its budget's window is paid, whatever the budgets that are checked before its own do to the history. */
  lemma {:induction false} SomeBudgetAccepts(budgets: seq<FinalizedBudget>, b: FinalizedBudget, floor: int, history: History,
                                             vout: seq<TxOut>, height: int, status: Status)
    requires b in budgets && b.votes > floor && b.InWindow(height) && Count(b.PaymentAt(height), vout) == 1
    requires !Recorded(b, history, b.PaymentAt(height).proposal)
    requires Unambiguous(budgets, floor, vout, height, b.PaymentAt(height).proposal)
    ensures CheckAll(budgets, floor, history, vout, height, status).status == Valid
    decreases |budgets|
  {
    var first, proposal := budgets[0], b.PaymentAt(height).proposal;
    assert Unambiguous(budgets[1..], floor, vout, height, proposal) by {
      assert forall i | 0 <= i < |budgets| - 1 :: budgets[1..][i] == budgets[i + 1];
    }
    if first.votes > floor && first.InWindow(height) {
      var p := first.PaymentAt(height);
      CheckBudgetIff(first, history, vout, height);
      CheckOutputsIs(first, history, p, vout, height, InValid);
      var v := CheckBudget(first, history, vout, height);
      if v.status != Valid {
        assert first != b;
        SomeBudgetAccepts(budgets[1..], b, floor, v.history, vout, height, v.status);
      }
    } else {
      SomeBudgetAccepts(budgets[1..], b, floor, history, vout, height, status);
    }
  }

  lemma {:induction false} NobodyIsAboveTheFloor(budgets: seq<FinalizedBudget>, floor: int, history: History, vout: seq<TxOut>, height: int, status: Status)
    requires forall i | 0 <= i < |budgets| && budgets[i].InWindow(height) :: budgets[i].votes <= floor
    ensures CheckAll(budgets, floor, history, vout, height, status) == Verdict(status, history)
    decreases |budgets|
  {
    if budgets != [] {
      assert forall i | 0 <= i < |budgets| - 1 :: budgets[1..][i] == budgets[i + 1];
      NobodyIsAboveTheFloor(budgets[1..], floor, history, vout, height, status);
    }
  }

  lemma {:induction false} CountAppend(p: Payment, vout: seq<TxOut>, out: TxOut)
    ensures Count(p, vout + [out]) == Count(p, vout) + (if Matches(p, out) then 1 else 0)
  {
    if vout == [] {
      assert ([] + [out])[1..] == [];
    } else {
      assert (vout + [out])[1..] == vout[1..] + [out];
      CountAppend(p, vout[1..], out);
    }
  }

  /**
   * A block filled with a budget payment is accepted in the same state if and only if at least ten
   * masternodes are enabled: provided the proposal has not been paid in the budget's window and its payment is
   * not also among the reward's outputs, nor confusable for another budget that is checked and pays the same proposal.
   */
  lemma FilledIsAcceptedIff(budgets: seq<FinalizedBudget>, enabled: nat, history: History, reward: seq<TxOut>, height: int)
    requires IsBudgetPaymentBlock(budgets, enabled, height)
    requires Chosen(budgets, height).Some? ==>
               var p := Chosen(budgets, height).value.PaymentAt(height);
               && !Recorded(Chosen(budgets, height).value, history, p.proposal) && Count(p, reward) == 0
               && Unambiguous(budgets, Highest(budgets, height, 0) - enabled / 10, FillBlockPayee(budgets, reward, height), height, p.proposal)
    ensures CheckBlock(budgets, enabled, history, FillBlockPayee(budgets, reward, height), height).status == Valid <==> enabled >= 10
  {
    HighestFromZero(budgets, height);
    var most, vout := Highest(budgets, height, 0), FillBlockPayee(budgets, reward, height);
    var b := Chosen(budgets, height).value;
    if enabled >= 10 {
      CountAppend(b.PaymentAt(height), reward, TxOut(b.PaymentAt(height).payee, b.PaymentAt(height).nAmount));
      SomeBudgetAccepts(budgets, b, most - enabled / 10, history, vout, height, InValid);
    } else {
      FewMasternodes(budgets, enabled, history, vout, height);
    }
  }

  /** With fewer than ten masternodes enabled, no block is ever accepted as a budget payment. */
  lemma FewMasternodes(budgets: seq<FinalizedBudget>, enabled: nat, history: History, vout: seq<TxOut>, height: int)
    requires enabled < 10
    ensures CheckBlock(budgets, enabled, history, vout, height) == Verdict(InValid, history)
  {
    var most := Highest(budgets, height, 0);
    forall i | 0 <= i < |budgets| && budgets[i].InWindow(height)
      ensures budgets[i].votes <= most
    {
      HighestBounds(budgets, height, i);
    }
    NobodyIsAboveTheFloor(budgets, most, history, vout, height, InValid);
  }

  /** Nine masternodes, one budget with a vote, nothing paid before: the filled block is rejected. */
  lemma NineMasternodesReject(p: Payment)
    ensures var budgets := [FinalizedBudget(100, [p], 1)];
            && IsBudgetPaymentBlock(budgets, 9, 100)
            && FillBlockPayee(budgets, [], 100) == [TxOut(p.payee, p.nAmount)]
            && CheckBlock(budgets, 9, map[], FillBlockPayee(budgets, [], 100), 100).status == InValid
  {
    var b := FinalizedBudget(100, [p], 1);
    assert [b][..0] == [];
    assert Highest([b], 100, -1) == 1 && Highest([b], 100, 0) == 1;
    assert Chosen([b], 100) == Some(b);
    FewMasternodes([b], 9, map[], FillBlockPayee([b], [], 100), 100);
  }

  /* ---- The source's loops ---- */

  /** The payment history, shared by all budgets, and the checks that change it. */
  class PaymentHistory {
    var mapPaymentHistory: History

    constructor ()
      ensures mapPaymentHistory == map[]
    {
      mapPaymentHistory := map[];
    }

    method PaidAlready(b: FinalizedBudget, proposal: uint256, height: int) returns (paid: bool)
      modifies this
      ensures Paid(paid, mapPaymentHistory) == IsPaidAlready(b, old(mapPaymentHistory), proposal, height)
    {
      PurgeOthers(b);
      if proposal !in mapPaymentHistory {
        mapPaymentHistory := mapPaymentHistory[proposal := height];
        return false;
      }
      return true;
    }

    /** Erase the records from former and future payment cycles. */
    method PurgeOthers(b: FinalizedBudget)
      modifies this
      ensures mapPaymentHistory == Purge(b, old(mapPaymentHistory))
    {
      ghost var before := mapPaymentHistory;
      var rest := mapPaymentHistory.Keys;
      while rest != {}
        invariant rest <= mapPaymentHistory.Keys
        invariant forall p :: p in mapPaymentHistory <==> p in before && (p in rest || b.InWindow(before[p]))
        invariant forall p | p in mapPaymentHistory :: mapPaymentHistory[p] == before[p]
        decreases rest
      {
        var p :| p in rest;
        var paidHeight := mapPaymentHistory[p];
        if paidHeight < b.blockStart || paidHeight > b.BlockEnd() {
          mapPaymentHistory := mapPaymentHistory - {p};
        }
        rest := rest - {p};
      }
    }

    /** One budget's check of a block. */
    method CheckByBudget(b: FinalizedBudget, vout: seq<TxOut>, height: int) returns (status: Status)
      modifies this
      ensures Verdict(status, mapPaymentHistory) == CheckBudget(b, old(mapPaymentHistory), vout, height)
    {
      status := InValid;
      var current := height - b.blockStart;
      if current < 0 || current > |b.payments| - 1 {
        return;
      }
      var p := b.payments[current];
      ghost var all := CheckOutputs(b, mapPaymentHistory, p, vout, height, InValid);
      assert vout[0..] == vout;
      for i := 0 to |vout|
        invariant CheckOutputs(b, mapPaymentHistory, p, vout[i..], height, status) == all
      {
        assert vout[i..][1..] == vout[i + 1..];
        if p.payee == vout[i].scriptPubKey && p.nAmount == vout[i].nValue {
          var paid := PaidAlready(b, p.proposal, height);
          if paid {
            return DoublePayment;
          }
          status := Valid;
        }
      }
    }

    /** The manager's check of a block, over all budgets with enough votes. */
    method CheckByAll(budgets: seq<FinalizedBudget>, enabled: nat, vout: seq<TxOut>, height: int) returns (status: Status)
      modifies this
      ensures Verdict(status, mapPaymentHistory) == CheckBlock(budgets, enabled, old(mapPaymentHistory), vout, height)
    {
      var most := MostVotes(budgets, height, 0);
      status := InValid;
      if most < enabled / 20 {
        return;
      }
      var floor := most - enabled / 10;
      ghost var all := CheckAll(budgets, floor, mapPaymentHistory, vout, height, InValid);
      assert budgets[0..] == budgets;
      for i := 0 to |budgets|
        invariant CheckAll(budgets[i..], floor, mapPaymentHistory, vout, height, status) == all
      {
        assert budgets[i..][1..] == budgets[i + 1..];
        var b := budgets[i];
        if b.votes > floor {
          if b.blockStart <= height <= b.BlockEnd() {
            status := CheckByBudget(b, vout, height);
            if status == Valid {
              return;
            }
          }
        }
      }
    }
  }

  method MostVotes(budgets: seq<FinalizedBudget>, height: int, start: int) returns (nHighestCount: int)
    ensures nHighestCount == Highest(budgets, height, start)
  {
    nHighestCount := start;
    for i := 0 to |budgets|
      invariant nHighestCount == Highest(budgets[..i], height, start)
    {
      assert budgets[..i + 1][..i] == budgets[..i];
      var b := budgets[i];
      if b.votes > nHighestCount && height >= b.blockStart && height <= b.BlockEnd() {
        nHighestCount := b.votes;
      }
    }
    assert budgets[..|budgets|] == budgets;
  }

  /** Fill a block: the winning payee is overwritten whenever a budget with more votes turns up. */
  method Fill(budgets: seq<FinalizedBudget>, reward: seq<TxOut>, height: int) returns (vout: seq<TxOut>)
    ensures vout == FillBlockPayee(budgets, reward, height)
  {
    var nHighestCount := 0;
    var payee, nAmount := [], 0;
    for i := 0 to |budgets|
      invariant nHighestCount == Highest(budgets[..i], height, 0)
      invariant Chosen(budgets[..i], height).Some? ==>
                  var p := Chosen(budgets[..i], height).value.PaymentAt(height);
                  payee == p.payee && nAmount == p.nAmount
    {
      assert budgets[..i + 1][..i] == budgets[..i];
      var b := budgets[i];
      if b.votes > nHighestCount && height >= b.blockStart && height <= b.BlockEnd() {
        var p := b.payments[height - b.blockStart];
        payee, nAmount := p.payee, p.nAmount;
        nHighestCount := b.votes;
      }
    }
    assert budgets[..|budgets|] == budgets;
    vout := if nHighestCount > 0 then reward + [TxOut(payee, nAmount)] else reward;
  }
}
