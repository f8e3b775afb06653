/**
 * The parallel verification queue: one master and any number of workers.
 *
 * The protocol is a state machine whose steps are the critical sections of the source (everything done
 * while the mutex is held) and the execution of one check outside the mutex. Any interleaving, any
 * spurious wake-up and any verdict function is allowed. Thread 0 is the master.
 */
module CheckQueue {
  import opened Arithmetic
  import opened Prelude

  /** A check is known by its identity; what running it returns is a parameter of the model. */
  type Check = nat

  /** The fields guarded by the mutex. */
  datatype Shared = Shared(queue: seq<Check>, nIdle: int, nTotal: int, fAllOk: bool, nTodo: int, nBatchSize: nat)

  datatype Thread =
    | Outside
    | Running(batch: seq<Check>, done: nat, ok: bool)
    | Waiting(notified: bool)

  /** A completed call of the master's `Wait`: the checks of its round and the value returned. */
  datatype Completed = Completed(round: seq<Check>, ret: bool)

  /** The state, with the history needed to speak about whole runs. */
  datatype State = State(
    q: Shared,
    threads: seq<Thread>,
    added: seq<Check>,
    round: seq<Check>,
    reported: seq<Check>,
    ran: seq<Check>,
    waits: seq<Completed>)

  datatype Step =
    | Add(checks: seq<Check>, target: nat)
    | Enter(i: nat)
    | RunCheck(i: nat)
    | Report(i: nat)
    | Wake(i: nat)

  /* ---- The critical sections ---- */

  function BatchLength(q: Shared): (n: int)
    requires q.queue != [] && q.nTotal >= 0 && q.nIdle >= 0
    ensures 1 <= n <= |q.queue|
  {
    Max(1, Min(q.nBatchSize, |q.queue| / (q.nTotal + q.nIdle + 1)))
  }

  /** The largest batch within the batch size that leaves as much for each other thread, counting the sleeping ones twice; but at least one. */
  lemma BatchIs(q: Shared)
    requires q.queue != [] && q.nTotal >= 0 && q.nIdle >= 0
    ensures var n, threads := BatchLength(q), q.nTotal + q.nIdle + 1;
            && (n == 1 || (n <= q.nBatchSize && n * threads <= |q.queue|))
            && (n >= q.nBatchSize || (n + 1) * threads > |q.queue|)
  {
    var n, threads := BatchLength(q), q.nTotal + q.nIdle + 1;
    Share(|q.queue|, threads, n);
  }

  lemma Share(size: nat, threads: nat, n: nat)
    requires threads > 0
    ensures n <= size / threads ==> n * threads <= size
    ensures n >= size / threads ==> (n + 1) * threads > size
  {
    var share := size / threads;
    assert size == threads * share + size % threads;
    if n <= share {
      MulMonotone(threads, n, share);
    }
    if n >= share {
      MulMonotone(threads, share + 1, n + 1);
      MulDistributes(threads, share, 1);
    }
  }

  /** The head of the loop: take a batch, return from `Wait`, or go to sleep. */
  function LoopHead(q: Shared, master: bool): (r: (Shared, Thread))
    requires q.nTotal >= 0 && q.nIdle >= 0
  {
    if q.queue == [] then
      if master && q.nTodo == 0 then
        (q.(nTotal := q.nTotal - 1, fAllOk := true), Outside)
      else
        (q.(nIdle := q.nIdle + 1), Waiting(false))
    else
      var n := |q.queue| - BatchLength(q);
      (q.(queue := q.queue[..n]), Running(Reversed(q.queue[n..]), 0, q.fAllOk))
  }

  function FinishBatch(q: Shared, t: Thread): Shared
    requires t.Running?
  {
    q.(fAllOk := q.fAllOk && t.ok, nTodo := q.nTodo - |t.batch|)
  }

  predicate Wakeable(t: Thread) { t.Waiting? && !t.notified }

  /** Which of the sleeping workers an `Add` notifies: `notify_one` for a single check, `notify_all` for more. */
  datatype Call = NotifyNone | NotifyOne | NotifyAll

  function CallFor(count: nat): Call {
    if count == 1 then NotifyOne else if count > 1 then NotifyAll else NotifyNone
  }

  /** `notify_one` reaches some sleeping worker if there is one, `notify_all` all of them. */
  function NotifyWorkers(ts: seq<Thread>, call: Call, target: nat): (r: seq<Thread>) {
    seq(|ts|, k requires 0 <= k < |ts| =>
      if k != 0 && Wakeable(ts[k]) && (call.NotifyAll? || (call.NotifyOne? && k == target)) then Waiting(true) else ts[k])
  }

  /** The worker that reports the last unfinished checks notifies the master. */
  predicate NotifiesMaster(q: Shared, master: bool) { q.nTodo == 0 && !master }

  function NotifyMaster(ts: seq<Thread>): (r: seq<Thread>)
    ensures |r| == |ts|
  {
    if ts != [] && ts[0].Waiting? then ts[0 := Waiting(true)] else ts
  }

  predicate NoDuplicates(s: seq<Check>) {
    forall i, j | 0 <= i < j < |s| :: s[i] != s[j]
  }

  predicate Enabled(s: State, step: Step) {
    match step
    case Add(checks, target) =>
      && s.threads != [] && s.threads[0].Outside?
      && NoDuplicates(s.added + checks)
      && ((exists k | 0 < k < |s.threads| :: Wakeable(s.threads[k])) ==> 0 < target < |s.threads| && Wakeable(s.threads[target]))
    case Enter(i) => i < |s.threads| && s.threads[i].Outside?
    case RunCheck(i) => i < |s.threads| && s.threads[i].Running? && s.threads[i].done < |s.threads[i].batch|
    case Report(i) => i < |s.threads| && s.threads[i].Running? && s.threads[i].done >= |s.threads[i].batch|
    case Wake(i) => i < |s.threads| && s.threads[i].Waiting?
  }

  /** Whether the thread leaving the critical section is the master returning from `Wait`. */
  function Leave(s: State, q: Shared, threads: seq<Thread>, i: nat): State
    requires i < |threads| && q.nTotal >= 0 && q.nIdle >= 0
  {
    var (q', t) := LoopHead(q, i == 0);
    var s' := s.(q := q', threads := threads[i := t]);
    if t.Outside? then
      s'.(round := [], reported := [], waits := s.waits + [Completed(s.round, q.fAllOk)])
    else s'
  }

  function Next(verdict: Check -> bool, s: State, step: Step): State
    requires Enabled(s, step) && s.q.nTotal >= 0 && s.q.nIdle >= 0
    requires step.Wake? ==> s.q.nIdle >= 1
  {
    match step
    case Add(checks, target) =>
      s.(q := s.q.(queue := s.q.queue + checks, nTodo := s.q.nTodo + |checks|),
         threads := NotifyWorkers(s.threads, CallFor(|checks|), target),
         added := s.added + checks, round := s.round + checks)
    case Enter(i) =>
      Leave(s, s.q.(nTotal := s.q.nTotal + 1), s.threads, i)
    case RunCheck(i) =>
      var t := s.threads[i];
      var c := t.batch[t.done];
      s.(threads := s.threads[i := Running(t.batch, t.done + 1, t.ok && verdict(c))],
         ran := if t.ok then s.ran + [c] else s.ran)
    case Report(i) =>
      var q := FinishBatch(s.q, s.threads[i]);
      var threads := if NotifiesMaster(q, i == 0) then NotifyMaster(s.threads) else s.threads;
      Leave(s.(reported := s.reported + s.threads[i].batch), q, threads, i)
    case Wake(i) =>
      Leave(s, s.q.(nIdle := s.q.nIdle - 1), s.threads, i)
  }

  /** A freshly constructed queue with `n` threads that have not entered it. */
  function Initial(batchSize: nat, n: nat): State
    requires n >= 1
  {
    State(Shared([], 0, 0, true, 0, batchSize), seq(n, _ => Outside), [], [], [], [], [])
  }

  /* ---- Sums over the threads ---- */

  /** How many threads are inside, how many asleep, and how many checks their batches hold. */
  datatype Tally = Tally(inside: nat, asleep: nat, load: nat)

  function TallyOf(t: Thread): Tally {
    match t
    case Outside => Tally(0, 0, 0)
    case Waiting(_) => Tally(1, 1, 0)
    case Running(batch, _, _) => Tally(1, 0, |batch|)
  }

  function Total(ts: seq<Thread>): Tally {
    if ts == [] then Tally(0, 0, 0)
    else
      var a, b := TallyOf(ts[0]), Total(ts[1..]);
      Tally(a.inside + b.inside, a.asleep + b.asleep, a.load + b.load)
  }

  /** How often a check occurs. */
  function Occ(s: seq<Check>, c: Check): nat {
    if s == [] then 0 else Occ(s[..|s| - 1], c) + (if s[|s| - 1] == c then 1 else 0)
  }

  function BatchOcc(t: Thread, c: Check): nat {
    if t.Running? then Occ(t.batch, c) else 0
  }

  /** How often a check occurs in the part of a batch not yet looked at. */
  function PendingOcc(t: Thread, c: Check): nat {
    if t.Running? && t.done <= |t.batch| then Occ(t.batch[t.done..], c) else 0
  }

  function Batches(ts: seq<Thread>, c: Check): nat {
    if ts == [] then 0 else BatchOcc(ts[0], c) + Batches(ts[1..], c)
  }

  function Pending(ts: seq<Thread>, c: Check): nat {
    if ts == [] then 0 else PendingOcc(ts[0], c) + Pending(ts[1..], c)
  }

  lemma {:induction false} OccAppend(a: seq<Check>, b: seq<Check>, c: Check)
    ensures Occ(a + b, c) == Occ(a, c) + Occ(b, c)
  {
    if b == [] {
      assert a + b == a;
    } else {
      OccAppend(a, b[..|b| - 1], c);
      assert (a + b)[..|a + b| - 1] == a + b[..|b| - 1];
    }
  }

  lemma {:induction false} OccSplit(s: seq<Check>, n: nat, c: Check)
    requires n <= |s|
    ensures Occ(s, c) == Occ(s[..n], c) + Occ(s[n..], c)
  {
    OccAppend(s[..n], s[n..], c);
    assert s == s[..n] + s[n..];
  }

  lemma {:induction false} OccReversed(s: seq<Check>, c: Check)
    ensures Occ(Reversed(s), c) == Occ(s, c)
  {
    if s != [] {
      OccReversed(s[..|s| - 1], c);
      OccAppend([s[|s| - 1]], Reversed(s[..|s| - 1]), c);
    }
  }

  lemma {:induction false} OccMember(s: seq<Check>, c: Check)
    ensures Occ(s, c) > 0 <==> c in s
  {
    if s != [] {
      OccMember(s[..|s| - 1], c);
    }
  }

  /** The sums when one thread changes. */
  lemma {:induction false} ReplaceTotal(ts: seq<Thread>, i: nat, t: Thread)
    requires i < |ts|
    ensures var before, a, b, after := Total(ts), TallyOf(ts[i]), TallyOf(t), Total(ts[i := t]);
            && after.inside + a.inside == before.inside + b.inside
            && after.asleep + a.asleep == before.asleep + b.asleep
            && after.load + a.load == before.load + b.load
            && a.inside <= before.inside && a.asleep <= before.asleep && a.load <= before.load
  {
    if i == 0 {
      assert ts[i := t][1..] == ts[1..];
    } else {
      ReplaceTotal(ts[1..], i - 1, t);
      assert ts[i := t][1..] == ts[1..][i - 1 := t];
    }
  }

  lemma {:induction false} ReplaceOcc(ts: seq<Thread>, i: nat, t: Thread, c: Check)
    requires i < |ts|
    ensures Batches(ts[i := t], c) + BatchOcc(ts[i], c) == Batches(ts, c) + BatchOcc(t, c)
    ensures Pending(ts[i := t], c) + PendingOcc(ts[i], c) == Pending(ts, c) + PendingOcc(t, c)
    ensures BatchOcc(ts[i], c) <= Batches(ts, c)
  {
    if i == 0 {
      assert ts[i := t][1..] == ts[1..];
    } else {
      ReplaceOcc(ts[1..], i - 1, t, c);
      assert ts[i := t][1..] == ts[1..][i - 1 := t];
    }
  }

  /** Waking and sleeping threads count alike. */
  predicate SameWork(ts: seq<Thread>, us: seq<Thread>) {
    |ts| == |us| && forall k | 0 <= k < |ts| :: ts[k] == us[k] || (ts[k].Waiting? && us[k].Waiting?)
  }

  lemma {:induction false} SameTotal(ts: seq<Thread>, us: seq<Thread>)
    requires SameWork(ts, us)
    ensures Total(ts) == Total(us)
  {
    if ts != [] {
      SameTotal(ts[1..], us[1..]);
    }
  }

  lemma {:induction false} SameOcc(ts: seq<Thread>, us: seq<Thread>, c: Check)
    requires SameWork(ts, us)
    ensures Batches(ts, c) == Batches(us, c) && Pending(ts, c) == Pending(us, c)
  {
    if ts != [] {
      SameOcc(ts[1..], us[1..], c);
    }
  }

  lemma {:induction false} NoLoadNoBatches(ts: seq<Thread>, c: Check)
    requires Total(ts).load == 0
    ensures Batches(ts, c) == 0
  {
    if ts != [] {
      NoLoadNoBatches(ts[1..], c);
    }
  }

  /* ---- The invariant ---- */

  ghost predicate Passed(verdict: Check -> bool, s: State, c: Check) {
    verdict(c) && c in s.ran
  }

  ghost predicate SomeFailed(verdict: Check -> bool, s: State) {
    exists c :: c in s.round && !verdict(c)
  }

  ghost predicate ThreadOk(verdict: Check -> bool, s: State, t: Thread) {
    t.Running? ==>
      && 1 <= |t.batch| && t.done <= |t.batch|
      && (if t.ok then forall j | 0 <= j < t.done :: Passed(verdict, s, t.batch[j]) else SomeFailed(verdict, s))
  }

  /** The counters; `entering` threads are inside a critical section, neither asleep nor holding a batch. */
  ghost predicate Counts(q: Shared, ts: seq<Thread>, entering: nat) {
    && q.nTotal == Total(ts).inside + entering
    && q.nIdle == Total(ts).asleep
    && q.nTodo == |q.queue| + Total(ts).load
  }

  /** Every check of the round is queued, in flight or reported, exactly as often as it was added. */
  ghost predicate Conserved(s: State, c: Check) {
    Occ(s.round, c) == Occ(s.q.queue, c) + Batches(s.threads, c) + Occ(s.reported, c)
  }

  /** What has been run and what can still be run was added. */
  ghost predicate RunOnce(s: State, c: Check) {
    Occ(s.ran, c) + Occ(s.q.queue, c) + Pending(s.threads, c) <= Occ(s.added, c)
  }

  ghost predicate Accounting(s: State, entering: nat) {
    && Counts(s.q, s.threads, entering)
    && NoDuplicates(s.added)
    && (forall c :: Conserved(s, c) && RunOnce(s, c))
  }

  ghost predicate Verdicts(verdict: Check -> bool, s: State) {
    && (forall k | 0 <= k < |s.threads| :: ThreadOk(verdict, s, s.threads[k]))
    && (if s.q.fAllOk then forall c | c in s.reported :: Passed(verdict, s, c) else SomeFailed(verdict, s))
  }

  /** A sleeping master sees an empty queue, and has been notified exactly if nothing is in flight either. */
  ghost predicate MasterOk(s: State) {
    && s.threads != []
    && (s.threads[0].Waiting? ==> s.q.queue == [] && s.q.nTodo >= 0 && (s.threads[0].notified <==> s.q.nTodo == 0))
  }

  function Concat(ws: seq<Completed>): seq<Check> {
    if ws == [] then [] else Concat(ws[..|ws| - 1]) + ws[|ws| - 1].round
  }

  ghost predicate CompletedOk(verdict: Check -> bool, s: State, w: Completed) {
    && (w.ret <==> forall c | c in w.round :: verdict(c))
    && (w.ret ==> forall c | c in w.round :: c in s.ran)
  }

  /** Every completed `Wait` returned the conjunction of its own round, and the rounds split what was added. */
  ghost predicate History(verdict: Check -> bool, s: State) {
    && (forall w | w in s.waits :: CompletedOk(verdict, s, w))
    && Concat(s.waits) + s.round == s.added
  }

  ghost predicate Inv(verdict: Check -> bool, s: State) {
    Accounting(s, 0) && Verdicts(verdict, s) && MasterOk(s) && History(verdict, s)
  }

  /* ---- Every step keeps the invariant ---- */

  /** The state in the middle of a critical section of thread `i`: it counts as inside, awake and without a batch. */
  ghost predicate MidInv(verdict: Check -> bool, s: State, i: nat) {
    && i < |s.threads| && s.threads[i].Outside?
    && Accounting(s, 1)
    && Verdicts(verdict, s)
    && History(verdict, s)
    && (i != 0 ==> MasterOk(s))
  }

  /** Changing one thread, and letting checks run, keeps every recorded verdict that the new thread state respects. */
  lemma VerdictsFrame(verdict: Check -> bool, s: State, s': State)
    requires Verdicts(verdict, s)
    requires s'.round == s.round && s'.reported == s.reported && s'.q.fAllOk == s.q.fAllOk && s.ran <= s'.ran
    requires |s'.threads| == |s.threads|
    requires forall k | 0 <= k < |s.threads| ::
               s'.threads[k] == s.threads[k] || !s'.threads[k].Running? || ThreadOk(verdict, s', s'.threads[k])
    ensures Verdicts(verdict, s')
  {
    PassedGrows(verdict, s, s');
    forall k | 0 <= k < |s'.threads|
      ensures ThreadOk(verdict, s', s'.threads[k])
    {
      assert ThreadOk(verdict, s, s.threads[k]);
    }
  }

  lemma PassedGrows(verdict: Check -> bool, s: State, s': State)
    requires s.ran <= s'.ran
    ensures forall c | Passed(verdict, s, c) :: Passed(verdict, s', c)
  {
  }

  lemma HistoryFrame(verdict: Check -> bool, s: State, s': State)
    requires History(verdict, s)
    requires s'.waits == s.waits && s'.round == s.round && s'.added == s.added && s.ran <= s'.ran
    ensures History(verdict, s')
  {
    forall w | w in s'.waits
      ensures CompletedOk(verdict, s', w)
    {
      assert CompletedOk(verdict, s, w);
    }
  }

  /** The counters after thread `i` leaves the critical section with a batch or to sleep. */
  lemma LeaveCounts(q: Shared, ts: seq<Thread>, i: nat)
    requires i < |ts| && ts[i].Outside? && Counts(q, ts, 1)
    requires q.queue != [] || i != 0 || q.nTodo != 0
    ensures Counts(LoopHead(q, i == 0).0, ts[i := LoopHead(q, i == 0).1], 0)
  {
    ReplaceTotal(ts, i, LoopHead(q, i == 0).1);
  }

  lemma LeaveOcc(q: Shared, ts: seq<Thread>, i: nat, c: Check)
    requires i < |ts| && ts[i].Outside? && q.nTotal >= 0 && q.nIdle >= 0
    ensures var (q', t) := LoopHead(q, i == 0);
            && Occ(q'.queue, c) + Batches(ts[i := t], c) == Occ(q.queue, c) + Batches(ts, c)
            && Occ(q'.queue, c) + Pending(ts[i := t], c) == Occ(q.queue, c) + Pending(ts, c)
  {
    var (q', t) := LoopHead(q, i == 0);
    ReplaceOcc(ts, i, t, c);
    if t.Running? {
      OccSplit(q.queue, |q'.queue|, c);
      OccReversed(q.queue[|q'.queue|..], c);
      assert t.batch[0..] == t.batch;
    }
  }

  lemma LeaveAccounting(s: State, i: nat)
    requires i < |s.threads| && s.threads[i].Outside? && Accounting(s, 1)
    requires s.q.queue != [] || i != 0 || s.q.nTodo != 0
    ensures Accounting(Leave(s, s.q, s.threads, i), 0)
  {
    LeaveCounts(s.q, s.threads, i);
    var s' := Leave(s, s.q, s.threads, i);
    forall c
      ensures Conserved(s', c) && RunOnce(s', c)
    {
      LeaveOcc(s.q, s.threads, i, c);
      assert Conserved(s, c) && RunOnce(s, c);
    }
  }

  /** With nothing in flight no thread holds a batch. */
  lemma NobodyRuns(verdict: Check -> bool, s: State)
    requires Verdicts(verdict, s) && Total(s.threads).load == 0
    ensures forall k | 0 <= k < |s.threads| :: !s.threads[k].Running?
  {
    forall k | 0 <= k < |s.threads|
      ensures !s.threads[k].Running?
    {
      assert ThreadOk(verdict, s, s.threads[k]);
      ReplaceTotal(s.threads, k, Outside);
    }
  }

  /** The round is over: every check of it has been reported, and the flag is the conjunction. */
  lemma RoundVerdict(verdict: Check -> bool, s: State)
    requires Verdicts(verdict, s) && (forall c :: Conserved(s, c))
    requires s.q.queue == [] && Total(s.threads).load == 0
    ensures CompletedOk(verdict, s, Completed(s.round, s.q.fAllOk))
  {
    forall c
      ensures c in s.round <==> c in s.reported
    {
      assert Conserved(s, c);
      NoLoadNoBatches(s.threads, c);
      OccMember(s.round, c);
      OccMember(s.reported, c);
    }
  }

  /** The master returning: its round joins the history and a new round starts clean. */
  lemma ReturnKeeps(verdict: Check -> bool, s: State)
    requires MidInv(verdict, s, 0) && s.q.queue == [] && s.q.nTodo == 0
    ensures Inv(verdict, Leave(s, s.q, s.threads, 0))
  {
    var s' := Leave(s, s.q, s.threads, 0);
    var w := Completed(s.round, s.q.fAllOk);
    assert s'.threads == s.threads;
    forall c
      ensures Conserved(s', c) && RunOnce(s', c)
    {
      NoLoadNoBatches(s.threads, c);
      assert RunOnce(s, c);
    }
    RoundVerdict(verdict, s);
    assert s'.waits[..|s'.waits| - 1] == s.waits;
    forall x | x in s'.waits
      ensures CompletedOk(verdict, s', x)
    {
      assert x == w || x in s.waits;
      assert CompletedOk(verdict, s, x);
    }
    NobodyRuns(verdict, s);
    assert Verdicts(verdict, s');
  }

  lemma LeaveKeeps(verdict: Check -> bool, s: State, i: nat)
    requires MidInv(verdict, s, i)
    ensures s.q.nTotal >= 0 && s.q.nIdle >= 0
    ensures Inv(verdict, Leave(s, s.q, s.threads, i))
  {
    if s.q.queue == [] && i == 0 && s.q.nTodo == 0 {
      ReturnKeeps(verdict, s);
    } else {
      LeaveAccounting(s, i);
      var s' := Leave(s, s.q, s.threads, i);
      VerdictsFrame(verdict, s, s');
      HistoryFrame(verdict, s, s');
    }
  }

  /** Leave does not look at the thread's own previous state. */
  lemma LeaveForgets(s: State, q: Shared, threads: seq<Thread>, i: nat)
    requires i < |threads| && q.nTotal >= 0 && q.nIdle >= 0
    ensures Leave(s, q, threads, i) == Leave(s.(q := q, threads := threads[i := Outside]), q, threads[i := Outside], i)
  {
    var t := LoopHead(q, i == 0).1;
    assert threads[i := t] == threads[i := Outside][i := t];
  }

  lemma NextIsLeave(verdict: Check -> bool, s: State, step: Step, mid: State, i: nat)
    requires Enabled(s, step) && s.q.nTotal >= 0 && s.q.nIdle >= 0 && mid.q.nTotal >= 0 && mid.q.nIdle >= 0
    requires (step == Enter(i) && mid == s.(q := s.q.(nTotal := s.q.nTotal + 1)))
          || (step == Wake(i) && mid == s.(q := s.q.(nIdle := s.q.nIdle - 1), threads := s.threads[i := Outside]))
    ensures Next(verdict, s, step) == Leave(mid, mid.q, mid.threads, i)
  {
    if step.Wake? {
      LeaveForgets(s, mid.q, s.threads, i);
    }
  }

  lemma EnterMid(verdict: Check -> bool, s: State, i: nat, mid: State)
    requires Inv(verdict, s) && Enabled(s, Enter(i)) && mid == s.(q := s.q.(nTotal := s.q.nTotal + 1))
    ensures MidInv(verdict, mid, i)
  {
    forall c
      ensures Conserved(mid, c) && RunOnce(mid, c)
    {
      assert Conserved(s, c) && RunOnce(s, c);
    }
    VerdictsFrame(verdict, s, mid);
    HistoryFrame(verdict, s, mid);
  }

  lemma EnterKeeps(verdict: Check -> bool, s: State, i: nat)
    requires Inv(verdict, s) && Enabled(s, Enter(i))
    ensures s.q.nTotal >= 0 && s.q.nIdle >= 0
    ensures Inv(verdict, Next(verdict, s, Enter(i)))
  {
    var q := s.q.(nTotal := s.q.nTotal + 1);
    var mid := s.(q := q);
    EnterMid(verdict, s, i, mid);
    LeaveKeeps(verdict, mid, i);
    NextIsLeave(verdict, s, Enter(i), mid, i);
  }

  lemma WakeMid(verdict: Check -> bool, s: State, i: nat, mid: State)
    requires Inv(verdict, s) && Enabled(s, Wake(i))
    requires mid == s.(q := s.q.(nIdle := s.q.nIdle - 1), threads := s.threads[i := Outside])
    ensures s.q.nIdle >= 1 && MidInv(verdict, mid, i)
  {
    ReplaceTotal(s.threads, i, Outside);
    forall c
      ensures Conserved(mid, c) && RunOnce(mid, c)
    {
      ReplaceOcc(s.threads, i, Outside, c);
      assert Conserved(s, c) && RunOnce(s, c);
    }
    VerdictsFrame(verdict, s, mid);
    HistoryFrame(verdict, s, mid);
  }

  lemma WakeKeeps(verdict: Check -> bool, s: State, i: nat)
    requires Inv(verdict, s) && Enabled(s, Wake(i))
    ensures s.q.nTotal >= 0 && s.q.nIdle >= 1
    ensures Inv(verdict, Next(verdict, s, Wake(i)))
  {
    var q := s.q.(nIdle := s.q.nIdle - 1);
    var mid := s.(q := q, threads := s.threads[i := Outside]);
    WakeMid(verdict, s, i, mid);
    LeaveKeeps(verdict, mid, i);
    NextIsLeave(verdict, s, Wake(i), mid, i);
  }

  /** Reporting a batch moves its checks from in flight to reported. */
  lemma ReportAccounting(s: State, i: nat, threads: seq<Thread>, mid: State)
    requires Accounting(s, 0) && Enabled(s, Report(i)) && SameWork(s.threads, threads) && threads[i] == s.threads[i]
    requires mid == s.(q := FinishBatch(s.q, s.threads[i]), threads := threads[i := Outside],
                       reported := s.reported + s.threads[i].batch)
    ensures Accounting(mid, 1)
  {
    SameTotal(s.threads, threads);
    ReplaceTotal(threads, i, Outside);
    forall c
      ensures Conserved(mid, c) && RunOnce(mid, c)
    {
      assert Conserved(s, c) && RunOnce(s, c);
      SameOcc(s.threads, threads, c);
      ReplaceOcc(threads, i, Outside, c);
      OccAppend(s.reported, s.threads[i].batch, c);
    }
  }

  lemma ReportKeeps(verdict: Check -> bool, s: State, i: nat)
    requires Inv(verdict, s) && Enabled(s, Report(i))
    ensures s.q.nTotal >= 0 && s.q.nIdle >= 0
    ensures Inv(verdict, Next(verdict, s, Report(i)))
  {
    var t := s.threads[i];
    var q := FinishBatch(s.q, t);
    var threads := if NotifiesMaster(q, i == 0) then NotifyMaster(s.threads) else s.threads;
    var base := s.(reported := s.reported + t.batch);
    var mid := base.(q := q, threads := threads[i := Outside]);
    ReportAccounting(s, i, threads, mid);
    ReportVerdicts(verdict, s, i, mid);
    HistoryFrame(verdict, s, mid);
    LeaveKeeps(verdict, mid, i);
    LeaveForgets(base, q, threads, i);
  }

  /** A reported batch joins the verdict: it all passed, or the round has a failing check. */
  lemma ReportVerdicts(verdict: Check -> bool, s: State, i: nat, mid: State)
    requires Verdicts(verdict, s) && Enabled(s, Report(i))
    requires mid.round == s.round && mid.ran == s.ran && |mid.threads| == |s.threads|
    requires mid.q.fAllOk == (s.q.fAllOk && s.threads[i].ok)
    requires mid.reported == s.reported + s.threads[i].batch
    requires forall k | 0 <= k < |s.threads| :: mid.threads[k] == s.threads[k] || !mid.threads[k].Running?
    ensures Verdicts(verdict, mid)
  {
    var t := s.threads[i];
    assert ThreadOk(verdict, s, t);
    PassedGrows(verdict, s, mid);
    if mid.q.fAllOk {
      forall c | c in mid.reported
        ensures Passed(verdict, mid, c)
      {
        assert c in s.reported || c in t.batch;
      }
    } else {
      assert SomeFailed(verdict, s);
    }
    forall k | 0 <= k < |mid.threads|
      ensures ThreadOk(verdict, mid, mid.threads[k])
    {
      assert ThreadOk(verdict, s, s.threads[k]);
    }
  }

  /** Running one check moves it from pending to run, or drops it once something has failed. */
  lemma RunCheckAccounting(verdict: Check -> bool, s: State, i: nat, s': State)
    requires Accounting(s, 0) && Enabled(s, RunCheck(i)) && s.q.nTotal >= 0 && s.q.nIdle >= 0
    requires s' == Next(verdict, s, RunCheck(i))
    ensures Accounting(s', 0)
  {
    var t, t' := s.threads[i], s'.threads[i];
    var c := t.batch[t.done];
    ReplaceTotal(s.threads, i, t');
    assert t.batch[t.done..] == [c] + t.batch[t.done + 1..];
    forall x
      ensures Conserved(s', x) && RunOnce(s', x)
    {
      assert Conserved(s, x) && RunOnce(s, x);
      ReplaceOcc(s.threads, i, t', x);
      OccAppend([c], t.batch[t.done + 1..], x);
      OccAppend(s.ran, [c], x);
    }
  }

  lemma RunCheckKeeps(verdict: Check -> bool, s: State, i: nat)
    requires Inv(verdict, s) && Enabled(s, RunCheck(i))
    ensures s.q.nTotal >= 0 && s.q.nIdle >= 0
    ensures Inv(verdict, Next(verdict, s, RunCheck(i)))
  {
    var s' := Next(verdict, s, RunCheck(i));
    RunCheckAccounting(verdict, s, i, s');
    RunCheckThread(verdict, s, i, s');
    VerdictsFrame(verdict, s, s');
    HistoryFrame(verdict, s, s');
  }

  lemma RunCheckThread(verdict: Check -> bool, s: State, i: nat, s': State)
    requires Verdicts(verdict, s) && (forall c :: Conserved(s, c))
    requires Enabled(s, RunCheck(i)) && s.q.nTotal >= 0 && s.q.nIdle >= 0
    requires s' == Next(verdict, s, RunCheck(i))
    ensures ThreadOk(verdict, s', s'.threads[i])
  {
    var t := s.threads[i];
    assert ThreadOk(verdict, s, t);
    PassedGrows(verdict, s, s');
    InRound(s, i, t.done);
  }

  lemma InRound(s: State, i: nat, j: nat)
    requires (forall c :: Conserved(s, c))
    requires i < |s.threads| && s.threads[i].Running? && j < |s.threads[i].batch|
    ensures s.threads[i].batch[j] in s.round
  {
    var c := s.threads[i].batch[j];
    assert Conserved(s, c);
    ReplaceOcc(s.threads, i, Outside, c);
    OccMember(s.threads[i].batch, c);
    OccMember(s.round, c);
  }

  lemma AddKeeps(verdict: Check -> bool, s: State, checks: seq<Check>, target: nat)
    requires Inv(verdict, s) && Enabled(s, Add(checks, target))
    ensures s.q.nTotal >= 0 && s.q.nIdle >= 0
    ensures Inv(verdict, Next(verdict, s, Add(checks, target)))
  {
    var s' := Next(verdict, s, Add(checks, target));
    AddAccounting(s, s', checks);
    AddVerdicts(verdict, s, s', checks);
    forall w | w in s'.waits
      ensures CompletedOk(verdict, s', w)
    {
      assert CompletedOk(verdict, s, w);
    }
    assert Concat(s'.waits) + s'.round == s'.added;
  }

  lemma AddAccounting(s: State, s': State, checks: seq<Check>)
    requires Accounting(s, 0) && SameWork(s.threads, s'.threads) && NoDuplicates(s.added + checks)
    requires s'.q == s.q.(queue := s.q.queue + checks, nTodo := s.q.nTodo + |checks|)
    requires s'.round == s.round + checks && s'.added == s.added + checks && s'.ran == s.ran && s'.reported == s.reported
    ensures Accounting(s', 0)
  {
    SameTotal(s.threads, s'.threads);
    forall c
      ensures Conserved(s', c) && RunOnce(s', c)
    {
      assert Conserved(s, c) && RunOnce(s, c);
      SameOcc(s.threads, s'.threads, c);
      OccAppend(s.q.queue, checks, c);
      OccAppend(s.round, checks, c);
      OccAppend(s.added, checks, c);
    }
  }

  lemma AddVerdicts(verdict: Check -> bool, s: State, s': State, checks: seq<Check>)
    requires Verdicts(verdict, s)
    requires s'.round == s.round + checks && s'.ran == s.ran && s'.reported == s.reported && s'.q.fAllOk == s.q.fAllOk
    requires |s'.threads| == |s.threads|
    requires forall k | 0 <= k < |s.threads| :: s'.threads[k] == s.threads[k] || !s'.threads[k].Running?
    ensures Verdicts(verdict, s')
  {
    PassedGrows(verdict, s, s');
    assert SomeFailed(verdict, s) ==> SomeFailed(verdict, s');
    forall k | 0 <= k < |s'.threads|
      ensures ThreadOk(verdict, s', s'.threads[k])
    {
      assert ThreadOk(verdict, s, s.threads[k]);
    }
  }

  /* ---- Whole runs ---- */

  lemma StepKeeps(verdict: Check -> bool, s: State, step: Step)
    requires Inv(verdict, s) && Enabled(s, step)
    ensures s.q.nTotal >= 0 && s.q.nIdle >= 0 && (step.Wake? ==> s.q.nIdle >= 1)
    ensures Inv(verdict, Next(verdict, s, step))
  {
    match step
    case Add(checks, target) => AddKeeps(verdict, s, checks, target);
    case Enter(i) => EnterKeeps(verdict, s, i);
    case RunCheck(i) => RunCheckKeeps(verdict, s, i);
    case Report(i) => ReportKeeps(verdict, s, i);
    case Wake(i) => WakeKeeps(verdict, s, i);
  }

  /** `run` leads from `s` to `s'`, every step being enabled where it is taken. */
  ghost predicate Reaches(verdict: Check -> bool, s: State, run: seq<Step>, s': State)
    decreases |run|
  {
    if run == [] then s' == s
    else
      && Enabled(s, run[0])
      && s.q.nTotal >= 0 && s.q.nIdle >= 0 && (run[0].Wake? ==> s.q.nIdle >= 1)
      && Reaches(verdict, Next(verdict, s, run[0]), run[1..], s')
  }

  lemma {:induction false} RunKeeps(verdict: Check -> bool, s: State, run: seq<Step>, s': State)
    requires Inv(verdict, s) && Reaches(verdict, s, run, s')
    ensures Inv(verdict, s')
    decreases |run|
  {
    if run != [] {
      StepKeeps(verdict, s, run[0]);
      RunKeeps(verdict, Next(verdict, s, run[0]), run[1..], s');
    }
  }

  lemma {:induction false} NobodyInside(n: nat, c: Check)
    ensures Total(seq(n, _ => Outside)) == Tally(0, 0, 0)
    ensures Batches(seq(n, _ => Outside), c) == 0 && Pending(seq(n, _ => Outside), c) == 0
  {
    if n > 0 {
      NobodyInside(n - 1, c);
      assert seq(n, _ => Outside)[1..] == seq(n - 1, _ => Outside);
    }
  }

  lemma InitialInv(verdict: Check -> bool, batchSize: nat, n: nat)
    requires n >= 1
    ensures Inv(verdict, Initial(batchSize, n))
  {
    var s := Initial(batchSize, n);
    forall c
      ensures Conserved(s, c) && RunOnce(s, c) && Total(s.threads) == Tally(0, 0, 0)
    {
      NobodyInside(n, c);
    }
    NobodyInside(n, 0);
  }

  /**
   * For every number of threads, every interleaving and every verdict function: each completed `Wait`
   * returned the conjunction of exactly the checks added since the previous one; a positive answer means
   * that all of them were run; and the rounds cut the sequence of added checks without gap or overlap.
   */
  lemma WaitReturnsConjunction(verdict: Check -> bool, batchSize: nat, n: nat, run: seq<Step>, s: State)
    requires n >= 1 && Reaches(verdict, Initial(batchSize, n), run, s)
    ensures forall w | w in s.waits ::
              && (w.ret <==> forall c | c in w.round :: verdict(c))
              && (w.ret ==> forall c | c in w.round :: c in s.ran)
    ensures Concat(s.waits) + s.round == s.added
  {
    InitialInv(verdict, batchSize, n);
    RunKeeps(verdict, Initial(batchSize, n), run, s);
    assert forall w | w in s.waits :: CompletedOk(verdict, s, w);
  }

  lemma {:induction false} NoDuplicatesOcc(s: seq<Check>, c: Check)
    requires NoDuplicates(s)
    ensures Occ(s, c) <= 1
  {
    if s != [] {
      NoDuplicatesOcc(s[..|s| - 1], c);
      OccMember(s[..|s| - 1], c);
    }
  }

  /** No check is run twice, and only checks that were added are run. */
  lemma NoCheckRunsTwice(verdict: Check -> bool, batchSize: nat, n: nat, run: seq<Step>, s: State)
    requires n >= 1 && Reaches(verdict, Initial(batchSize, n), run, s)
    ensures forall c :: Occ(s.ran, c) <= 1
    ensures forall c | c in s.ran :: c in s.added
  {
    InitialInv(verdict, batchSize, n);
    RunKeeps(verdict, Initial(batchSize, n), run, s);
    forall c
      ensures Occ(s.ran, c) <= 1 && (c in s.ran ==> c in s.added)
    {
      assert RunOnce(s, c);
      NoDuplicatesOcc(s.added, c);
      OccMember(s.ran, c);
      OccMember(s.added, c);
    }
  }

  /** The counter of unfinished checks is what is queued plus what is in flight, and the busy threads are those holding a batch. */
  lemma CountersAreExact(verdict: Check -> bool, batchSize: nat, n: nat, run: seq<Step>, s: State)
    requires n >= 1 && Reaches(verdict, Initial(batchSize, n), run, s)
    ensures s.q.nTodo == |s.q.queue| + InFlight(s.threads)
    ensures s.q.nTotal - s.q.nIdle == Busy(s.threads)
  {
    InitialInv(verdict, batchSize, n);
    RunKeeps(verdict, Initial(batchSize, n), run, s);
    TotalIsExact(s.threads);
  }

  function InFlight(ts: seq<Thread>): nat {
    if ts == [] then 0 else InFlight(ts[1..]) + (if ts[0].Running? then |ts[0].batch| else 0)
  }

  function Busy(ts: seq<Thread>): nat {
    if ts == [] then 0 else Busy(ts[1..]) + (if ts[0].Running? then 1 else 0)
  }

  lemma {:induction false} TotalIsExact(ts: seq<Thread>)
    ensures InFlight(ts) == Total(ts).load && Busy(ts) == Total(ts).inside - Total(ts).asleep
  {
    if ts != [] {
      TotalIsExact(ts[1..]);
    }
  }

  predicate IsIdle(q: Shared) {
    q.nTotal == q.nIdle && q.nTodo == 0 && q.fAllOk
  }

  /** Between a completed `Wait` and the next `Add` the queue is idle, as the controller's constructor asserts. */
  lemma IdleAfterWait(verdict: Check -> bool, batchSize: nat, n: nat, run: seq<Step>, s: State)
    requires n >= 1 && Reaches(verdict, Initial(batchSize, n), run, s)
    requires s.threads != [] && s.threads[0].Outside? && s.round == []
    ensures IsIdle(s.q) && s.q.nTotal == s.q.nIdle && s.q.nTodo == 0 && s.q.fAllOk
  {
    InitialInv(verdict, batchSize, n);
    RunKeeps(verdict, Initial(batchSize, n), run, s);
    if s.q.queue != [] {
      var c := s.q.queue[|s.q.queue| - 1];
      assert Conserved(s, c);
      OccMember(s.q.queue, c);
      assert false;
    }
    forall k | 0 <= k < |s.threads|
      ensures !s.threads[k].Running?
    {
      assert ThreadOk(verdict, s, s.threads[k]);
      if s.threads[k].Running? {
        InRound(s, k, 0);
      }
    }
    NobodyRunsNoLoad(s.threads);
    TotalIsExact(s.threads);
  }

  lemma {:induction false} NobodyRunsNoLoad(ts: seq<Thread>)
    requires forall k | 0 <= k < |ts| :: !ts[k].Running?
    ensures InFlight(ts) == 0 && Busy(ts) == 0
  {
    if ts != [] {
      NobodyRunsNoLoad(ts[1..]);
    }
  }

  /* ---- A wait always makes progress ---- */

  /** While the master is inside `Wait`, some thread holds a batch or the master has been told to wake up, which happens exactly when nothing is left to do. */
  lemma NoLostWakeup(verdict: Check -> bool, batchSize: nat, n: nat, run: seq<Step>, s: State)
    requires n >= 1 && Reaches(verdict, Initial(batchSize, n), run, s)
    requires s.threads != [] && !s.threads[0].Outside?
    ensures s.threads[0] == Waiting(true) || exists k | 0 <= k < |s.threads| :: s.threads[k].Running?
    ensures s.threads[0].Waiting? ==> (s.threads[0].notified <==> s.q.nTodo == 0)
  {
    InitialInv(verdict, batchSize, n);
    RunKeeps(verdict, Initial(batchSize, n), run, s);
    if forall k | 0 <= k < |s.threads| :: !s.threads[k].Running? {
      NobodyRunsNoLoad(s.threads);
      TotalIsExact(s.threads);
    }
  }

  /** The work left: queued checks count double, so that taking a batch does not increase it. */
  function Work(s: State): nat {
    2 * |s.q.queue| + Unfinished(s.threads)
  }

  function ThreadWork(t: Thread): nat {
    if t.Running? then 1 + (if t.done <= |t.batch| then |t.batch| - t.done else 0) else 0
  }

  function Unfinished(ts: seq<Thread>): nat {
    if ts == [] then 0 else ThreadWork(ts[0]) + Unfinished(ts[1..])
  }

  lemma {:induction false} ReplaceWork(ts: seq<Thread>, i: nat, t: Thread)
    requires i < |ts|
    ensures Unfinished(ts[i := t]) + ThreadWork(ts[i]) == Unfinished(ts) + ThreadWork(t)
  {
    if i == 0 {
      assert ts[i := t][1..] == ts[1..];
    } else {
      ReplaceWork(ts[1..], i - 1, t);
      assert ts[i := t][1..] == ts[1..][i - 1 := t];
    }
  }

  lemma LeaveWork(s: State, q: Shared, threads: seq<Thread>, i: nat)
    requires i < |threads| && q.nTotal >= 0 && q.nIdle >= 0
    ensures Work(Leave(s, q, threads, i)) + ThreadWork(threads[i]) <= 2 * |q.queue| + Unfinished(threads)
  {
    ReplaceWork(threads, i, LoopHead(q, i == 0).1);
  }

  /** Running a check and reporting a batch strictly decrease the work, entering and waking never increase it. */
  lemma WorkDecreases(verdict: Check -> bool, s: State, step: Step)
    requires Enabled(s, step) && !step.Add?
    requires s.q.nTotal >= 0 && s.q.nIdle >= 0 && (step.Wake? ==> s.q.nIdle >= 1)
    ensures Work(Next(verdict, s, step)) <= Work(s)
    ensures step.RunCheck? || step.Report? ==> Work(Next(verdict, s, step)) < Work(s)
  {
    match step
    case Enter(i) =>
      LeaveWork(s, s.q.(nTotal := s.q.nTotal + 1), s.threads, i);
    case RunCheck(i) =>
      ReplaceWork(s.threads, i, Next(verdict, s, step).threads[i]);
    case Report(i) =>
      var q := FinishBatch(s.q, s.threads[i]);
      var threads := if NotifiesMaster(q, i == 0) then NotifyMaster(s.threads) else s.threads;
      if threads != s.threads {
        ReplaceWork(s.threads, 0, Waiting(true));
      }
      LeaveWork(s.(reported := s.reported + s.threads[i].batch), q, threads, i);
    case Wake(i) =>
      LeaveWork(s, s.q.(nIdle := s.q.nIdle - 1), s.threads, i);
  }

  function BusySteps(run: seq<Step>): nat {
    if run == [] then 0 else BusySteps(run[1..]) + (if run[0].RunCheck? || run[0].Report? then 1 else 0)
  }

  /** Between two calls of `Add`, the checks run and the batches reported are bounded by the work there was. */
  lemma {:induction false} WorkBoundsRuns(verdict: Check -> bool, s: State, run: seq<Step>, s': State)
    requires Reaches(verdict, s, run, s') && forall step | step in run :: !step.Add?
    ensures BusySteps(run) + Work(s') <= Work(s)
    decreases |run|
  {
    if run != [] {
      WorkDecreases(verdict, s, run[0]);
      WorkBoundsRuns(verdict, Next(verdict, s, run[0]), run[1..], s');
    }
  }

  /** When nobody holds a batch, the master that is inside sleeps, and waking it ends its `Wait`. */
  lemma WakeEnds(verdict: Check -> bool, s: State)
    requires Inv(verdict, s) && !s.threads[0].Outside?
    requires forall k | 0 <= k < |s.threads| :: !s.threads[k].Running?
    ensures Enabled(s, Wake(0)) && s.q.nTotal >= 0 && s.q.nIdle >= 1
    ensures var s' := Next(verdict, s, Wake(0));
            |s'.waits| == |s.waits| + 1 && s'.added == s.added && s'.round == [] && s'.threads != [] && s'.threads[0].Outside?
  {
    StepKeeps(verdict, s, Wake(0));
    NobodyRunsNoLoad(s.threads);
    TotalIsExact(s.threads);
  }

  /** What a thread that holds a batch does next. */
  function BusyStep(s: State, k: nat): (step: Step)
    requires k < |s.threads| && s.threads[k].Running?
    ensures Enabled(s, step) && (step.RunCheck? || step.Report?)
  {
    if s.threads[k].done < |s.threads[k].batch| then RunCheck(k) else Report(k)
  }

  lemma OneMore(verdict: Check -> bool, s: State, step: Step, rest: seq<Step>, s': State) returns (run: seq<Step>)
    requires Enabled(s, step) && (step.Wake? ==> s.q.nIdle >= 1)
    requires s.q.nTotal >= 0 && s.q.nIdle >= 0 && Reaches(verdict, Next(verdict, s, step), rest, s')
    ensures run == [step] + rest && Reaches(verdict, s, run, s')
  {
    run := [step] + rest;
    assert run[1..] == rest;
  }

  /** A step of a thread that holds a batch leaves less work; it may end the master's `Wait`. */
  lemma BusyAdvances(verdict: Check -> bool, s: State, k: nat) returns (step: Step, s': State)
    requires Inv(verdict, s) && !s.threads[0].Outside? && k < |s.threads| && s.threads[k].Running?
    ensures step == BusyStep(s, k) && s.q.nTotal >= 0 && s.q.nIdle >= 0 && s' == Next(verdict, s, step)
    ensures Inv(verdict, s') && Work(s') < Work(s) && s'.added == s.added
    ensures if s'.threads[0].Outside? then |s'.waits| == |s.waits| + 1 && s'.round == [] else |s'.waits| == |s.waits|
  {
    step := BusyStep(s, k);
    StepKeeps(verdict, s, step);
    WorkDecreases(verdict, s, step);
    s' := Next(verdict, s, step);
  }

  /** The threads that hold batches bring the master's `Wait` to its end without waiting for anyone else. */
  lemma {:induction false} WaitEnds(verdict: Check -> bool, s: State) returns (run: seq<Step>, s': State)
    requires Inv(verdict, s) && !s.threads[0].Outside?
    ensures Reaches(verdict, s, run, s') && |s'.waits| == |s.waits| + 1
    ensures s'.added == s.added && s'.round == [] && s'.threads != [] && s'.threads[0].Outside?
    ensures |run| <= Work(s) + 1 && forall step | step in run :: !step.Add?
    decreases Work(s)
  {
    if k :| 0 <= k < |s.threads| && s.threads[k].Running? {
      var step, s1 := BusyAdvances(verdict, s, k);
      var rest: seq<Step>;
      if s1.threads[0].Outside? {
        rest, s' := [], s1;
      } else {
        rest, s' := WaitEnds(verdict, s1);
      }
      run := OneMore(verdict, s, step, rest, s');
    } else {
      WakeEnds(verdict, s);
      run, s' := [Wake(0)], Next(verdict, s, Wake(0));
      assert run[1..] == [];
    }
  }

  /** Distinct checks are added to a fresh queue, and the master enters it. */
  lemma RoundBegins(verdict: Check -> bool, batchSize: nat, n: nat, checks: seq<Check>) returns (s1: State, s2: State)
    requires n >= 1 && NoDuplicates(checks)
    ensures Enabled(Initial(batchSize, n), Add(checks, 0)) && s1 == Next(verdict, Initial(batchSize, n), Add(checks, 0))
    ensures s1.q.nTotal >= 0 && s1.q.nIdle >= 0 && Enabled(s1, Enter(0)) && s2 == Next(verdict, s1, Enter(0))
    ensures Inv(verdict, s2) && s2.added == checks
    ensures if s2.threads[0].Outside? then |s2.waits| == 1 && s2.round == [] else s2.waits == []
  {
    InitialInv(verdict, batchSize, n);
    var s0 := Initial(batchSize, n);
    assert [] + checks == checks;
    StepKeeps(verdict, s0, Add(checks, 0));
    s1 := Next(verdict, s0, Add(checks, 0));
    StepKeeps(verdict, s1, Enter(0));
    s2 := Next(verdict, s1, Enter(0));
  }

  /**
   * A whole round: whatever distinct checks are added to a fresh queue, with any number of threads, there is a run that
   * adds them, lets the master wait, and completes the wait with the conjunction of their verdicts.
   */
  lemma RoundCompletes(verdict: Check -> bool, batchSize: nat, n: nat, checks: seq<Check>) returns (run: seq<Step>, s: State)
    requires n >= 1 && NoDuplicates(checks)
    ensures Reaches(verdict, Initial(batchSize, n), run, s) && |s.waits| == 1
    ensures s.waits[0].round == checks && (s.waits[0].ret <==> forall c | c in checks :: verdict(c))
  {
    var s1, s2 := RoundBegins(verdict, batchSize, n, checks);
    var rest: seq<Step>;
    if s2.threads[0].Outside? {
      rest, s := [], s2;
    } else {
      rest, s := WaitEnds(verdict, s2);
    }
    run := OneMore(verdict, s1, Enter(0), rest, s);
    run := OneMore(verdict, Initial(batchSize, n), Add(checks, 0), run, s);
    WaitReturnsConjunction(verdict, batchSize, n, run, s);
    assert s.waits[..0] == [] && Concat(s.waits[..0]) == [];
    assert s.waits[0] in s.waits;
  }

  /**
   * Whom an `Add` wakes: nobody if it adds nothing; one sleeping worker, if there is one not yet notified, for a single
   * check; all of them for more. Nobody else is touched.
   */
  lemma AddNotifies(verdict: Check -> bool, s: State, checks: seq<Check>, target: nat)
    requires Enabled(s, Add(checks, target)) && s.q.nTotal >= 0 && s.q.nIdle >= 0
    ensures var ts, ts' := s.threads, Next(verdict, s, Add(checks, target)).threads;
            && |ts'| == |ts|
            && forall k | 0 <= k < |ts| ::
                 if k > 0 && ts[k] == Waiting(false) && (|checks| >= 2 || (|checks| == 1 && k == target)) then ts'[k] == Waiting(true)
                 else ts'[k] == ts[k]
    ensures (exists k | 0 < k < |s.threads| :: s.threads[k] == Waiting(false)) ==>
              0 < target < |s.threads| && s.threads[target] == Waiting(false)
  {
    if k :| 0 < k < |s.threads| && s.threads[k] == Waiting(false) {
      assert Wakeable(s.threads[k]);
    }
  }

  /* ---- The object ---- */

  /** The queue object. Each method is one stretch of the source executed under the mutex. */
  class CheckQueueObject {
    const nBatchSize: nat
    var queue: seq<Check>
    var nIdle: int
    var nTotal: int
    var fAllOk: bool
    var nTodo: int

    ghost function Value(): Shared
      reads this
    {
      Shared(queue, nIdle, nTotal, fAllOk, nTodo, nBatchSize)
    }

    constructor (batchSize: nat)
      ensures Value() == Initial(batchSize, 1).q
    {
      nBatchSize := batchSize;
      queue, nIdle, nTotal, fAllOk, nTodo := [], 0, 0, true, 0;
    }

    /** Take a batch, return from `Wait` or decide to sleep; the result is what the thread does next. */
    method Proceed(master: bool) returns (t: Thread, ret: bool)
      requires nTotal >= 0 && nIdle >= 0
      modifies this
      ensures (Value(), t) == LoopHead(old(Value()), master)
      ensures ret == old(fAllOk)
    {
      ret := fAllOk;
      if queue == [] {
        if master && nTodo == 0 {
          nTotal := nTotal - 1;
          fAllOk := true;
          return Outside, ret;
        }
        nIdle := nIdle + 1;
        return Waiting(false), ret;
      }
      var nNow := Max(1, Min(nBatchSize, |queue| / (nTotal + nIdle + 1)));
      assert nNow == BatchLength(Value());
      var vChecks := TakeBatch(nNow);
      t := Running(vChecks, 0, fAllOk);
    }

    /** Move the last `nNow` checks of the queue, one by one, into the thread's own batch. */
    method TakeBatch(nNow: nat) returns (vChecks: seq<Check>)
      requires nNow <= |queue|
      modifies this`queue
      ensures queue == old(queue)[..old(|queue|) - nNow]
      ensures vChecks == Reversed(old(queue)[old(|queue|) - nNow..])
    {
      ghost var n := |queue| - nNow;
      vChecks := [];
      for i := 0 to nNow
        invariant |queue| + i == old(|queue|)
        invariant queue == old(queue)[..|queue|]
        invariant vChecks + Reversed(queue[n..]) == Reversed(old(queue)[n..])
      {
        var last := queue[|queue| - 1];
        ghost var before := queue[n..];
        assert before[..|before| - 1] == queue[..|queue| - 1][n..];
        assert Reversed(before) == [last] + Reversed(before[..|before| - 1]);
        vChecks := vChecks + [last];
        queue := queue[..|queue| - 1];
      }
      assert queue[n..] == [];
    }

    /** Account for a finished batch; the result says whether the master's condition is notified. */
    method Finish(t: Thread, master: bool) returns (notifyMaster: bool)
      requires t.Running?
      modifies this
      ensures Value() == FinishBatch(old(Value()), t)
      ensures notifyMaster == NotifiesMaster(Value(), master)
    {
      fAllOk := fAllOk && t.ok;
      nTodo := nTodo - |t.batch|;
      notifyMaster := nTodo == 0 && !master;
    }

    /** Queue the checks of one `Add`; the result says how the workers' condition is notified. */
    method Enqueue(checks: seq<Check>) returns (call: Call)
      modifies this
      ensures call == CallFor(|checks|)
      ensures Value() == old(Value()).(queue := old(queue) + checks, nTodo := old(nTodo) + |checks|)
    {
      for i := 0 to |checks|
        invariant queue == old(queue) + checks[..i]
        invariant nIdle == old(nIdle) && nTotal == old(nTotal) && fAllOk == old(fAllOk) && nTodo == old(nTodo)
      {
        queue := queue + [checks[i]];
      }
      assert checks[..|checks|] == checks;
      nTodo := nTodo + |checks|;
      if |checks| == 1 {
        call := NotifyOne;
      } else if |checks| > 1 {
        call := NotifyAll;
      } else {
        call := NotifyNone;
      }
    }
  }
}
