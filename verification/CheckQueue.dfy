/**
The script check queue of src/checkqueue.h: one master thread and any number of worker
threads that share a queue of checks under one mutex.

The protocol is a state machine.  An event is what one thread does between acquiring and
releasing the mutex, or the run of one check or the notification of the workers outside it, so
the events of a run are an arbitrary interleaving of the threads.  Thread 0 is the master.  Condition variables may
wake a thread without a notification.  No stop is requested.
*/
module CheckQueue {

  datatype Check = Check(id: nat, passes: bool)

  datatype Thread =
    | Outside                                                // not in Loop (the master between two calls of Wait)
    | Notifying(size: nat)                                   // in Add, checks pushed, mutex released, workers not notified
    | AtLock(nNow: nat, fOk: bool)                           // about to acquire the mutex, nNow checks finished
    | Waiting(notified: bool)                                // in cond.wait
    | Running(batch: seq<Check>, next: nat, fOk: bool)       // batch[..next] are done
    | Deciding                                               // inside the critical section

  /** The members of CCheckQueue, and, as history of the current round of the master, the
      checks added, those that were run and those that were skipped. */
  datatype State = State(
    threads: seq<Thread>, queue: seq<Check>, nIdle: int, nTotal: int, nTodo: int, fAllOk: bool, nBatchSize: nat,
    added: multiset<Check>, ran: multiset<Check>, skipped: multiset<Check>)

  datatype Event =
    | Add(checks: seq<Check>)              // the master pushes checks
    | NotifyWorkers(pick: nat)             // and then notifies; pick: the worker notify_one chooses
    | StartWait                            // the master calls Wait
    | Acquire(t: nat)                      // a thread acquires the mutex at the top of Loop
    | Wake(t: nat)                         // a thread returns from cond.wait
    | RunCheck(t: nat)                     // a thread handles one check of its batch

  // ---------------------------------------------------------------- steps

  function Notify(th: Thread): Thread {
    if th.Waiting? then Waiting(true) else th
  }

  function NotifyAllWorkers(threads: seq<Thread>): (r: seq<Thread>)
    ensures |r| == |threads|
  {
    if |threads| <= 1 then threads
    else NotifyAllWorkers(threads[..|threads| - 1]) + [Notify(threads[|threads| - 1])]
  }

  function Min(a: int, b: int): int { if a < b then a else b }
  function Max(a: int, b: int): int { if a < b then b else a }

  /** The size of the batch a thread takes. */
  function BatchSize(s: State): int
    requires s.nTotal + s.nIdle + 1 > 0
  {
    Max(1, Min(s.nBatchSize, |s.queue| / (s.nTotal + s.nIdle + 1)))
  }

  function Reversed(checks: seq<Check>): (r: seq<Check>)
    ensures |r| == |checks|
  {
    if checks == [] then [] else [checks[|checks| - 1]] + Reversed(checks[..|checks| - 1])
  }

  /** The part of the critical section after the counters are updated. */
  function Decide(s: State, t: nat): State
    requires t < |s.threads| && s.nTotal + s.nIdle + 1 > 0 && (s.queue != [] ==> BatchSize(s) <= |s.queue|)
  {
    if s.queue == [] then
      if t == 0 && s.nTodo == 0 then
        s.(nTotal := s.nTotal - 1, fAllOk := true, threads := s.threads[0 := Outside],
           added := multiset{}, ran := multiset{}, skipped := multiset{})
      else
        s.(nIdle := s.nIdle + 1, threads := s.threads[t := Waiting(false)])
    else
      var keep := |s.queue| - BatchSize(s);
      s.(queue := s.queue[..keep],
         threads := s.threads[t := Running(Reversed(s.queue[keep..]), 0, s.fAllOk)])
  }

  /** Accounting for a finished batch, with the notification of the master. */
  function Report(s: State, t: nat, nNow: nat, fOk: bool): State
    requires t < |s.threads|
  {
    var nTodo := s.nTodo - nNow;
    s.(fAllOk := s.fAllOk && fOk, nTodo := nTodo,
       threads := if nTodo == 0 && t != 0 then s.threads[0 := Notify(s.threads[0])] else s.threads)
  }

  /** The state in which an acquiring thread decides; its own finished batch is accounted for. */
  function Entered(s: State, t: nat): State
    requires t < |s.threads| && s.threads[t].AtLock?
  {
    var th := s.threads[t];
    var s1 := if th.nNow > 0 then Report(s, t, th.nNow, th.fOk) else s.(nTotal := s.nTotal + 1);
    s1.(threads := s1.threads[t := Deciding])
  }

  function Woken(s: State, t: nat): State
    requires t < |s.threads|
  {
    s.(nIdle := s.nIdle - 1, threads := s.threads[t := Deciding])
  }

  predicate CanDecide(s: State, t: nat) {
    && t < |s.threads|
    && s.nTotal + s.nIdle + 1 > 0
    && (s.queue != [] ==> BatchSize(s) <= |s.queue|)
  }

  predicate Enabled(s: State, e: Event) {
    && |s.threads| > 0
    && match e
       case Add(checks) => s.threads[0].Outside?
       case NotifyWorkers(pick) => s.threads[0].Notifying?
       case StartWait => s.threads[0].Outside?
       case Acquire(t) => t < |s.threads| && s.threads[t].AtLock?
       case Wake(t) => t < |s.threads| && s.threads[t].Waiting?
       case RunCheck(t) => t < |s.threads| && s.threads[t].Running? && s.threads[t].next < |s.threads[t].batch|
  }

  /** The arithmetic of the step is defined: no division by zero, no batch longer than the queue. */
  predicate Defined(s: State, e: Event)
    requires Enabled(s, e)
  {
    match e
    case Acquire(t) => CanDecide(Entered(s, t), t)
    case Wake(t) => CanDecide(Woken(s, t), t)
    case _ => true
  }

  function Next(s: State, e: Event): State
    requires Enabled(s, e) && Defined(s, e)
  {
    match e
    case Add(checks) =>
      if checks == [] then s else
        s.(queue := s.queue + checks, nTodo := s.nTodo + |checks|, added := s.added + multiset(checks),
           threads := s.threads[0 := Notifying(|checks|)])
    case NotifyWorkers(pick) =>
      var threads := s.threads[0 := Outside];
      s.(threads := if s.threads[0].size == 1 then
                      if 0 < pick < |threads| then threads[pick := Notify(threads[pick])] else threads
                    else NotifyAllWorkers(threads))
    case StartWait =>
      s.(threads := s.threads[0 := AtLock(0, true)])
    case Acquire(t) =>
      Decide(Entered(s, t), t)
    case Wake(t) =>
      Decide(Woken(s, t), t)
    case RunCheck(t) =>
      var th := s.threads[t];
      var check := th.batch[th.next];
      var fOk := th.fOk && check.passes;
      s.(threads := s.threads[t := if th.next + 1 == |th.batch| then AtLock(|th.batch|, fOk)
                                   else Running(th.batch, th.next + 1, fOk)],
         ran := if th.fOk then s.ran + multiset{check} else s.ran,
         skipped := if th.fOk then s.skipped else s.skipped + multiset{check})
  }

  /** The master and `workers` freshly started worker threads. */
  function Initial(workers: nat, nBatchSize: nat): State {
    State([Outside] + seq(workers, i => AtLock(0, true)), [], 0, 0, 0, true, nBatchSize,
          multiset{}, multiset{}, multiset{})
  }

  // ---------------------------------------------------------------- sums over the threads

  /** Checks taken from the queue and not yet subtracted from nTodo. */
  function Pending(th: Thread): nat {
    match th
    case AtLock(nNow, _) => nNow
    case Running(batch, _, _) => |batch|
    case _ => 0
  }

  function IsIdle(th: Thread): nat { if th.Waiting? then 1 else 0 }

  /** Whether nTotal counts the thread; a thread that has not been in the critical section
      since it entered Loop is `AtLock(0, _)`. */
  function IsCounted(th: Thread): nat {
    if th.Outside? || th.Notifying? || (th.AtLock? && th.nNow == 0) then 0 else 1
  }

  function Remaining(th: Thread): multiset<Check> {
    if th.Running? && th.next <= |th.batch| then multiset(th.batch[th.next..]) else multiset{}
  }

  function CopiesOf(check: Check): Thread -> nat {
    th => Remaining(th)[check]
  }

  function Sum(f: Thread -> nat, threads: seq<Thread>): nat {
    if threads == [] then 0 else Sum(f, threads[..|threads| - 1]) + f(threads[|threads| - 1])
  }

  lemma {:induction false} SumUpdate(f: Thread -> nat, threads: seq<Thread>, t: nat, th: Thread)
    requires t < |threads|
    ensures Sum(f, threads[t := th]) == Sum(f, threads) - f(threads[t]) + f(th)
    decreases |threads|
  {
    var n := |threads| - 1;
    if t < n {
      assert threads[t := th][..n] == threads[..n][t := th];
      SumUpdate(f, threads[..n], t, th);
    } else {
      assert threads[t := th][..n] == threads[..n];
    }
  }

  lemma {:induction false} SumZero(f: Thread -> nat, threads: seq<Thread>, t: nat)
    requires t < |threads| && Sum(f, threads) == 0
    ensures f(threads[t]) == 0
    decreases |threads|
  {
    if t < |threads| - 1 {
      SumZero(f, threads[..|threads| - 1], t);
    }
  }

  /** Some thread contributes to a positive sum. */
  lemma {:induction false} SumPositive(f: Thread -> nat, threads: seq<Thread>) returns (t: nat)
    requires Sum(f, threads) > 0
    ensures t < |threads| && f(threads[t]) > 0
    decreases |threads|
  {
    var n := |threads| - 1;
    if f(threads[n]) > 0 {
      t := n;
    } else {
      t := SumPositive(f, threads[..n]);
    }
  }

  lemma {:induction false} ReversedContents(checks: seq<Check>)
    ensures multiset(Reversed(checks)) == multiset(checks)
    decreases |checks|
  {
    if checks != [] {
      var n := |checks| - 1;
      ReversedContents(checks[..n]);
      assert checks == checks[..n] + [checks[n]];
    }
  }

  // ---------------------------------------------------------------- the invariant

  ghost predicate WellFormed(th: Thread) {
    th.Running? ==> th.next < |th.batch|
  }

  /** Some check of this round was run and failed. */
  ghost predicate Failed(s: State) {
    exists check :: check in s.ran && !check.passes
  }

  /** A thread that has seen a failure and not yet reported it. */
  predicate HoldsFailure(th: Thread) {
    (th.Running? && !th.fOk) || (th.AtLock? && th.nNow > 0 && !th.fOk)
  }

  ghost predicate SomeoneKnows(s: State) {
    !s.fAllOk || exists t :: 0 <= t < |s.threads| && HoldsFailure(s.threads[t])
  }

  ghost predicate Counters(s: State) {
    && s.nTodo == |s.queue| + Sum(Pending, s.threads)
    && s.nIdle == Sum(IsIdle, s.threads)
    && s.nTotal == Sum(IsCounted, s.threads)
  }

  /** Every added check is in exactly one place. */
  ghost predicate Conserved(s: State) {
    forall check :: Accounted(s, check)
  }

  ghost predicate Accounted(s: State, check: Check) {
    s.added[check] == multiset(s.queue)[check] + Sum(CopiesOf(check), s.threads) + s.ran[check] + s.skipped[check]
  }

  ghost predicate Verdicts(s: State) {
    && (Failed(s) <==> SomeoneKnows(s))
    && (s.skipped != multiset{} ==> Failed(s))
  }

  /** A master asleep without a notification: nothing is queued, something is in flight. */
  ghost predicate MasterSleepsSafely(s: State)
    requires |s.threads| > 0
  {
    && (s.threads[0].Waiting? ==> s.queue == [])
    && (s.threads[0] == Waiting(false) ==> s.nTodo > 0)
  }

  ghost predicate Core(s: State) {
    && |s.threads| > 0
    && (forall t | 0 <= t < |s.threads| :: WellFormed(s.threads[t]))
    && (forall t | 0 < t < |s.threads| :: !s.threads[t].Outside? && !s.threads[t].Notifying?)
    && Counters(s) && Conserved(s) && Verdicts(s)
  }

  ghost predicate Inv(s: State) {
    Core(s) && MasterSleepsSafely(s)
  }

  /** No thread is inside the critical section: the mutex is free. */
  ghost predicate Unlocked(s: State) {
    forall t | 0 <= t < |s.threads| :: !s.threads[t].Deciding?
  }

  /** The counting sums after one thread changes. */
  lemma SumsUpdate(threads: seq<Thread>, t: nat, th: Thread)
    requires t < |threads|
    ensures Sum(Pending, threads[t := th]) == Sum(Pending, threads) - Pending(threads[t]) + Pending(th)
    ensures Sum(IsIdle, threads[t := th]) == Sum(IsIdle, threads) - IsIdle(threads[t]) + IsIdle(th)
    ensures Sum(IsCounted, threads[t := th]) == Sum(IsCounted, threads) - IsCounted(threads[t]) + IsCounted(th)
  {
    SumUpdate(Pending, threads, t, th);
    SumUpdate(IsIdle, threads, t, th);
    SumUpdate(IsCounted, threads, t, th);
  }

  function Placed(s: State, th: Thread, check: Check): nat {
    multiset(s.queue)[check] + s.ran[check] + s.skipped[check] + Remaining(th)[check]
  }

  /** A step of thread t that moves checks between the places keeps the balance when it
      balances for each check. */
  lemma ConservedUpdate(s: State, s1: State, t: nat, th: Thread)
    requires t < |s.threads| && s1.threads == s.threads[t := th] && Conserved(s)
    requires forall check :: s1.added[check] + Placed(s, s.threads[t], check) == s.added[check] + Placed(s1, th, check)
    ensures Conserved(s1)
  {
    forall check ensures Accounted(s1, check) {
      assert Accounted(s, check);
      SumUpdate(CopiesOf(check), s.threads, t, th);
    }
  }

  lemma HolderUpdate(s: State, t: nat, th: Thread)
    requires t < |s.threads| && (HoldsFailure(s.threads[t]) <==> HoldsFailure(th))
    ensures SomeoneKnows(s.(threads := s.threads[t := th])) <==> SomeoneKnows(s)
  {
    var s1 := s.(threads := s.threads[t := th]);
    if k :| 0 <= k < |s.threads| && HoldsFailure(s.threads[k]) {
      assert HoldsFailure(s1.threads[k]);
    }
    if k :| 0 <= k < |s1.threads| && HoldsFailure(s1.threads[k]) {
      assert HoldsFailure(s.threads[k]);
    }
  }

  /** Notifying a sleeping thread touches only its notified flag. */
  lemma NotifyCore(s: State, t: nat)
    requires Core(s) && t < |s.threads|
    ensures Core(s.(threads := s.threads[t := Notify(s.threads[t])]))
  {
    var th := Notify(s.threads[t]);
    var s1 := s.(threads := s.threads[t := th]);
    assert Counters(s1) by { SumsUpdate(s.threads, t, th); }
    assert Conserved(s1) by { ConservedUpdate(s, s1, t, th); }
    assert Verdicts(s1) by { HolderUpdate(s, t, th); }
  }

  /** Notifying all workers is notifying the last one and then the others. */
  lemma NotifyLast(threads: seq<Thread>, n: nat)
    requires 1 < n <= |threads|
    ensures var next := threads[n - 1 := Notify(threads[n - 1])];
            NotifyAllWorkers(threads[..n]) + threads[n..] == NotifyAllWorkers(next[..n - 1]) + next[n - 1..]
  {
    hide Notify;
    var th := Notify(threads[n - 1]);
    var next := threads[n - 1 := th];
    var front := threads[..n];
    assert front[..n - 1] == next[..n - 1] && front[n - 1] == threads[n - 1];
    assert NotifyAllWorkers(front) == NotifyAllWorkers(next[..n - 1]) + [th];
    assert next[n - 1..] == [th] + threads[n..];
  }

  lemma {:induction false} NotifyAllInv(s: State, n: nat)
    requires 0 < n <= |s.threads| && Inv(s)
    ensures Inv(s.(threads := NotifyAllWorkers(s.threads[..n]) + s.threads[n..]))
    decreases n
  {
    hide Core, Notify, NotifyAllWorkers;
    if n > 1 {
      var s1 := s.(threads := s.threads[n - 1 := Notify(s.threads[n - 1])]);
      NotifyCore(s, n - 1);
      NotifyAllInv(s1, n - 1);
      NotifyLast(s.threads, n);
    } else {
      NotifyOnlyMaster(s.threads);
    }
  }

  lemma NotifyOnlyMaster(threads: seq<Thread>)
    requires |threads| > 0
    ensures NotifyAllWorkers(threads[..1]) + threads[1..] == threads
  {
    assert threads == threads[..1] + threads[1..];
  }

  lemma AddInv(s: State, checks: seq<Check>)
    requires Inv(s) && Enabled(s, Add(checks))
    ensures Inv(Next(s, Add(checks)))
  {
    if checks != [] {
      var th := Notifying(|checks|);
      var s1 := Next(s, Add(checks));
      assert Counters(s1) by { SumsUpdate(s.threads, 0, th); }
      assert Conserved(s1) by { ConservedUpdate(s, s1, 0, th); }
      assert Verdicts(s1) by { HolderUpdate(s, 0, th); }
    }
  }

  /** The master leaves Add. */
  lemma LeaveInv(s: State)
    requires Inv(s) && s.threads[0].Notifying?
    ensures Inv(s.(threads := s.threads[0 := Outside]))
  {
    var s1 := s.(threads := s.threads[0 := Outside]);
    assert Counters(s1) by { SumsUpdate(s.threads, 0, Outside); }
    assert Conserved(s1) by { ConservedUpdate(s, s1, 0, Outside); }
    assert Verdicts(s1) by { HolderUpdate(s, 0, Outside); }
  }

  lemma NotifyWorkersInv(s: State, pick: nat)
    requires Inv(s) && Enabled(s, NotifyWorkers(pick))
    ensures Inv(Next(s, NotifyWorkers(pick)))
  {
    hide Core, Notify, NotifyAllWorkers;
    LeaveInv(s);
    var s1 := s.(threads := s.threads[0 := Outside]);
    if s.threads[0].size == 1 {
      if 0 < pick < |s1.threads| {
        NotifyCore(s1, pick);
      }
    } else {
      NotifyAllInv(s1, |s1.threads|);
      NotifyWhole(s1.threads);
    }
  }

  lemma NotifyWhole(threads: seq<Thread>)
    ensures NotifyAllWorkers(threads[..|threads|]) + threads[|threads|..] == NotifyAllWorkers(threads)
  {
    hide NotifyAllWorkers;
    assert threads[..|threads|] == threads;
  }

  lemma StartWaitInv(s: State)
    requires Inv(s) && Enabled(s, StartWait)
    ensures Inv(Next(s, StartWait))
  {
    var th := AtLock(0, true);
    var s1 := Next(s, StartWait);
    assert Counters(s1) by { SumsUpdate(s.threads, 0, th); }
    assert Conserved(s1) by { ConservedUpdate(s, s1, 0, th); }
    assert Verdicts(s1) by { HolderUpdate(s, 0, th); }
  }

  lemma RunCheckConserved(s: State, t: nat)
    requires Inv(s) && Enabled(s, RunCheck(t))
    ensures Conserved(Next(s, RunCheck(t)))
  {
    var s1 := Next(s, RunCheck(t));
    var th, th1 := s.threads[t], s1.threads[t];
    var check := th.batch[th.next];
    NextOfBatch(th.batch, th.next);
    assert Remaining(th) == multiset{check} + Remaining(th1);
    ConservedUpdate(s, s1, t, th1);
  }

  lemma NextOfBatch(batch: seq<Check>, next: nat)
    requires next < |batch|
    ensures multiset(batch[next..]) == multiset{batch[next]} + multiset(batch[next + 1..])
    ensures next + 1 == |batch| ==> multiset(batch[next..]) == multiset{batch[next]}
  {
    assert batch[next..] == [batch[next]] + batch[next + 1..];
  }

  /** Only the run of a check can discover a failure, and a skip needs one. */
  lemma RunCheckVerdicts(s: State, t: nat)
    requires Inv(s) && Enabled(s, RunCheck(t))
    ensures Verdicts(Next(s, RunCheck(t)))
  {
    var s1 := Next(s, RunCheck(t));
    var th, th1 := s.threads[t], s1.threads[t];
    var check := th.batch[th.next];
    assert forall c :: c in s.ran ==> c in s1.ran;
    if th.fOk && check.passes {
      HolderUpdate(s, t, th1);
      assert SomeoneKnows(s1) <==> SomeoneKnows(s.(threads := s.threads[t := th1]));
      assert forall c :: c in s1.ran && !c.passes ==> c in s.ran;
    } else {
      assert HoldsFailure(s1.threads[t]);
      if th.fOk {
        assert check in s1.ran;
      } else {
        assert HoldsFailure(s.threads[t]);
      }
    }
  }

  lemma RunCheckInv(s: State, t: nat)
    requires Inv(s) && Enabled(s, RunCheck(t))
    ensures Inv(Next(s, RunCheck(t)))
  {
    var s1 := Next(s, RunCheck(t));
    assert Counters(s1) by { SumsUpdate(s.threads, t, s1.threads[t]); }
    RunCheckConserved(s, t);
    RunCheckVerdicts(s, t);
  }

  /** `Entered` without the notification of the master. */
  function Reported(s: State, t: nat): State
    requires t < |s.threads| && s.threads[t].AtLock?
  {
    var th := s.threads[t];
    s.(threads := s.threads[t := Deciding], nTodo := s.nTodo - th.nNow, nTotal := s.nTotal + 1 - IsCounted(th),
       fAllOk := s.fAllOk && (th.nNow == 0 || th.fOk))
  }

  lemma ReportedCore(s: State, t: nat)
    requires Inv(s) && Enabled(s, Acquire(t))
    ensures Core(Reported(s, t))
  {
    var s0 := Reported(s, t);
    assert Counters(s0) by { SumsUpdate(s.threads, t, Deciding); }
    assert Conserved(s0) by { ConservedUpdate(s, s0, t, Deciding); }
    assert SomeoneKnows(s0) <==> SomeoneKnows(s) by {
      if k :| 0 <= k < |s.threads| && HoldsFailure(s.threads[k]) {
        assert k != t ==> HoldsFailure(s0.threads[k]);
      }
      if k :| 0 <= k < |s0.threads| && HoldsFailure(s0.threads[k]) {
        assert HoldsFailure(s.threads[k]);
      }
    }
  }

  /** Reporting a finished batch keeps the invariant, wakes the master when nothing is left,
      and leaves the thread inside the critical section. */
  lemma EnteredInv(s: State, t: nat)
    requires Inv(s) && Enabled(s, Acquire(t))
    ensures Inv(Entered(s, t)) && Entered(s, t).threads[t] == Deciding
  {
    var s0 := Reported(s, t);
    ReportedCore(s, t);
    SumsNonNegative(s0);
    if s.threads[t].nNow > 0 && s0.nTodo == 0 && t != 0 {
      NotifyCore(s0, 0);
      assert Entered(s, t) == s0.(threads := s0.threads[0 := Notify(s0.threads[0])]);
    } else {
      assert Entered(s, t) == s0;
    }
  }

  lemma SumsNonNegative(s: State)
    requires Counters(s)
    ensures s.nTodo >= |s.queue| && s.nIdle >= 0 && s.nTotal >= 0
  {
  }

  lemma WokenInv(s: State, t: nat)
    requires Inv(s) && Enabled(s, Wake(t))
    ensures Inv(Woken(s, t)) && Woken(s, t).threads[t] == Deciding
  {
    var s1 := Woken(s, t);
    assert Counters(s1) by { SumsUpdate(s.threads, t, Deciding); }
    assert Conserved(s1) by { ConservedUpdate(s, s1, t, Deciding); }
    assert Verdicts(s1) by { HolderUpdate(s, t, Deciding); }
  }

  lemma InvCanDecide(s: State, t: nat)
    requires Inv(s) && t < |s.threads|
    ensures CanDecide(s, t)
  {
  }

  lemma SleepInv(s: State, t: nat)
    requires Inv(s) && t < |s.threads| && s.threads[t] == Deciding && s.queue == [] && !(t == 0 && s.nTodo == 0)
    ensures Inv(Decide(s, t))
  {
    var s1 := Decide(s, t);
    assert Counters(s1) by { SumsUpdate(s.threads, t, Waiting(false)); }
    assert Conserved(s1) by { ConservedUpdate(s, s1, t, Waiting(false)); }
    assert Verdicts(s1) by { HolderUpdate(s, t, Waiting(false)); }
    SumsNonNegative(s);
  }

  lemma TakeConserved(s: State, t: nat)
    requires Inv(s) && CanDecide(s, t) && s.threads[t] == Deciding && s.queue != []
    ensures Conserved(Decide(s, t))
  {
    var s1 := Decide(s, t);
    var keep := |s.queue| - BatchSize(s);
    ReversedContents(s.queue[keep..]);
    assert s.queue == s.queue[..keep] + s.queue[keep..];
    var batch := s1.threads[t].batch;
    assert batch[0..] == batch;
    assert multiset(s.queue) == multiset(s1.queue) + multiset(batch);
    ConservedUpdate(s, s1, t, s1.threads[t]);
  }

  lemma TakeInv(s: State, t: nat)
    requires Inv(s) && CanDecide(s, t) && s.threads[t] == Deciding && s.queue != []
    ensures Inv(Decide(s, t))
  {
    var s1 := Decide(s, t);
    var th := s1.threads[t];
    assert Counters(s1) by { SumsUpdate(s.threads, t, th); }
    TakeConserved(s, t);
    assert Verdicts(s1) by {
      if s.fAllOk {
        HolderUpdate(s, t, th);
      }
    }
  }

  /** With nTodo at 0 and an empty queue nothing is in flight, and fAllOk is the verdict. */
  lemma RoundComplete(s: State)
    requires Inv(s) && s.queue == [] && s.nTodo == 0
    ensures forall t | 0 <= t < |s.threads| :: Pending(s.threads[t]) == 0
    ensures s.added == s.ran + s.skipped
    ensures s.fAllOk ==> s.ran == s.added && forall check <- s.added :: check.passes
    ensures !s.fAllOk ==> Failed(s)
  {
    forall t | 0 <= t < |s.threads| ensures Pending(s.threads[t]) == 0 && !HoldsFailure(s.threads[t]) {
      SumZero(Pending, s.threads, t);
    }
    forall check ensures s.added[check] == s.ran[check] + s.skipped[check] {
      assert Accounted(s, check);
      NoneLeft(s.threads, check);
    }
  }

  lemma {:induction false} NoneLeft(threads: seq<Thread>, check: Check)
    requires forall t | 0 <= t < |threads| :: Pending(threads[t]) == 0
    ensures Sum(CopiesOf(check), threads) == 0
    decreases |threads|
  {
    hide Pending, Remaining;
    if threads != [] {
      var n := |threads| - 1;
      NoneLeft(threads[..n], check);
      NothingRemains(threads[n], check);
    }
  }

  lemma NothingRemains(th: Thread, check: Check)
    requires Pending(th) == 0
    ensures Remaining(th)[check] == 0
  {
  }

  lemma ReturnInv(s: State)
    requires Inv(s) && s.threads[0] == Deciding && s.queue == [] && s.nTodo == 0
    ensures Inv(Decide(s, 0))
  {
    RoundComplete(s);
    var s1 := Decide(s, 0);
    assert Counters(s1) by { SumsUpdate(s.threads, 0, Outside); }
    forall check ensures Accounted(s1, check) {
      SumUpdate(CopiesOf(check), s.threads, 0, Outside);
      NoneLeft(s.threads, check);
    }
  }

  lemma DecideInv(s: State, t: nat)
    requires Inv(s) && t < |s.threads| && s.threads[t] == Deciding
    ensures CanDecide(s, t) && Inv(Decide(s, t))
    ensures !Decide(s, t).threads[t].Deciding?
  {
    InvCanDecide(s, t);
    if s.queue != [] {
      TakeInv(s, t);
    } else if t == 0 && s.nTodo == 0 {
      ReturnInv(s);
    } else {
      SleepInv(s, t);
    }
  }

  // ---------------------------------------------------------------- safety over whole runs

  lemma NotifyWorkersSafe(s: State, pick: nat)
    requires Inv(s) && Unlocked(s) && Enabled(s, NotifyWorkers(pick))
    ensures Inv(Next(s, NotifyWorkers(pick))) && Unlocked(Next(s, NotifyWorkers(pick)))
  {
    NotifyWorkersInv(s, pick);
    NotifyAllKinds(s.threads[0 := Outside]);
  }

  lemma AcquireSafe(s: State, t: nat)
    requires Inv(s) && Unlocked(s) && Enabled(s, Acquire(t))
    ensures Defined(s, Acquire(t)) && Inv(Next(s, Acquire(t))) && Unlocked(Next(s, Acquire(t)))
  {
    EnteredInv(s, t);
    var mid := Entered(s, t);
    assert forall k | 0 <= k < |mid.threads| && k != t :: !mid.threads[k].Deciding?;
    DecideInv(mid, t);
    assert forall k | 0 <= k < |mid.threads| && k != t :: Decide(mid, t).threads[k] == mid.threads[k];
  }

  lemma WakeSafe(s: State, t: nat)
    requires Inv(s) && Unlocked(s) && Enabled(s, Wake(t))
    ensures Defined(s, Wake(t)) && Inv(Next(s, Wake(t))) && Unlocked(Next(s, Wake(t)))
  {
    WokenInv(s, t);
    var mid := Woken(s, t);
    DecideInv(mid, t);
    assert forall k | 0 <= k < |mid.threads| && k != t :: Decide(mid, t).threads[k] == s.threads[k];
  }

  /** Every enabled event is defined and keeps the invariant. */
  lemma StepSafe(s: State, e: Event)
    requires Inv(s) && Unlocked(s) && Enabled(s, e)
    ensures Defined(s, e) && Inv(Next(s, e)) && Unlocked(Next(s, e))
  {
    match e
    case Add(checks) => AddInv(s, checks);
    case NotifyWorkers(pick) => NotifyWorkersSafe(s, pick);
    case StartWait => StartWaitInv(s);
    case Acquire(t) => AcquireSafe(s, t);
    case Wake(t) => WakeSafe(s, t);
    case RunCheck(t) => RunCheckInv(s, t);
  }

  lemma {:induction false} NotifyAllKinds(threads: seq<Thread>)
    ensures forall t | 0 <= t < |threads| ::
              NotifyAllWorkers(threads)[t] == if t == 0 then threads[0] else Notify(threads[t])
    decreases |threads|
  {
    if |threads| > 1 {
      NotifyAllKinds(threads[..|threads| - 1]);
    }
  }

  /** An interleaving of the threads from a freshly started queue. */
  ghost predicate IsRun(states: seq<State>, events: seq<Event>, workers: nat, nBatchSize: nat) {
    && |states| == |events| + 1
    && states[0] == Initial(workers, nBatchSize)
    && forall i | 0 <= i < |events| ::
         Enabled(states[i], events[i]) && Defined(states[i], events[i]) && states[i + 1] == Next(states[i], events[i])
  }

  lemma {:induction false} SumInitial(f: Thread -> nat, workers: nat)
    requires f(Outside) == 0 && f(AtLock(0, true)) == 0
    ensures Sum(f, Initial(workers, 0).threads) == 0
    decreases workers
  {
    var threads := Initial(workers, 0).threads;
    if workers > 0 {
      SumInitial(f, workers - 1);
      assert threads[..workers] == Initial(workers - 1, 0).threads;
    } else {
      assert threads[..0] == [];
    }
  }

  lemma InitialInv(workers: nat, nBatchSize: nat)
    ensures Inv(Initial(workers, nBatchSize)) && Unlocked(Initial(workers, nBatchSize))
  {
    var s := Initial(workers, nBatchSize);
    assert s.threads == Initial(workers, 0).threads;
    SumInitial(Pending, workers);
    SumInitial(IsIdle, workers);
    SumInitial(IsCounted, workers);
    forall check ensures Accounted(s, check) {
      SumInitial(CopiesOf(check), workers);
    }
  }

  /** The invariant holds throughout every run, and no event of it is ever undefined. */
  lemma {:induction false} RunSafe(states: seq<State>, events: seq<Event>, workers: nat, nBatchSize: nat, i: nat)
    requires IsRun(states, events, workers, nBatchSize) && i < |states|
    ensures Inv(states[i]) && Unlocked(states[i])
    ensures forall e | Enabled(states[i], e) :: Defined(states[i], e)
    decreases i
  {
    if i == 0 {
      InitialInv(workers, nBatchSize);
    } else {
      RunSafe(states, events, workers, nBatchSize, i - 1);
      StepSafe(states[i - 1], events[i - 1]);
    }
    forall e | Enabled(states[i], e) ensures Defined(states[i], e) {
      StepSafe(states[i], e);
    }
  }

  /** The master is between the call of Wait and its return. */
  predicate InWait(s: State)
    requires |s.threads| > 0
  {
    !s.threads[0].Outside? && !s.threads[0].Notifying?
  }

  /** The event is the one in which Wait returns. */
  predicate WaitReturns(s: State, e: Event)
    requires Enabled(s, e) && Defined(s, e)
  {
    InWait(s) && Next(s, e).threads[0].Outside?
  }

  /** What it returns: fAllOk at that moment. */
  function WaitResult(s: State, e: Event): bool
    requires Enabled(s, e) && Defined(s, e)
  {
    match e
    case Acquire(t) => Entered(s, t).fAllOk
    case Wake(t) => Woken(s, t).fAllOk
    case _ => s.fAllOk
  }

  /** In every run, whenever Wait returns: the result is true exactly when every check added
      since the previous return passes; true means that all of them were run; false means
      that one was run and failed; and the queue is left as if new. */
  lemma WaitCorrect(states: seq<State>, events: seq<Event>, workers: nat, nBatchSize: nat, i: nat)
    requires IsRun(states, events, workers, nBatchSize) && i < |events| && WaitReturns(states[i], events[i])
    ensures var s, s1, result := states[i], states[i + 1], WaitResult(states[i], events[i]);
            && (result <==> forall check <- s.added :: check.passes)
            && (result ==> s.ran == s.added)
            && (!result ==> exists check :: check in s.added && check in s.ran && !check.passes)
            && s1.queue == [] && s1.nTodo == 0 && s1.fAllOk && s1.added == multiset{}
            && forall t | 0 <= t < |s1.threads| :: Pending(s1.threads[t]) == 0
  {
    RunSafe(states, events, workers, nBatchSize, i);
    var s, e := states[i], events[i];
    WhoReturns(s, e);
    var mid := if e.Acquire? then Entered(s, 0) else Woken(s, 0);
    if e.Acquire? {
      EnteredInv(s, 0);
    } else {
      WokenInv(s, 0);
    }
    assert mid.ran == s.ran && mid.added == s.added && mid.skipped == s.skipped;
    RoundComplete(mid);
    if !mid.fAllOk {
      var check :| check in mid.ran && !check.passes;
      assert check in s.added;
    }
  }

  lemma WhoReturns(s: State, e: Event)
    requires Inv(s) && Enabled(s, e) && Defined(s, e) && WaitReturns(s, e)
    ensures e == Acquire(0) || e == Wake(0)
    ensures var mid := if e.Acquire? then Entered(s, 0) else Woken(s, 0);
            mid.queue == [] && mid.nTodo == 0 && Next(s, e) == Decide(mid, 0)
  {
    hide Core, Reversed, BatchSize, NotifyAllWorkers, Decide;
    match e
    case Acquire(t) =>
      StaysInWait(t, Entered(s, t));
    case Wake(t) =>
      StaysInWait(t, Woken(s, t));
    case _ =>
  }

  /** A decision of another thread leaves the master where it is. */
  lemma StaysInWait(t: nat, mid: State)
    requires CanDecide(mid, t)
    ensures t != 0 ==> Decide(mid, t).threads[0] == mid.threads[0]
    ensures t == 0 && Decide(mid, 0).threads[0].Outside? ==> mid.queue == [] && mid.nTodo == 0
  {
  }

  // ---------------------------------------------------------------- progress

  /** A step that is not a wake-up out of nothing. */
  predicate Productive(s: State, e: Event) {
    && Enabled(s, e)
    && (e.Acquire? || e.RunCheck? || (e.Wake? && s.threads[e.t].notified))
  }

  function Weight(th: Thread): nat {
    match th
    case AtLock(_, _) => 2
    case Waiting(notified) => if notified then 1 else 0
    case Running(batch, next, _) => if next <= |batch| then 3 * (|batch| - next) + 2 else 0
    case _ => 0
  }

  /** Bounds the number of productive steps until the next call from outside. */
  function Measure(s: State): nat {
    5 * |s.queue| + Sum(Weight, s.threads)
  }

  lemma DecideMeasure(s: State, t: nat)
    requires CanDecide(s, t) && s.threads[t] == Deciding
    ensures Measure(Decide(s, t)) <= Measure(s)
  {
    SumUpdate(Weight, s.threads, t, Decide(s, t).threads[t]);
  }

  lemma EnteredMeasure(s: State, t: nat)
    requires |s.threads| > 0 && Enabled(s, Acquire(t))
    ensures Measure(Entered(s, t)) < Measure(s)
  {
    var threads := s.threads[t := Deciding];
    SumUpdate(Weight, s.threads, t, Deciding);
    SumUpdate(Weight, threads, 0, Notify(threads[0]));
    assert Entered(s, t).threads == threads || Entered(s, t).threads == threads[0 := Notify(threads[0])];
  }

  lemma ProductiveDecreases(s: State, e: Event)
    requires Inv(s) && Unlocked(s) && Productive(s, e)
    ensures Defined(s, e) && Measure(Next(s, e)) < Measure(s)
  {
    hide Inv, Unlocked, Measure, Decide, Entered, Woken, CanDecide;
    match e
    case Acquire(t) =>
      AcquireDecreases(s, t);
    case Wake(t) =>
      WakeDecreases(s, t);
    case RunCheck(t) =>
      RunCheckDecreases(s, t);
  }

  lemma AcquireDecreases(s: State, t: nat)
    requires Inv(s) && Unlocked(s) && Enabled(s, Acquire(t))
    ensures Defined(s, Acquire(t)) && Measure(Next(s, Acquire(t))) < Measure(s)
  {
    hide Core, Measure, Decide, Report, CanDecide, MasterSleepsSafely;
    AcquireSafe(s, t);
    EnteredMeasure(s, t);
    EnteredInv(s, t);
    DecideMeasure(Entered(s, t), t);
  }

  lemma WakeDecreases(s: State, t: nat)
    requires Inv(s) && Unlocked(s) && Enabled(s, Wake(t)) && s.threads[t].notified
    ensures Defined(s, Wake(t)) && Measure(Next(s, Wake(t))) < Measure(s)
  {
    hide Core, Decide, CanDecide, MasterSleepsSafely;
    WakeSafe(s, t);
    SumUpdate(Weight, s.threads, t, Deciding);
    DecideMeasure(Woken(s, t), t);
  }

  lemma RunCheckDecreases(s: State, t: nat)
    requires Enabled(s, RunCheck(t))
    ensures Measure(Next(s, RunCheck(t))) < Measure(s)
  {
    SumUpdate(Weight, s.threads, t, Next(s, RunCheck(t)).threads[t]);
  }

  /** A master inside Wait never waits in vain: some thread, the master itself or a worker
      that holds a batch and will report it, can make a productive step. */
  lemma NoDeadlock(s: State) returns (e: Event)
    requires Inv(s) && Unlocked(s) && InWait(s)
    ensures Productive(s, e)
    ensures s.threads[0] == Waiting(false) ==> 0 < e.t < |s.threads| && Pending(s.threads[e.t]) > 0
  {
    if s.threads[0] == Waiting(false) {
      var t := SumPositive(Pending, s.threads);
      assert WellFormed(s.threads[t]);
      e := if s.threads[t].AtLock? then Acquire(t) else RunCheck(t);
    } else {
      assert WellFormed(s.threads[0]);
      e := if s.threads[0].AtLock? then Acquire(0) else if s.threads[0].Running? then RunCheck(0) else Wake(0);
    }
  }

  /** A step of a thread, not a call from outside. */
  predicate Internal(e: Event) {
    e.Acquire? || e.Wake? || e.RunCheck?
  }

  lemma WaitIsInternal(s: State, e: Event)
    requires Enabled(s, e) && InWait(s)
    ensures Internal(e)
  {
  }

  /** A wake-up out of nothing gains nothing, but it takes nothing back either. */
  lemma InternalNeverIncreases(s: State, e: Event)
    requires Inv(s) && Unlocked(s) && Enabled(s, e) && Internal(e)
    ensures Defined(s, e) && Measure(Next(s, e)) + (if Productive(s, e) then 1 else 0) <= Measure(s)
  {
    hide Inv, Unlocked, Measure, Next;
    if Productive(s, e) {
      ProductiveDecreases(s, e);
    } else {
      SpuriousWake(s, e.t);
    }
  }

  lemma SpuriousWake(s: State, t: nat)
    requires Inv(s) && Unlocked(s) && Enabled(s, Wake(t)) && !s.threads[t].notified
    ensures Defined(s, Wake(t)) && Measure(Next(s, Wake(t))) <= Measure(s)
  {
    hide Core, Decide, CanDecide, MasterSleepsSafely;
    WakeSafe(s, t);
    SumUpdate(Weight, s.threads, t, Deciding);
    DecideMeasure(Woken(s, t), t);
  }

  /** Any steps of the threads, in any order, wake-ups out of nothing included. */
  ghost predicate IsInternalRun(states: seq<State>, events: seq<Event>) {
    && |states| == |events| + 1
    && Inv(states[0]) && Unlocked(states[0])
    && forall i | 0 <= i < |events| ::
         && Enabled(states[i], events[i]) && Defined(states[i], events[i]) && Internal(events[i])
         && states[i + 1] == Next(states[i], events[i])
  }

  ghost function ProductiveSteps(states: seq<State>, events: seq<Event>): nat
    requires |states| == |events| + 1
    decreases |events|
  {
    if events == [] then 0
    else
      var n := |events| - 1;
      ProductiveSteps(states[..n + 1], events[..n]) + if Productive(states[n], events[n]) then 1 else 0
  }

  /** However the threads are scheduled, the productive steps are at most as many as the measure of the
      start, and when none is possible any more the master has returned. */
  lemma {:induction false} WaitTerminates(states: seq<State>, events: seq<Event>)
    requires IsInternalRun(states, events)
    ensures Inv(states[|events|]) && Unlocked(states[|events|])
    ensures ProductiveSteps(states, events) + Measure(states[|events|]) <= Measure(states[0])
    ensures (forall e :: !Productive(states[|events|], e)) ==> !InWait(states[|events|])
    decreases |events|
  {
    hide Inv, Unlocked, Measure, Next;
    var n := |events|;
    if n > 0 {
      WaitTerminates(states[..n], events[..n - 1]);
      StepSafe(states[n - 1], events[n - 1]);
      InternalNeverIncreases(states[n - 1], events[n - 1]);
    }
    HasThreads(states[n]);
    if InWait(states[n]) {
      var e := NoDeadlock(states[n]);
    }
  }

  lemma HasThreads(s: State)
    requires Inv(s)
    ensures |s.threads| > 0
  {
  }

  /** The measure in terms of the outstanding work. */
  lemma MeasureBound(s: State)
    requires Inv(s)
    ensures Measure(s) <= 5 * s.nTodo + 2 * |s.threads|
  {
    WeightBound(s.threads);
  }

  lemma {:induction false} WeightBound(threads: seq<Thread>)
    ensures Sum(Weight, threads) <= 3 * Sum(Pending, threads) + 2 * |threads|
    decreases |threads|
  {
    if threads != [] {
      WeightBound(threads[..|threads| - 1]);
    }
  }

  /** In every interleaving, a stretch the master spends inside Wait has a bounded number of productive steps. */
  lemma WaitIsBounded(states: seq<State>, events: seq<Event>, workers: nat, nBatchSize: nat, i: nat, j: nat)
    requires IsRun(states, events, workers, nBatchSize) && i <= j <= |events|
    requires forall k | i <= k < j :: |states[k].threads| > 0 && InWait(states[k])
    ensures ProductiveSteps(states[i..j + 1], events[i..j]) <= 5 * states[i].nTodo + 2 * |states[i].threads|
  {
    hide Inv, Unlocked, Measure, Next, Enabled, Defined, Internal, InWait, ProductiveSteps;
    RunSafe(states, events, workers, nBatchSize, i);
    var part, steps := states[i..j + 1], events[i..j];
    forall k | 0 <= k < |steps| ensures Internal(steps[k]) {
      WaitIsInternal(states[i + k], events[i + k]);
    }
    WaitTerminates(part, steps);
    MeasureBound(states[i]);
  }
}
