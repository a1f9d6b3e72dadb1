/**
 * The busy-wait loops both programs use to wait for a flag of an IP:
 *
 *     int to = N;
 *     while (!IP_READ(flag) && to--) usleep(10);
 *
 * The flag is read at most N+1 times.  When it is seen, the counter holds N
 * minus the number of reads before it; when it never is, the last `to--`
 * tests 0 and leaves -1.  After the loop the table-load code tests `!to`
 * and wait_valid_out tests `to <= 0`.  The flag is a parameter: the value
 * the i-th read would return.
 */
module Polling {

  /** The value the flag register shows on the i-th read of one wait. */
  type Flag = nat -> bool

  /** The counter the table-load waits start from; wait_valid_out starts from 100000. */
  const LoadBudget: nat := 10000

  /** The flag was not raised on any of the budget+1 polls the loop may make. */
  predicate NeverRaised(flag: Flag, budget: nat)
  {
    forall i :: 0 <= i <= budget ==> !flag(i)
  }

  /** Where a wait ends: the number of polls made and the counter left. */
  datatype Wait = Wait(polls: nat, counter: int)

  /** The loop from read i on, with the counter still at `counter`. */
  function WaitFrom(flag: Flag, i: nat, counter: nat): Wait
    decreases counter
  {
    if flag(i) then Wait(i + 1, counter)
    else if counter == 0 then Wait(i + 1, -1)
    else WaitFrom(flag, i + 1, counter - 1)
  }

  function WaitFor(flag: Flag, budget: nat): Wait
  {
    WaitFrom(flag, 0, budget)
  }

  /**
   * The loop as the C code runs it: read the flag, stop if it is set, else
   * test and decrement the counter.
   */
  method Poll(flag: Flag, budget: nat) returns (polls: nat, counter: int)
    ensures Wait(polls, counter) == WaitFor(flag, budget)
  {
    polls := 0;
    counter := budget;
    while true
      invariant 0 <= counter <= budget && polls + counter == budget
      invariant WaitFrom(flag, polls, counter) == WaitFor(flag, budget)
      decreases counter
    {
      var raised := flag(polls);
      polls := polls + 1;
      if raised {
        return;
      }
      if counter == 0 {
        counter := -1;
        return;
      }
      counter := counter - 1;
    }
  }

  /** The outcome from read i on, stated over the polls still to come. */
  lemma {:induction false} WaitFromOutcome(flag: Flag, i: nat, counter: nat)
    ensures var w := WaitFrom(flag, i, counter);
      w.counter < 0 <==> (forall j :: i <= j <= i + counter ==> !flag(j))
    ensures var w := WaitFrom(flag, i, counter);
      w.counter < 0 ==> w.counter == -1 && w.polls == i + counter + 1
    ensures var w := WaitFrom(flag, i, counter);
      w.counter >= 0 ==>
        i < w.polls && flag(w.polls - 1) && w.counter == counter - (w.polls - 1 - i) &&
        (forall j :: i <= j < w.polls - 1 ==> !flag(j))
    decreases counter
  {
    if !flag(i) && counter > 0 {
      WaitFromOutcome(flag, i + 1, counter - 1);
    }
  }

  /**
   * The counter after the loop is -1 exactly when the flag was never seen,
   * and otherwise the budget minus the polls before the flag was seen.
   */
  lemma WaitOutcome(flag: Flag, budget: nat)
    ensures WaitFor(flag, budget).counter < 0 <==> NeverRaised(flag, budget)
    ensures WaitFor(flag, budget).counter >= -1
    ensures var w := WaitFor(flag, budget);
      w.counter >= 0 ==>
        0 < w.polls && flag(w.polls - 1) && w.counter == budget - (w.polls - 1) &&
        (forall j :: 0 <= j < w.polls - 1 ==> !flag(j))
  {
    WaitFromOutcome(flag, 0, budget);
  }

  // ---------------------------------------------------------------------
  // The table-load wait: `if (!to)` after the loop
  // ---------------------------------------------------------------------

  /** As written: the load of an entry is treated as failed when the counter is 0. */
  predicate LoadTimeoutAsWritten(flag: Flag, budget: nat)
  {
    WaitFor(flag, budget).counter == 0
  }

  /** A device that never answers is not reported: the counter ends at -1, not 0. */
  lemma SilentLoadTimeout(budget: nat)
    ensures NeverRaised(_ => false, budget)
    ensures !LoadTimeoutAsWritten(_ => false, budget)
  {
    WaitOutcome(_ => false, budget);
  }

  /** A device that answers on the last read is reported as timed out. */
  lemma SpuriousLoadTimeout(budget: nat)
    ensures !NeverRaised(i => i == budget, budget)
    ensures LoadTimeoutAsWritten(i => i == budget, budget)
  {
    var flag: Flag := i => i == budget;
    WaitOutcome(flag, budget);
    var w := WaitFor(flag, budget);
    assert flag(budget);
    if w.counter >= 0 {
      assert w.polls - 1 == budget;
    }
  }

  /** The two cases for the counter of the programs. */
  lemma LoadTimeoutCounterexamples()
    ensures !LoadTimeoutAsWritten(_ => false, LoadBudget) && NeverRaised(_ => false, LoadBudget)
    ensures LoadTimeoutAsWritten(i => i == LoadBudget, LoadBudget) && !NeverRaised(i => i == LoadBudget, LoadBudget)
  {
    SilentLoadTimeout(LoadBudget);
    SpuriousLoadTimeout(LoadBudget);
  }

  /** Corrected: a timeout is a counter below 0. */
  predicate TimedOut(flag: Flag, budget: nat)
  {
    WaitFor(flag, budget).counter < 0
  }

  /** The corrected test reports a timeout exactly when the device never raised the flag. */
  lemma TimedOutExactly(flag: Flag, budget: nat)
    ensures TimedOut(flag, budget) <==> NeverRaised(flag, budget)
  {
    WaitOutcome(flag, budget);
  }

  // ---------------------------------------------------------------------
  // wait_valid_out: `to <= 0` after the loop
  // ---------------------------------------------------------------------

  /** As written: the wait fails when the counter is 0 or below. */
  predicate ValidTimeoutAsWritten(flag: Flag, budget: nat)
  {
    WaitFor(flag, budget).counter <= 0
  }

  /** This test catches every real timeout, but also an answer on the last read. */
  lemma ValidTimeoutAsWrittenCatches(flag: Flag, budget: nat)
    ensures NeverRaised(flag, budget) ==> ValidTimeoutAsWritten(flag, budget)
    ensures ValidTimeoutAsWritten(i => i == budget, budget) && !NeverRaised(i => i == budget, budget)
  {
    WaitOutcome(flag, budget);
    SpuriousLoadTimeout(budget);
  }
}
