/** Circuit breaker: the three-state machine and what its histories look like. */
module CircuitBreakers {
  import opened SetFacts

  datatype CircuitState = Closed | Open | HalfOpen

  datatype Policy = Policy(threshold: int, timeout: int)

  datatype Breaker = Breaker(state: CircuitState, failureCount: int, successCount: int, lastFailure: int)

  /** A call starts, and if it is let through its function ends later with a success or a failure. */
  datatype Event = Call(start: int, end: int, ok: bool) | Reset

  const INITIAL: Breaker := Breaker(Closed, 0, 0, 0)

  /** The switch at the head of a call: the new breaker, and whether the function is run. */
  function Enter(p: Policy, b: Breaker, now: int): (Breaker, bool) {
    match b.state
    case Open =>
      if now - b.lastFailure > p.timeout then (b.(state := HalfOpen, successCount := 0), true) else (b, false)
    case HalfOpen =>
      (if b.successCount >= 3 then b.(state := Closed, failureCount := 0) else b, true)
    case Closed => (b, true)
  }

  function Fail(p: Policy, b: Breaker, now: int): Breaker {
    b.(failureCount := b.failureCount + 1, lastFailure := now,
       state := if b.failureCount + 1 >= p.threshold then Open else b.state)
  }

  function Succeed(b: Breaker): Breaker {
    var c := b.(successCount := b.successCount + 1);
    if c.state == HalfOpen && c.successCount >= 3 then c.(state := Closed, failureCount := 0) else c
  }

  function Step(p: Policy, b: Breaker, e: Event): Breaker {
    match e
    case Reset => b.(state := Closed, failureCount := 0, successCount := 0)
    case Call(start, end, ok) =>
      var (entered, run) := Enter(p, b, start);
      if !run then entered else if ok then Succeed(entered) else Fail(p, entered, end)
  }

  /** The breaker before the i-th event of a history. */
  function At(p: Policy, history: seq<Event>, i: nat): Breaker
    requires i <= |history|
  {
    if i == 0 then INITIAL else Step(p, At(p, history, i - 1), history[i - 1])
  }

  predicate LetThrough(p: Policy, history: seq<Event>, i: nat)
    requires i < |history|
  {
    history[i].Call? && Enter(p, At(p, history, i), history[i].start).1
  }

  predicate Failure(p: Policy, history: seq<Event>, i: nat)
    requires i < |history|
  {
    LetThrough(p, history, i) && !history[i].ok
  }

  /** Calls come one after the other and take time. */
  ghost predicate Clocked(history: seq<Event>) {
    && (forall i :: 0 <= i < |history| && history[i].Call? ==> history[i].start <= history[i].end)
    && (forall i, j :: 0 <= i < j < |history| && history[i].Call? && history[j].Call? ==>
          history[i].end <= history[j].start)
  }

  /** Between events, a half-open breaker has seen one or two successes, all of them the latest
      calls, and started from an open one whose timeout had passed. */
  ghost predicate HalfOpenInv(p: Policy, history: seq<Event>, i: nat)
    requires i <= |history|
  {
    var b := At(p, history, i);
    && (b.state != Closed ==> b.failureCount >= p.threshold)
    && (b.state == HalfOpen ==>
          && 1 <= b.successCount <= 2 && b.successCount <= i
          && LetThrough(p, history, i - 1) && history[i - 1].ok
          && (b.successCount == 1 ==> At(p, history, i - 1).state == Open)
          && (b.successCount == 2 ==>
                At(p, history, i - 1).state == HalfOpen && At(p, history, i - 1).successCount == 1))
  }

  lemma {:induction false} HalfOpenKept(p: Policy, history: seq<Event>, i: nat)
    requires i <= |history|
    ensures HalfOpenInv(p, history, i)
  {
    if i > 0 {
      HalfOpenKept(p, history, i - 1);
    }
  }

  lemma {:induction false} ClosedStaysBelow(p: Policy, history: seq<Event>, i: nat)
    requires i <= |history| && p.threshold >= 1
    ensures At(p, history, i).state == Closed ==> At(p, history, i).failureCount < p.threshold
  {
    if i > 0 {
      ClosedStaysBelow(p, history, i - 1);
      HalfOpenKept(p, history, i - 1);
    }
  }

  /** MAIN RESULT. That the breaker is closed exactly while its failure count is below the
      threshold holds in all histories, resets included, iff the threshold is positive. */
  lemma ClosedExactlyBelowThreshold(p: Policy)
    ensures (forall history: seq<Event>, i: nat :: i <= |history| ==>
               (At(p, history, i).state == Closed <==> At(p, history, i).failureCount < p.threshold))
            <==> p.threshold >= 1
  {
    if p.threshold >= 1 {
      forall history: seq<Event>, i: nat | i <= |history|
        ensures At(p, history, i).state == Closed <==> At(p, history, i).failureCount < p.threshold
      {
        ClosedStaysBelow(p, history, i);
        HalfOpenKept(p, history, i);
      }
    } else {
      assert At(p, [], 0) == INITIAL;
    }
  }

  // ---- which calls are let through

  /** MAIN RESULT. A call is let through exactly when the breaker is not open, or more than the
      timeout has passed since its last failure. */
  lemma LetThroughExactly(p: Policy, history: seq<Event>, i: nat)
    requires i < |history|
    ensures LetThrough(p, history, i) <==>
              history[i].Call? &&
              (At(p, history, i).state != Open || history[i].start - At(p, history, i).lastFailure > p.timeout)
  {
  }

  /** The last failure let through before the i-th event, or -1. */
  function LastFailureBefore(p: Policy, history: seq<Event>, i: nat): (j: int)
    requires i <= |history|
    ensures -1 <= j < i && (j >= 0 ==> Failure(p, history, j))
  {
    if i == 0 then -1 else if Failure(p, history, i - 1) then i - 1 else LastFailureBefore(p, history, i - 1)
  }

  /** The time that counts is the end of the last failure let through, and an open breaker has one. */
  lemma {:induction false} LastFailureIsHistory(p: Policy, history: seq<Event>, i: nat)
    requires i <= |history|
    ensures var j := LastFailureBefore(p, history, i);
            && (j >= 0 ==> At(p, history, i).lastFailure == history[j].end)
            && (At(p, history, i).state != Closed ==> j >= 0)
  {
    if i > 0 {
      LastFailureIsHistory(p, history, i - 1);
    }
  }

  /** So a refused call is one within the timeout of the last failure let through. */
  lemma RefusedWithinTimeout(p: Policy, history: seq<Event>, i: nat)
    requires i < |history| && history[i].Call?
    ensures !LetThrough(p, history, i) <==>
              var j := LastFailureBefore(p, history, i);
              At(p, history, i).state == Open && j >= 0 && history[i].start - history[j].end <= p.timeout
  {
    LastFailureIsHistory(p, history, i);
  }

  // ---- what opens a closed breaker

  /** The event resets the breaker, or is the call that closes it. */
  ghost predicate Clears(p: Policy, history: seq<Event>, i: nat)
    requires i < |history|
  {
    history[i].Reset? || (At(p, history, i).state != Closed && At(p, history, i + 1).state == Closed)
  }

  /** The failures let through before the i-th event and since the last closing or reset. */
  ghost function Recent(p: Policy, history: seq<Event>, i: nat): set<int>
    requires i <= |history|
  {
    set j | j in Interval(0, i) && Failure(p, history, j) && forall k :: j < k < i ==> !Clears(p, history, k)
  }

  lemma RecentNext(p: Policy, history: seq<Event>, i: nat)
    requires i < |history|
    ensures Recent(p, history, i + 1) ==
            (if Clears(p, history, i) then {} else Recent(p, history, i)) +
            if Failure(p, history, i) then {i as int} else {}
    ensures i !in Recent(p, history, i)
  {
  }

  lemma CountNext(p: Policy, history: seq<Event>, i: nat)
    requires i < |history| && At(p, history, i + 1).state == Closed
    ensures !Clears(p, history, i) ==> At(p, history, i).state == Closed
    ensures At(p, history, i + 1).failureCount ==
            (if Clears(p, history, i) then 0 else At(p, history, i).failureCount) +
            if Failure(p, history, i) then 1 else 0
  {
  }

  /** MAIN RESULT. While a breaker is closed, its failure count is the number of failures let through
      since it last closed or was reset, whatever successes came between them. */
  lemma {:induction false} ClosedCountsFailures(p: Policy, history: seq<Event>, i: nat)
    requires i <= |history| && At(p, history, i).state == Closed
    ensures At(p, history, i).failureCount == |Recent(p, history, i)|
  {
    if i > 0 {
      RecentNext(p, history, i - 1);
      CountNext(p, history, i - 1);
      if !Clears(p, history, i - 1) {
        ClosedCountsFailures(p, history, i - 1);
      }
    }
  }

  /** So a closed breaker opens exactly at the failure that is the threshold-th since then. */
  lemma OpensExactly(p: Policy, history: seq<Event>, i: nat)
    requires i < |history| && p.threshold >= 1 && At(p, history, i).state == Closed
    ensures At(p, history, i + 1).state == Open <==>
              Failure(p, history, i) && |Recent(p, history, i)| + 1 == p.threshold
    ensures At(p, history, i + 1).state != Open ==> At(p, history, i + 1).state == Closed
  {
    ClosedCountsFailures(p, history, i);
    ClosedStaysBelow(p, history, i);
  }

  // ---- what closes it again

  ghost predicate Succeeds(history: seq<Event>, i: nat, n: nat) {
    i + n <= |history| && forall k :: i <= k < i + n ==> history[k].Call? && history[k].ok
  }

  /** Three successful calls in a row close an open breaker if the first comes after the timeout ... */
  lemma ThreeSuccessesClose(p: Policy, history: seq<Event>, i: nat)
    requires i + 3 <= |history| && Succeeds(history, i, 3)
    requires At(p, history, i).state == Open && history[i].start - At(p, history, i).lastFailure > p.timeout
    ensures At(p, history, i + 3).state == Closed && At(p, history, i + 3).failureCount == 0
    ensures At(p, history, i + 1).state == HalfOpen && At(p, history, i + 2).state == HalfOpen
  {
    assert At(p, history, i + 1) == Step(p, At(p, history, i), history[i]);
    assert At(p, history, i + 2) == Step(p, At(p, history, i + 1), history[i + 1]);
    assert At(p, history, i + 3) == Step(p, At(p, history, i + 2), history[i + 2]);
  }

  /** MAIN RESULT. ... and nothing else but a reset closes one: a call closes the breaker exactly when
      it is the third successful call in a row, the first of them having found the timeout passed. */
  lemma ClosingTakesThreeSuccesses(p: Policy, history: seq<Event>, i: nat)
    requires i < |history| && history[i].Call?
    ensures At(p, history, i).state != Closed && At(p, history, i + 1).state == Closed
            <==> && i >= 2 && Succeeds(history, i - 2, 3)
                 && At(p, history, i - 2).state == Open
                 && history[i - 2].start - At(p, history, i - 2).lastFailure > p.timeout
    ensures At(p, history, i).state != Closed && At(p, history, i + 1).state == Closed ==>
              forall k :: i - 2 <= k <= i ==> LetThrough(p, history, k)
  {
    HalfOpenKept(p, history, i);
    if i >= 2 {
      HalfOpenKept(p, history, i - 1);
      if Succeeds(history, i - 2, 3) && At(p, history, i - 2).state == Open
         && history[i - 2].start - At(p, history, i - 2).lastFailure > p.timeout {
        ThreeSuccessesClose(p, history, i - 2);
      }
    }
  }

  /** The branch that closes a half-open breaker on entry is never taken. */
  lemma EntryNeverCloses(p: Policy, history: seq<Event>, i: nat)
    requires i <= |history|
    ensures At(p, history, i).state == HalfOpen ==> At(p, history, i).successCount < 3
  {
  }

  /** From a failure that leaves the breaker not closed, up to the next closing, it is open with a
      last failure no earlier, or the last call let through came after the timeout. */
  lemma {:induction false} QuietAfterFailure(p: Policy, history: seq<Event>, i: nat, m: nat)
    requires Clocked(history) && i < m <= |history| && Failure(p, history, i)
    requires forall k :: i < k <= m ==> At(p, history, k).state != Closed
    ensures At(p, history, m).state == Open ==> At(p, history, m).lastFailure >= history[i].end
    ensures At(p, history, m).state == HalfOpen ==>
              m - 1 > i && history[m - 1].Call? && history[m - 1].start - history[i].end > p.timeout
    decreases m
  {
    HalfOpenKept(p, history, m);
    HalfOpenKept(p, history, m - 1);
    if m > i + 1 {
      QuietAfterFailure(p, history, i, m - 1);
    } else {
      HalfOpenKept(p, history, i);
    }
  }

  /** MAIN RESULT. As long as the breaker does not close in between, a later failure let through
      starts more than the timeout after an earlier one ended. */
  lemma FailuresAreSpacedByTimeout(p: Policy, history: seq<Event>, i: nat, j: nat)
    requires Clocked(history) && i < j < |history|
    requires Failure(p, history, i) && Failure(p, history, j)
    requires forall k :: i < k <= j ==> At(p, history, k).state != Closed
    ensures history[j].start - history[i].end > p.timeout
  {
    QuietAfterFailure(p, history, i, j);
  }

  class CircuitBreaker {
    const threshold: int
    const timeout: int
    var state: CircuitState
    var failureCount: int
    var successCount: int
    var lastFailureTime: int

    constructor (threshold: int, timeout: int)
      ensures this.threshold == threshold && this.timeout == timeout && View() == INITIAL
    {
      this.threshold, this.timeout := threshold, timeout;
      state, failureCount, successCount, lastFailureTime := Closed, 0, 0, 0;
    }

    ghost function View(): Breaker
      reads this
    {
      Breaker(state, failureCount, successCount, lastFailureTime)
    }

    ghost function Limits(): Policy {
      Policy(threshold, timeout)
    }

    /** One call; the outcome and end time are those its function would have. */
    method Execute(start: int, end: int, ok: bool) returns (ran: bool)
      modifies this
      ensures View() == Step(Limits(), old(View()), Call(start, end, ok))
      ensures ran <==> old(state) != Open || start - old(lastFailureTime) > timeout
      ensures !ran ==> View() == old(View())
    {
      match state {
        case Open =>
          if start - lastFailureTime > timeout {
            state := HalfOpen;
            successCount := 0;
          } else {
            return false;
          }
        case HalfOpen =>
          if successCount >= 3 {
            state := Closed;
            failureCount := 0;
          }
        case Closed =>
      }
      if ok {
        RecordSuccess();
      } else {
        RecordFailure(end);
      }
      return true;
    }

    method RecordFailure(now: int)
      modifies this
      ensures View() == Fail(Limits(), old(View()), now)
    {
      failureCount := failureCount + 1;
      lastFailureTime := now;
      if failureCount >= threshold {
        state := Open;
      }
    }

    method RecordSuccess()
      modifies this
      ensures View() == Succeed(old(View()))
    {
      successCount := successCount + 1;
      if state == HalfOpen && successCount >= 3 {
        state := Closed;
        failureCount := 0;
      }
    }

    method Reset()
      modifies this
      ensures View() == Step(Limits(), old(View()), Event.Reset)
    {
      state := Closed;
      failureCount := 0;
      successCount := 0;
    }
  }
}
