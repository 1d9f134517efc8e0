/** Retry loop: which errors are retried, how often the function is called, and how long the loop
    sleeps. Delays are integers (nanoseconds); the delay arithmetic is over the reals. */
module RetryPolicies {
  import opened Arithmetic
  import opened ErrorPatterns
  import opened Geometric
  import opened Options

  /** What the outside world answers: the outcome of each call (no error is success), whether the
      context is cancelled before a call or during the sleep after it, and the random jitter. */
  datatype World = World(
    outcome: nat -> Option<string>,
    cancelledBefore: nat -> bool,
    cancelledAfter: nat -> bool,
    jitter: nat -> real)

  datatype Result =
    | Success
    | NotRetryable(error: string)
    | Exhausted(last: Option<string>)
    | Cancelled

  class RetryPolicy {
    const maxAttempts: int
    const initialDelay: int
    const maxDelay: int
    const multiplier: real
    const useJitter: bool
    const retryableErrors: seq<string>
    const nonRetryableErrors: seq<string>

    constructor (maxAttempts: int, initialDelay: int, maxDelay: int, multiplier: real, useJitter: bool,
                 retryable: seq<string>, nonRetryable: seq<string>)
      ensures this.maxAttempts == maxAttempts && this.initialDelay == initialDelay && this.maxDelay == maxDelay
      ensures this.multiplier == multiplier && this.useJitter == useJitter
      ensures retryableErrors == retryable && nonRetryableErrors == nonRetryable
    {
      this.maxAttempts, this.initialDelay, this.maxDelay := maxAttempts, initialDelay, maxDelay;
      this.multiplier, this.useJitter := multiplier, useJitter;
      retryableErrors, nonRetryableErrors := retryable, nonRetryable;
    }

    /** A listed non-retryable pattern always wins over the retryable ones and the common ones. */
    ghost predicate Retryable(error: string) {
      !OccursAny(nonRetryableErrors, error) && (OccursAny(retryableErrors, error) || OccursAny(COMMON_PATTERNS, error))
    }

    method IsRetryable(error: string) returns (retry: bool)
      ensures retry <==> Retryable(error)
    {
      var never := ContainsAny(error, nonRetryableErrors);
      if never {
        return false;
      }
      var listed := ContainsAny(error, retryableErrors);
      if listed {
        return true;
      }
      retry := ContainsAny(error, COMMON_PATTERNS);
    }

    /** The capped exponential delay after an attempt, before jitter. */
    function BaseDelay(attempt: nat): real
      requires attempt >= 1
    {
      var delay := initialDelay as real * Pow(multiplier, attempt - 1);
      if delay > maxDelay as real then maxDelay as real else delay
    }

    function CalculateDelay(attempt: nat, random: real): int
      requires attempt >= 1
    {
      var delay := BaseDelay(attempt);
      Trunc(if useJitter then Jittered(delay, random) else delay)
    }

    /** Jitter only lengthens a delay, by at most half; a delay that is not positive does not sleep. */
    lemma DelayWithinJitter(attempt: nat, random: real)
      requires attempt >= 1 && 0.0 <= random < 1.0
      ensures CalculateDelay(attempt, random) as real <= 1.5 * Positive(BaseDelay(attempt))
      ensures BaseDelay(attempt) >= 0.0 ==> CalculateDelay(attempt, random) >= Trunc(BaseDelay(attempt))
      ensures !useJitter ==> CalculateDelay(attempt, random) == Trunc(BaseDelay(attempt))
    {
      var base := BaseDelay(attempt);
      JitterBounds(base, random, if useJitter then Jittered(base, random) else base);
    }

    /** The base delay is the capped exponential: it never exceeds the cap, starts at the initial
        delay, and does not shrink from one attempt to the next. */
    lemma DelaysBackOff(attempt: nat)
      requires attempt >= 1
      ensures BaseDelay(attempt) <= maxDelay as real
      ensures initialDelay <= maxDelay ==> BaseDelay(1) == initialDelay as real
      ensures multiplier >= 1.0 && initialDelay >= 0 ==> BaseDelay(attempt) <= BaseDelay(attempt + 1)
    {
      assert Pow(multiplier, 0) == 1.0;
      if multiplier >= 1.0 && initialDelay >= 0 {
        var q := Pow(multiplier, attempt - 1);
        PowNonnegative(multiplier, attempt - 1);
        TimesMonotone(1.0, multiplier, q);
        TimesMonotone(q, multiplier * q, initialDelay as real);
      }
    }

    /** From one attempt to the next the base delay is multiplied, up to the cap. */
    lemma DelayMultiplies(attempt: nat)
      requires attempt >= 1 && multiplier >= 1.0 && maxDelay >= 0
      ensures BaseDelay(attempt + 1) == Least(maxDelay as real, multiplier * BaseDelay(attempt))
      ensures BaseDelay(1) == Least(maxDelay as real, initialDelay as real)
    {
      CappedIs(attempt);
      CappedIs(attempt + 1);
      CappedIs(1);
      CappedNext(initialDelay as real, multiplier, maxDelay as real, attempt - 1);
    }

    lemma CappedIs(attempt: nat)
      requires attempt >= 1
      ensures BaseDelay(attempt) == Capped(initialDelay as real, multiplier, maxDelay as real, attempt - 1)
    {
    }

    /** Jitter lengthens a delay by its share of a half. */
    lemma JitterShare(attempt: nat, random: real)
      requires attempt >= 1 && useJitter
      ensures CalculateDelay(attempt, random) == Trunc((1.0 + random / 2.0) * BaseDelay(attempt))
    {
      JitterIsShare(BaseDelay(attempt), random);
    }

    /** The time slept after the first n attempts. */
    function SleptAfter(w: World, n: nat): nat {
      if n == 0 then 0
      else
        var delay := CalculateDelay(n, w.jitter(n));
        SleptAfter(w, n - 1) + if delay > 0 then delay else 0
    }

    lemma {:induction false} SleptWithinTotal(w: World, n: nat)
      requires forall k :: 0.0 <= w.jitter(k) < 1.0
      ensures SleptAfter(w, n) as real <= 1.5 * BaseTotal(n)
    {
      if n > 0 {
        SleptWithinTotal(w, n - 1);
        DelayWithinJitter(n, w.jitter(n));
      }
    }

    function BaseTotal(n: nat): real {
      if n == 0 then 0.0 else BaseTotal(n - 1) + Positive(BaseDelay(n))
    }

    lemma BaseDelayIsCapped(attempt: nat)
      requires attempt >= 1
      ensures Positive(BaseDelay(attempt)) <= Positive(maxDelay as real)
    {
    }

    lemma {:induction false} BaseTotalIsCapped(n: nat)
      ensures BaseTotal(n) <= CappedTotal(n)
    {
      if n > 0 {
        BaseTotalIsCapped(n - 1);
        BaseDelayIsCapped(n);
        OneMore(n, Positive(maxDelay as real));
      }
    }

    /** The uncapped delay, by magnitude. */
    function Exponential(attempt: nat): real
      requires attempt >= 1
    {
      Magnitude(initialDelay as real) * Pow(Magnitude(multiplier), attempt - 1)
    }

    lemma BaseDelayBelowExponential(attempt: nat)
      requires attempt >= 1
      ensures Positive(BaseDelay(attempt)) <= Exponential(attempt)
    {
      var q := Pow(multiplier, attempt - 1);
      PowMagnitude(multiplier, attempt - 1);
      MagnitudeOfProduct(initialDelay as real, q);
    }

    function ExponentialTotal(n: nat): real {
      if n == 0 then 0.0 else ExponentialTotal(n - 1) + Exponential(n)
    }

    lemma {:induction false} BaseTotalBelowExponential(n: nat)
      ensures BaseTotal(n) <= ExponentialTotal(n)
    {
      if n > 0 {
        BaseTotalBelowExponential(n - 1);
        BaseDelayBelowExponential(n);
      }
    }

    lemma {:induction false} ExponentialTotalGrows(m: nat, n: nat)
      requires m <= n
      ensures ExponentialTotal(m) <= ExponentialTotal(n)
      decreases n
    {
      if m < n {
        ExponentialTotalGrows(m, n - 1);
        BaseDelayBelowExponential(n);
      }
    }

    /** The total is a geometric sum of initial delays: 2^n - 1 of them for the ratio 2 of every
        constructed policy, by SumOfDoublings. */
    lemma {:induction false} ExponentialTotalClosed(ratio: real, n: nat)
      requires ratio == Magnitude(multiplier)
      ensures ExponentialTotal(n) == Magnitude(initialDelay as real) * GeometricSum(ratio, n)
    {
      if n > 0 {
        ExponentialTotalClosed(ratio, n - 1);
      }
    }

    /** The k-th call is one the loop does not repeat. */
    ghost predicate Final(w: World, k: nat) {
      w.outcome(k).None? || !Retryable(w.outcome(k).value)
    }

    function Attempts(): nat {
      if maxAttempts > 0 then maxAttempts else 0
    }

    /** The k-th call is the first one that ends the loop. */
    ghost predicate FirstFinal(w: World, k: nat) {
      k >= 1 && Final(w, k) && forall j :: 1 <= j < k ==> !Final(w, j)
    }

    /** What n sleeps can come to: one and a half times n capped delays, or the total of the uncapped
        ones, whichever is less. */
    function SleepBound(n: nat): real {
      1.5 * Least(CappedTotal(n), ExponentialTotal(n))
    }

    function CappedTotal(n: nat): real {
      n as real * Positive(maxDelay as real)
    }

    lemma CappedTotalGrows(m: nat, n: nat)
      requires m <= n
      ensures CappedTotal(m) <= CappedTotal(n)
    {
    }

    /** MAIN RESULT. Up to n sleeps, with any jitter, total at most the bound for n. */
    lemma TotalSleepBound(w: World, sleeps: nat, n: nat)
      requires sleeps <= n && forall k :: 0.0 <= w.jitter(k) < 1.0
      ensures SleptAfter(w, sleeps) as real <= SleepBound(n)
    {
      SleptWithinTotal(w, sleeps);
      BaseTotalIsCapped(sleeps);
      CappedTotalGrows(sleeps, n);
      BaseTotalBelowExponential(sleeps);
      ExponentialTotalGrows(sleeps, n);
      LeastIsAbove(SleptAfter(w, sleeps) as real, BaseTotal(sleeps), CappedTotal(n), ExponentialTotal(n));
    }

    /** The time slept is within the bound for one sleep fewer than the attempts allowed. */
    ghost predicate SleptInBound(w: World, slept: nat) {
      (forall k :: 0.0 <= w.jitter(k) < 1.0) ==>
        slept as real <= SleepBound(if Attempts() > 0 then Attempts() - 1 else 0)
    }

    lemma BoundHolds(w: World, sleeps: nat)
      requires sleeps < Attempts() || sleeps == 0
      ensures SleptInBound(w, SleptAfter(w, sleeps))
    {
      if forall k :: 0.0 <= w.jitter(k) < 1.0 {
        TotalSleepBound(w, sleeps, if Attempts() > 0 then Attempts() - 1 else 0);
      }
    }

    /** The context is found cancelled before the k-th call or during the sleep after it, and nothing
        ended the loop before. */
    ghost predicate CancelledAt(w: World, k: nat) {
      && 1 <= k <= Attempts()
      && (forall j :: 1 <= j < k ==> !Final(w, j) && !w.cancelledBefore(j) && !w.cancelledAfter(j))
      && (w.cancelledBefore(k) || (k < Attempts() && !Final(w, k) && w.cancelledAfter(k)))
    }

    /** Nothing has ended the loop or cancelled it up to the n-th call and the sleep after it. */
    ghost predicate Going(w: World, n: nat) {
      forall k :: 1 <= k <= n ==> !Final(w, k) && !w.cancelledBefore(k) && !w.cancelledAfter(k)
    }

    ghost predicate IsCancelled(w: World) {
      exists k :: CancelledAt(w, k)
    }

    lemma CancelledHere(w: World, k: nat)
      requires 1 <= k <= Attempts() && Going(w, k - 1)
      requires w.cancelledBefore(k) || (k < Attempts() && !Final(w, k) && w.cancelledAfter(k))
      ensures IsCancelled(w)
    {
      assert CancelledAt(w, k);
    }

    lemma EndsUncancelled(w: World, n: nat)
      requires n >= 1 && Going(w, n - 1) && !w.cancelledBefore(n) && (Final(w, n) || n == Attempts())
      ensures !IsCancelled(w)
    {
    }

    /** Where the loop stands when it ends: with a final outcome, out of attempts, or cancelled. */
    ghost predicate Ended(w: World, result: Result, calls: nat, sleeps: nat) {
      match result
      case Success => EndedBy(w, calls, sleeps) && w.outcome(calls).None?
      case NotRetryable(error) => EndedBy(w, calls, sleeps) && w.outcome(calls) == Some(error) && !Retryable(error)
      case Exhausted(last) =>
        && calls == Attempts() && sleeps == (if calls > 0 then calls - 1 else 0)
        && (if calls == 0 then last == None
            else Going(w, calls - 1) && !w.cancelledBefore(calls) && !Final(w, calls) && last == w.outcome(calls))
      case Cancelled =>
        && sleeps < Attempts() && Going(w, sleeps)
        && (|| (calls == sleeps && w.cancelledBefore(calls + 1))
            || (calls == sleeps + 1 < Attempts() &&
                !w.cancelledBefore(calls) && !Final(w, calls) && w.cancelledAfter(calls)))
    }

    ghost predicate EndedBy(w: World, calls: nat, sleeps: nat) {
      && 1 <= calls <= Attempts() && sleeps == calls - 1
      && Going(w, sleeps) && !w.cancelledBefore(calls) && Final(w, calls)
    }

    lemma EndedMeans(w: World, result: Result, calls: nat, sleeps: nat)
      requires Ended(w, result, calls, sleeps)
      ensures forall k: nat :: FirstFinal(w, k) && !result.Cancelled? ==>
                calls == if k < Attempts() then k else Attempts()
      ensures (forall k: nat :: k >= 1 ==> !Final(w, k)) && !result.Cancelled? ==> calls == Attempts()
      ensures calls <= Attempts() && forall k :: 1 <= k < calls ==> !Final(w, k)
      ensures result == Success <==> calls >= 1 && w.outcome(calls).None? && !result.Cancelled?
      ensures result.NotRetryable? ==> calls >= 1 && w.outcome(calls) == Some(result.error) && !Retryable(result.error)
      ensures result.Exhausted? ==>
                calls == Attempts() &&
                if calls == 0 then result.last == None else !Final(w, calls) && result.last == w.outcome(calls)
      ensures result.Cancelled? <==> IsCancelled(w)
      ensures forall k :: 1 <= k <= calls ==> !w.cancelledBefore(k)
      ensures forall k :: 1 <= k <= sleeps ==> !w.cancelledAfter(k)
      ensures !result.Cancelled? ==> sleeps == if calls > 0 then calls - 1 else 0
      ensures result.Cancelled? ==>
                && calls < Attempts() && (calls >= 1 ==> !Final(w, calls))
                && (|| (sleeps == calls && w.cancelledBefore(calls + 1))
                    || (sleeps + 1 == calls && w.cancelledAfter(calls)))
    {
      if result.Cancelled? {
        CancelledHere(w, sleeps + 1);
      } else if calls > 0 {
        EndsUncancelled(w, calls);
      }
    }

    /** MAIN RESULT. Without cancellation the function is called up to the first final outcome or
        the attempt limit, whichever comes first, with one sleep between calls; the result says what
        ended the loop. */
    method Execute(w: World) returns (result: Result, calls: nat, sleeps: nat, slept: nat)
      ensures forall k: nat :: FirstFinal(w, k) && !result.Cancelled? ==>
                calls == if k < Attempts() then k else Attempts()
      ensures (forall k: nat :: k >= 1 ==> !Final(w, k)) && !result.Cancelled? ==> calls == Attempts()
      ensures calls <= Attempts() && forall k :: 1 <= k < calls ==> !Final(w, k)
      ensures result == Success <==> calls >= 1 && w.outcome(calls).None? && !result.Cancelled?
      ensures result.NotRetryable? ==> calls >= 1 && w.outcome(calls) == Some(result.error) && !Retryable(result.error)
      ensures result.Exhausted? ==>
                calls == Attempts() &&
                if calls == 0 then result.last == None else !Final(w, calls) && result.last == w.outcome(calls)
      ensures result.Cancelled? <==> IsCancelled(w)
      ensures forall k :: 1 <= k <= calls ==> !w.cancelledBefore(k)
      ensures forall k :: 1 <= k <= sleeps ==> !w.cancelledAfter(k)
      ensures !result.Cancelled? ==> sleeps == if calls > 0 then calls - 1 else 0
      ensures result.Cancelled? ==>
                && calls < Attempts() && (calls >= 1 ==> !Final(w, calls))
                && (|| (sleeps == calls && w.cancelledBefore(calls + 1))
                    || (sleeps + 1 == calls && w.cancelledAfter(calls)))
      ensures Ended(w, result, calls, sleeps) && slept == SleptAfter(w, sleeps)
      ensures SleptInBound(w, slept)
    {
      calls, sleeps, slept := 0, 0, 0;
      var lastErr: Option<string> := None;
      var attempt := 1;
      BoundHolds(w, 0);
      while attempt <= maxAttempts
        invariant 1 <= attempt && calls == sleeps == attempt - 1 && (calls < Attempts() || calls == 0)
        invariant Going(w, calls)
        invariant calls >= 1 ==> lastErr == w.outcome(calls)
        invariant calls == 0 ==> lastErr == None
        invariant slept == SleptAfter(w, sleeps) && SleptInBound(w, slept)
      {
        if w.cancelledBefore(attempt) {
          EndedMeans(w, Cancelled, calls, sleeps);
          return Cancelled, calls, sleeps, slept;
        }
        lastErr := w.outcome(attempt);
        calls := attempt;
        if lastErr == None {
          assert Final(w, calls);
          EndedMeans(w, Success, calls, sleeps);
          return Success, calls, sleeps, slept;
        }
        var retry := IsRetryable(lastErr.value);
        if !retry {
          assert Final(w, calls);
          EndedMeans(w, NotRetryable(lastErr.value), calls, sleeps);
          return NotRetryable(lastErr.value), calls, sleeps, slept;
        }
        if attempt == maxAttempts {
          break;
        }
        if w.cancelledAfter(attempt) {
          EndedMeans(w, Cancelled, calls, sleeps);
          return Cancelled, calls, sleeps, slept;
        }
        var delay := CalculateDelay(attempt, w.jitter(attempt));
        slept := slept + if delay > 0 then delay else 0;
        sleeps := attempt;
        BoundHolds(w, sleeps);
        attempt := attempt + 1;
      }
      result := Exhausted(lastErr);
      EndedMeans(w, result, calls, sleeps);
    }
  }
}
