/** Lists of event times, cut-offs and sliding windows. */
module TimeWindows {
  /** The timestamps strictly after a cutoff, in order. */
  function FilterAfter(times: seq<int>, cutoff: int): seq<int> {
    if times == [] then []
    else
      var last := times[|times| - 1];
      FilterAfter(times[..|times| - 1], cutoff) + if last > cutoff then [last] else []
  }

  /** How many timestamps lie in the half-open window (lo, hi]. */
  function CountIn(times: seq<int>, lo: int, hi: int): nat {
    if times == [] then 0
    else
      CountIn(times[..|times| - 1], lo, hi) + if lo < times[|times| - 1] <= hi then 1 else 0
  }

  /** How many of the admissions fall in the window of the given size that ends at t. */
  function InWindow(history: seq<int>, window: int, t: int): nat {
    CountIn(history, t - window, t)
  }

  lemma {:induction false} FilterIsSuffixOfCount(times: seq<int>, cutoff: int, lo: int, hi: int)
    requires cutoff <= lo
    ensures CountIn(times, lo, hi) <= |FilterAfter(times, cutoff)|
  {
    if times != [] {
      FilterIsSuffixOfCount(times[..|times| - 1], cutoff, lo, hi);
    }
  }

  lemma FilterOfAppend(times: seq<int>, t: int, cutoff: int)
    ensures FilterAfter(times + [t], cutoff) == FilterAfter(times, cutoff) + if t > cutoff then [t] else []
  {
  }

  lemma CountOfAppend(times: seq<int>, t: int, lo: int, hi: int)
    ensures CountIn(times + [t], lo, hi) == CountIn(times, lo, hi) + if lo < t <= hi then 1 else 0
  {
  }

  /** Filtering by an early cutoff and then by a later one is filtering by the later one. */
  lemma {:induction false} FilterTwice(times: seq<int>, early: int, late: int)
    requires early <= late
    ensures FilterAfter(FilterAfter(times, early), late) == FilterAfter(times, late)
  {
    if times != [] {
      var front, last := times[..|times| - 1], times[|times| - 1];
      FilterTwice(front, early, late);
      if last > early {
        FilterOfAppend(FilterAfter(front, early), last, late);
      } else {
        assert FilterAfter(times, early) == FilterAfter(front, early);
      }
    }
  }

  /** Filtering is idempotent, order-keeping selection: exactly the members after the cutoff stay. */
  lemma {:induction false} FilterMembers(times: seq<int>, cutoff: int, t: int)
    ensures t in FilterAfter(times, cutoff) <==> t in times && t > cutoff
  {
    if times != [] {
      var front := times[..|times| - 1];
      FilterMembers(front, cutoff, t);
      assert times == front + [times[|times| - 1]];
    }
  }

  lemma MembersSurviveFilter(stored: seq<int>, history: seq<int>, cutoff: int, t: int)
    requires FilterAfter(stored, cutoff) == FilterAfter(history, cutoff) && t in history && t > cutoff
    ensures t in stored
  {
    FilterMembers(history, cutoff, t);
    FilterMembers(stored, cutoff, t);
  }

  ghost predicate WindowsWithin(history: seq<int>, window: int, bound: nat) {
    forall t :: InWindow(history, window, t) <= bound
  }

  /** A new admission with room under the bound in its own window breaks no other window. */
  lemma AppendKeepsWindows(history: seq<int>, now: int, window: int, bound: nat)
    requires |FilterAfter(history, now - window)| < bound
    requires WindowsWithin(history, window, bound)
    ensures WindowsWithin(history + [now], window, bound)
  {
    forall t ensures InWindow(history + [now], window, t) <= bound {
      CountOfAppend(history, now, t - window, t);
      assert InWindow(history, window, t) <= bound;
      if t - window < now <= t {
        FilterIsSuffixOfCount(history, now - window, t - window, t);
      }
    }
  }

  ghost predicate Nondecreasing(times: seq<int>) {
    forall i, j :: 0 <= i < j < |times| ==> times[i] <= times[j]
  }

  lemma {:induction false} AllAfter(times: seq<int>, cutoff: int)
    requires forall i :: 0 <= i < |times| ==> times[i] > cutoff
    ensures FilterAfter(times, cutoff) == times
  {
    if times != [] {
      AllAfter(times[..|times| - 1], cutoff);
    }
  }

  /** On nondecreasing timestamps, dropping the prefix up to the first one after the cutoff is
      the same as filtering. */
  lemma {:induction false} DropIsFilter(times: seq<int>, n: nat, cutoff: int)
    requires n <= |times| && Nondecreasing(times)
    requires forall i :: 0 <= i < n ==> times[i] <= cutoff
    requires n < |times| ==> times[n] > cutoff
    ensures times[n..] == FilterAfter(times, cutoff)
  {
    if n == |times| {
      NoneAfter(times, cutoff);
    } else {
      var front := times[..|times| - 1];
      if n < |front| {
        DropIsFilter(front, n, cutoff);
        assert times[n..] == front[n..] + [times[|times| - 1]];
      } else {
        NoneAfter(front, cutoff);
      }
    }
  }

  lemma {:induction false} NoneAfter(times: seq<int>, cutoff: int)
    requires forall i :: 0 <= i < |times| ==> times[i] <= cutoff
    ensures FilterAfter(times, cutoff) == []
  {
    if times != [] {
      NoneAfter(times[..|times| - 1], cutoff);
    }
  }

  /** The detector's history after responses at the given times. */
  function DetectorHistory(times: seq<int>, window: int): seq<int> {
    if times == [] then []
    else
      var now := times[|times| - 1];
      FilterAfter(DetectorHistory(times[..|times| - 1], window) + [now], now - window)
  }

  lemma FilterThenAppend(kept: seq<int>, times: seq<int>, t: int, longer: seq<int>, early: int, late: int)
    requires early <= late && longer == times + [t] && kept == FilterAfter(times, early)
    ensures FilterAfter(kept + [t], late) == FilterAfter(longer, late)
  {
    FilterOfAppend(kept, t, late);
    FilterOfAppend(times, t, late);
    FilterTwice(times, early, late);
  }

  lemma DetectorStep(times: seq<int>, window: int, early: int)
    requires times != []
    requires var front := times[..|times| - 1];
             DetectorHistory(front, window) == FilterAfter(front, early) && early <= times[|times| - 1] - window
    ensures DetectorHistory(times, window) == FilterAfter(times, times[|times| - 1] - window)
  {
    var front, now := times[..|times| - 1], times[|times| - 1];
    FilterThenAppend(DetectorHistory(front, window), front, now, times, early, now - window);
  }

  /** Repeated pruning loses nothing that is still in the window: after any run the history is
      exactly the response times of the last window. */
  lemma {:induction false} PruningKeepsTheWindow(times: seq<int>, window: int)
    requires Nondecreasing(times)
    ensures times != [] ==> DetectorHistory(times, window) == FilterAfter(times, times[|times| - 1] - window)
  {
    if times != [] {
      var front, now := times[..|times| - 1], times[|times| - 1];
      PruningKeepsTheWindow(front, window);
      DetectorStep(times, window, if front == [] then now - window else front[|front| - 1] - window);
    }
  }
}
