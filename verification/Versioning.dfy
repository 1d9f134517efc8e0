/** Query versioning: version numbers, and the drift of an integer running mean. */
module Versioning {
  import opened Arithmetic
  import opened Options

  datatype Version = Version(number: int, length: int)

  datatype State = State(versions: map<string, Version>, currentVer: int, stored: int, duplicates: int, average: int)

  /** A non-empty query, by its hash and length. */
  datatype Query = Query(hash: string, length: nat)

  const INITIAL: State := State(map[], 1, 0, 0, 0)

  /** The mean of n values updated by one more, rounded down. */
  function NextMean(mean: int, n: int, value: int): int
    requires n >= 0
  {
    (mean * n + value) / (n + 1)
  }

  function Process(s: State, q: Query): State
    requires s.stored >= 0
  {
    if q.hash in s.versions then s.(duplicates := s.duplicates + 1)
    else
      State(s.versions[q.hash := Version(s.currentVer, q.length)], s.currentVer + 1, s.stored + 1, s.duplicates,
            NextMean(s.average, s.stored, q.length))
  }

  function Run(queries: seq<Query>): (s: State)
    ensures s.stored >= 0
  {
    if queries == [] then INITIAL else Process(Run(queries[..|queries| - 1]), queries[|queries| - 1])
  }

  predicate Known(first: seq<Query>, hash: string) {
    exists i :: 0 <= i < |first| && first[i].hash == hash
  }

  /** The queries whose hash was new when they came, in order. */
  function FirstSeen(queries: seq<Query>): seq<Query> {
    if queries == [] then []
    else
      var before, q := FirstSeen(queries[..|queries| - 1]), queries[|queries| - 1];
      if Known(before, q.hash) then before else before + [q]
  }

  function Lengths(queries: seq<Query>): seq<nat> {
    if queries == [] then [] else Lengths(queries[..|queries| - 1]) + [queries[|queries| - 1].length]
  }

  function Sum(s: seq<nat>): nat {
    if s == [] then 0 else Sum(s[..|s| - 1]) + s[|s| - 1]
  }

  /** The mean updated one value at a time, rounded down each time. */
  function RunningMean(s: seq<nat>): int {
    if s == [] then 0 else NextMean(RunningMean(s[..|s| - 1]), |s| - 1, s[|s| - 1])
  }

  /** The numbering: the i-th distinct hash has version i + 1, and there are no others. */
  ghost predicate Numbered(s: State, first: seq<Query>) {
    && (forall i :: 0 <= i < |first| ==>
          first[i].hash in s.versions && s.versions[first[i].hash] == Version(i + 1, first[i].length))
    && (forall h :: h in s.versions ==> Known(first, h))
    && (forall i, j :: 0 <= i < j < |first| ==> first[i].hash != first[j].hash)
  }

  lemma ProcessKeepsNumbered(s: State, first: seq<Query>, q: Query)
    requires Numbered(s, first) && s.currentVer == |first| + 1 && s.stored >= 0
    ensures Known(first, q.hash) <==> q.hash in s.versions
    ensures Numbered(Process(s, q), if Known(first, q.hash) then first else first + [q])
  {
    if !Known(first, q.hash) {
      var s', first' := Process(s, q), first + [q];
      forall h | h in s'.versions ensures Known(first', h) {
        if h == q.hash {
          assert first'[|first|].hash == h;
        } else {
          var i :| 0 <= i < |first| && first[i].hash == h;
          assert first'[i].hash == h;
        }
      }
    }
  }

  lemma {:induction false} LengthsLength(queries: seq<Query>)
    ensures |Lengths(queries)| == |queries|
  {
    if queries != [] {
      LengthsLength(queries[..|queries| - 1]);
    }
  }

  ghost predicate Accounts(s: State, first: seq<Query>, total: nat) {
    && Numbered(s, first)
    && s.stored == s.currentVer - 1 == |s.versions| == |first|
    && s.stored + s.duplicates == total
    && s.average == RunningMean(Lengths(first))
  }

  lemma MeanOfAppend(first: seq<Query>, q: Query)
    ensures RunningMean(Lengths(first + [q])) == NextMean(RunningMean(Lengths(first)), |first|, q.length)
  {
    LengthsLength(first);
    assert (Lengths(first) + [q.length])[..|first|] == Lengths(first);
  }

  lemma ProcessKeepsAccounts(s: State, first: seq<Query>, total: nat, q: Query)
    requires Accounts(s, first, total)
    ensures Accounts(Process(s, q), if Known(first, q.hash) then first else first + [q], total + 1)
  {
    ProcessKeepsNumbered(s, first, q);
    MeanOfAppend(first, q);
  }

  /** MAIN RESULT. In every run the numbers handed out are 1 to n, one per distinct hash in order of
      first appearance, the counters agree, and the average is the running mean of the lengths. */
  lemma {:induction false} RunIsNumbered(queries: seq<Query>)
    ensures Accounts(Run(queries), FirstSeen(queries), |queries|)
  {
    if queries != [] {
      var before, q := queries[..|queries| - 1], queries[|queries| - 1];
      RunIsNumbered(before);
      ProcessKeepsAccounts(Run(before), FirstSeen(before), |before|, q);
    }
  }

  /** One update of n values loses at most n to rounding. */
  lemma UpdateDrift(average: int, n: nat, value: int)
    ensures 0 <= average * n + value - (n + 1) * NextMean(average, n, value) <= n
  {
  }

  function Triangle(n: nat): nat {
    if n == 0 then 0 else Triangle(n - 1) + (n - 1)
  }

  lemma {:induction false} TriangleClosed(n: nat)
    ensures 2 * Triangle(n) == n * (n - 1)
  {
    if n > 0 {
      TriangleClosed(n - 1);
      assert n * (n - 1) == (n - 1) * (n - 2) + 2 * (n - 1);
    }
  }

  /** MAIN RESULT. The running mean never overstates the total, and understates it by at most
      n(n-1)/2, half of (n-1) per value. */
  lemma {:induction false} DriftIsBounded(s: seq<nat>)
    ensures 0 <= Sum(s) - |s| * RunningMean(s) <= Triangle(|s|)
    ensures 2 * Triangle(|s|) == |s| * (|s| - 1)
  {
    TriangleClosed(|s|);
    if s != [] {
      var front, n := s[..|s| - 1], |s|;
      DriftIsBounded(front);
      UpdateDrift(RunningMean(front), n - 1, s[n - 1]);
      assert RunningMean(front) * (n - 1) == (n - 1) * RunningMean(front);
    }
  }

  /** Every update up to this length divides without remainder. */
  ghost predicate DividesThroughout(s: seq<nat>) {
    forall k :: 1 <= k <= |s| ==> Sum(s[..k]) % k == 0
  }

  lemma DividesNext(s: seq<nat>)
    requires s != []
    ensures DividesThroughout(s) <==> DividesThroughout(s[..|s| - 1]) && Sum(s) % |s| == 0
  {
    var front := s[..|s| - 1];
    assert s[..|s|] == s;
    assert forall k :: 1 <= k <= |front| ==> front[..k] == s[..k];
    if DividesThroughout(front) && Sum(s) % |s| == 0 {
      forall k | 1 <= k <= |s| ensures Sum(s[..k]) % k == 0 {
        assert k < |s| ==> Sum(front[..k]) % k == 0;
      }
    }
    if DividesThroughout(s) {
      forall k | 1 <= k <= |front| ensures Sum(front[..k]) % k == 0 {
        assert Sum(s[..k]) % k == 0;
      }
    }
  }

  /** MAIN RESULT. The running mean is the true mean of the lengths exactly when every average on the
      way there was a whole number. */
  lemma {:induction false} MeanIsExactExactly(s: seq<nat>)
    ensures |s| * RunningMean(s) == Sum(s) <==> DividesThroughout(s)
  {
    if s != [] {
      var front, n := s[..|s| - 1], |s|;
      var average := RunningMean(front);
      MeanIsExactExactly(front);
      DividesNext(s);
      DriftIsBounded(front);
      UpdateDrift(average, n - 1, s[n - 1]);
      DivBounds(Sum(s), n);
      assert average * (n - 1) == (n - 1) * average;
    }
  }

  /** Lengths 1, 2, ..., n. */
  function Ascending(n: nat): seq<nat> {
    if n == 0 then [] else Ascending(n - 1) + [n]
  }

  /** The bound is reached for every n: lengths 1 to n are reported with mean 1. */
  lemma {:induction false} DriftIsReached(n: nat)
    ensures |Ascending(n)| == n && (n > 0 ==> RunningMean(Ascending(n)) == 1)
    ensures Sum(Ascending(n)) - n * RunningMean(Ascending(n)) == Triangle(n)
  {
    if n > 0 {
      DriftIsReached(n - 1);
      assert Ascending(n)[..n - 1] == Ascending(n - 1);
      if n > 1 {
        DivisionIsUnique(1 * (n - 1) + n, n, 1, n - 1);
      }
    }
  }

  lemma QuotientBetween(total: int, n: nat, lo: int, hi: int)
    requires n >= 1 && n * lo <= total <= n * hi
    ensures lo <= total / n <= hi
  {
    DivBounds(total, n);
    assert n * (total / n - hi) == n * (total / n) - n * hi;
    assert n * (total / n + 1 - lo) == n * (total / n + 1) - n * lo;
    MulOrder(n, total / n - hi);
    MulOrder(n, total / n + 1 - lo);
  }

  lemma MeanBetween(average: int, n: nat, value: int, lo: int, hi: int)
    requires lo <= value <= hi && (n > 0 ==> lo <= average <= hi)
    ensures lo <= NextMean(average, n, value) <= hi
  {
    if n > 0 {
      ScaleOrder(lo, average, n);
      ScaleOrder(average, hi, n);
    }
    assert (n + 1) * lo == lo * n + lo && (n + 1) * hi == hi * n + hi;
    QuotientBetween(average * n + value, n + 1, lo, hi);
  }

  lemma ScaleOrder(a: int, b: int, n: nat)
    requires a <= b
    ensures a * n <= b * n
  {
  }

  /** The running mean stays between the least and the greatest length. */
  lemma {:induction false} MeanStaysBetween(s: seq<nat>, lo: int, hi: int)
    requires s != [] && forall i :: 0 <= i < |s| ==> lo <= s[i] <= hi
    ensures lo <= RunningMean(s) <= hi
  {
    var front := s[..|s| - 1];
    if front != [] {
      MeanStaysBetween(front, lo, hi);
    }
    MeanBetween(RunningMean(front), |front|, s[|s| - 1], lo, hi);
  }

  class VersioningEngine {
    var versions: map<string, Version>
    var currentVer: int
    var versionsStored: int
    var duplicateQueries: int
    var avgVersionLen: int
    const enabled: bool

    constructor (enabled: bool)
      ensures View() == INITIAL && this.enabled == enabled
    {
      this.enabled := enabled;
      versions, currentVer, versionsStored, duplicateQueries, avgVersionLen := map[], 1, 0, 0, 0;
    }

    ghost function View(): State
      reads this
    {
      State(versions, currentVer, versionsStored, duplicateQueries, avgVersionLen)
    }

    /** Tracks a query of the given hash and length, and reports its version; a disabled engine and
        an empty query do nothing. */
    method Track(hash: string, length: nat) returns (version: Option<int>, isNew: bool)
      requires versionsStored >= 0
      modifies this
      ensures if enabled && length > 0
              then View() == Process(old(View()), Query(hash, length)) && isNew == (hash !in old(versions))
                   && hash in versions && version == Some(versions[hash].number)
              else View() == old(View()) && version == None
    {
      if !enabled {
        return None, false;
      }
      if length == 0 {
        return None, false;
      }
      if hash in versions {
        duplicateQueries := duplicateQueries + 1;
        return Some(versions[hash].number), false;
      }
      versions := versions[hash := Version(currentVer, length)];
      version := Some(currentVer);
      isNew := true;
      currentVer := currentVer + 1;
      versionsStored := versionsStored + 1;
      avgVersionLen := (avgVersionLen * (versionsStored - 1) + length) / versionsStored;
    }
  }
}
