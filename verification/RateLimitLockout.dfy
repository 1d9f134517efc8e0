/** Adaptive rate limiter: when refusals lock a client out for good, and how it can get there. */
module RateLimitLockout {
  import opened Arithmetic
  import opened TimeWindows
  import opened RateLimitModel
  import opened RateLimitRuns

  /** A client without the whitelist whose dynamic limit lets nothing through. */
  ghost predicate LockedOut(s: State, id: string) {
    id in s.clients && !s.clients[id].whitelisted && s.clients[id].currentLimit <= 0
  }

  // ---- a lost limit does not come back

  /** The limit that throttling by trust would set. */
  function Earned(cfg: Config, trust: real): int {
    Trunc(cfg.perClientLimit as real * trust)
  }

  lemma EarnedGrows(cfg: Config, s: real, t: real)
    requires 0.0 <= s <= t
    ensures cfg.perClientLimit >= 0 ==> Earned(cfg, s) <= Earned(cfg, t)
    ensures cfg.perClientLimit <= 0 ==> Earned(cfg, s) <= 0
  {
    var limit := cfg.perClientLimit as real;
    if cfg.perClientLimit >= 0 {
      assert limit * s <= limit * t;
    } else {
      assert limit * s <= 0.0;
    }
  }

  /** Once the limit is gone, trust does not earn it back either. */
  ghost predicate Sunk(cfg: Config, c: Client) {
    && 0.0 <= c.trustScore <= 1.0
    && (c.currentLimit <= 0 ==> Earned(cfg, c.trustScore) <= 0)
  }

  lemma BlockSinks(cfg: Config, c: Client, now: int)
    requires Sunk(cfg, c)
    ensures Sunk(cfg, Block(cfg, c, now))
    ensures c.currentLimit <= 0 ==> Block(cfg, c, now).currentLimit <= 0
  {
    EarnedGrows(cfg, Block(cfg, c, now).trustScore, c.trustScore);
  }

  lemma AdmitSinks(cfg: Config, c: Client, now: int)
    requires Sunk(cfg, c)
    ensures Sunk(cfg, Admit(cfg, c, now))
  {
    var trust := Admit(cfg, c, now).trustScore;
    EarnedGrows(cfg, trust, 0.5 + 0.5 * trust);
  }

  /** An anomaly halves only limits of three and more, so the limit stays positive. */
  lemma HalvingKeepsSome(limit: int, used: nat)
    requires limit / 2 < used < limit
    ensures Trunc(limit as real * 0.5) >= 1
  {
  }

  lemma DecideSinks(cfg: Config, record: Client, now: int, score: real)
    requires Sunk(cfg, record)
    ensures Sunk(cfg, Decide(cfg, record, now, score).0)
    ensures record.currentLimit <= 0 ==>
              Decide(cfg, record, now, score).0.currentLimit <= 0 && !Decide(cfg, record, now, score).1
  {
    var c := record.(requests := FilterAfter(record.requests, now - cfg.windowSize));
    BlockSinks(cfg, c, now);
    AdmitSinks(cfg, c, now);
    AdmitSinks(cfg, c.(anomalyScore := score), now);
    if c.currentLimit / 2 < |c.requests| < c.currentLimit {
      HalvingKeepsSome(c.currentLimit, |c.requests|);
    }
  }

  ghost predicate SunkAt(cfg: Config, s: State, id: string) {
    id in s.clients && !s.clients[id].whitelisted ==> Sunk(cfg, s.clients[id])
  }

  lemma StepSinks(cfg: Config, s: State, e: Timed, id: string)
    requires SunkAt(cfg, s, id)
    ensures SunkAt(cfg, Step(cfg, s, e).0, id)
  {
    if e.event.Request? && e.event.client == id {
      var c := RecordOf(cfg, s.clients, id);
      EarnedGrows(cfg, 0.5, 1.0);
      DecideRecordsAdmission(cfg, c, e.at, e.event.score);
      if !c.whitelisted {
        DecideSinks(cfg, c, e.at, e.event.score);
      }
    }
  }

  lemma {:induction false} RunSinks(cfg: Config, trace: seq<Timed>, id: string)
    ensures SunkAt(cfg, After(cfg, trace), id)
  {
    if trace != [] {
      RunSinks(cfg, trace[..|trace| - 1], id);
      StepSinks(cfg, After(cfg, trace[..|trace| - 1]), trace[|trace| - 1], id);
    }
  }

  lemma LockedOutStep(cfg: Config, s: State, e: Timed, id: string)
    requires cfg.enabled && SunkAt(cfg, s, id) && LockedOut(s, id)
    requires e.event != Whitelist(id) && id in Step(cfg, s, e).0.clients
    ensures LockedOut(Step(cfg, s, e).0, id)
    ensures e.event.Request? && e.event.client == id ==> !Step(cfg, s, e).1
  {
    if e.event.Request? && e.event.client == id {
      DecideSinks(cfg, s.clients[id], e.at, e.event.score);
      DecideRecordsAdmission(cfg, s.clients[id], e.at, e.event.score);
    }
  }

  lemma LockedOutUnroll(cfg: Config, before: seq<Timed>, e: Timed, trace: seq<Timed>, id: string)
    requires trace == before + [e]
    requires cfg.enabled && LockedOut(After(cfg, before), id) && e.event != Whitelist(id)
    requires id in After(cfg, trace).clients
    ensures LockedOut(After(cfg, trace), id)
    ensures Admissions(cfg, trace, id) == Admissions(cfg, before, id)
  {
    RunSinks(cfg, before, id);
    Unroll(cfg, before, e, id);
    LockedOutStep(cfg, After(cfg, before), e, id);
  }

  /** The record of the client is there after the trace and after each further event, none of
      which whitelists the client. */
  ghost predicate Survives(cfg: Config, trace: seq<Timed>, more: seq<Timed>, id: string) {
    && (forall i :: 0 <= i <= |more| ==> id in After(cfg, trace + more[..i]).clients)
    && forall i :: 0 <= i < |more| ==> more[i].event != Whitelist(id)
  }

  lemma OneMore<T>(a: seq<T>, b: seq<T>, i: nat)
    requires i < |b|
    ensures a + b[..i + 1] == (a + b[..i]) + [b[i]]
  {
  }

  lemma {:induction false} LockoutKept(cfg: Config, trace: seq<Timed>, more: seq<Timed>, i: nat, id: string)
    requires cfg.enabled && LockedOut(After(cfg, trace), id) && Survives(cfg, trace, more, id) && i <= |more|
    ensures LockedOut(After(cfg, trace + more[..i]), id)
    ensures Admissions(cfg, trace + more[..i], id) == Admissions(cfg, trace, id)
  {
    if i == 0 {
      assert trace + more[..0] == trace;
    } else {
      var before, e := trace + more[..i - 1], more[i - 1];
      LockoutKept(cfg, trace, more, i - 1, id);
      OneMore(trace, more, i - 1);
      LockedOutUnroll(cfg, before, e, trace + more[..i], id);
    }
  }

  /** However well it behaves, a client that is locked out is refused for as long as its record
      survives: only a sweep that drops the record (or the whitelist) ever lets it in again. */
  lemma LockoutIsForever(cfg: Config, trace: seq<Timed>, more: seq<Timed>, id: string)
    requires cfg.enabled && LockedOut(After(cfg, trace), id)
    requires Survives(cfg, trace, more, id)
    ensures LockedOut(After(cfg, trace + more), id)
    ensures Admissions(cfg, trace + more, id) == Admissions(cfg, trace, id)
  {
    LockoutKept(cfg, trace, more, |more|, id);
    assert more[..|more|] == more;
  }

  // ---- a limit that is left lets the client in again

  /** A request with nothing in its window that passes the breaker is admitted exactly when the
      client has a limit left, whatever its anomaly score. */
  lemma EmptyWindowAdmitsExactly(cfg: Config, s: State, now: int, id: string, score: real)
    requires cfg.enabled && id in s.clients && !s.clients[id].whitelisted && Gate(cfg, s.breaker, now).1
    requires FilterAfter(s.clients[id].requests, now - cfg.windowSize) == []
    ensures Step(cfg, s, Timed(now, Request(id, score))).1 <==> s.clients[id].currentLimit > 0
  {
  }

  lemma {:induction false} LaterThanAll(times: seq<int>) returns (t: int)
    ensures forall i :: 0 <= i < |times| ==> times[i] <= t
  {
    t := 0;
    if times != [] {
      t := LaterThanAll(times[..|times| - 1]);
      t := Max(t, times[|times| - 1]);
    }
  }

  /** After a pause long enough for the window to empty and the breaker to time out. */
  lemma QuietTime(cfg: Config, trace: seq<Timed>, id: string) returns (now: int)
    ensures forall i :: 0 <= i < |trace| ==> trace[i].at <= now
    ensures Gate(cfg, After(cfg, trace).breaker, now).1
    ensures FilterAfter(Stored(After(cfg, trace), id), now - cfg.windowSize) == []
  {
    var s := After(cfg, trace);
    var stored := LaterThanAll(Stored(s, id));
    var latest := LaterThanAll(seq(|trace|, i requires 0 <= i < |trace| => trace[i].at));
    now := Max(Max(stored + cfg.windowSize, s.breaker.lastFailure + cfg.breakerTimeout + 1), latest);
    NoneAfter(Stored(s, id), now - cfg.windowSize);
    assert forall i :: 0 <= i < |trace| ==> trace[i].at == seq(|trace|, i requires 0 <= i < |trace| => trace[i].at)[i];
  }

  /** Some continuation in which the record survives gets another request of the client admitted. */
  ghost predicate Readmittable(cfg: Config, trace: seq<Timed>, id: string) {
    exists more :: Clocked(trace + more) && Survives(cfg, trace, more, id) &&
                   Admissions(cfg, trace + more, id) != Admissions(cfg, trace, id)
  }

  lemma LimitLeftReadmits(cfg: Config, trace: seq<Timed>, id: string)
    requires cfg.enabled && Clocked(trace) && id in After(cfg, trace).clients &&
               !After(cfg, trace).clients[id].whitelisted
    requires After(cfg, trace).clients[id].currentLimit > 0
    ensures Readmittable(cfg, trace, id)
  {
    var now := QuietTime(cfg, trace, id);
    var e := Timed(now, Request(id, 0.0));
    var more := [e];
    EmptyWindowAdmitsExactly(cfg, After(cfg, trace), now, id, 0.0);
    Unroll(cfg, trace, e, id);
    assert trace + more[..0] == trace && more[..1] == more;
    assert Survives(cfg, trace, more, id);
  }

  /** MAIN RESULT. In every run, a client without the whitelist can get a request admitted again,
      while its record survives, exactly when its dynamic limit is positive. */
  lemma LockedOutExactly(cfg: Config, trace: seq<Timed>, id: string)
    requires cfg.enabled && Clocked(trace) && id in After(cfg, trace).clients &&
               !After(cfg, trace).clients[id].whitelisted
    ensures Readmittable(cfg, trace, id) <==> After(cfg, trace).clients[id].currentLimit > 0
  {
    if After(cfg, trace).clients[id].currentLimit > 0 {
      LimitLeftReadmits(cfg, trace, id);
    } else {
      forall more | Survives(cfg, trace, more, id)
        ensures Admissions(cfg, trace + more, id) == Admissions(cfg, trace, id)
      {
        LockoutIsForever(cfg, trace, more, id);
      }
    }
  }

  // ---- what the sweep drops

  /** A record that stores no admission has no limit left either: the last decision found nothing in
      its window and still refused. */
  ghost predicate EmptyIsOut(s: State, id: string) {
    id in s.clients && !s.clients[id].whitelisted && s.clients[id].requests == [] ==> s.clients[id].currentLimit <= 0
  }

  lemma DecideEmptiesNone(cfg: Config, record: Client, now: int, score: real)
    requires Sunk(cfg, record) && Decide(cfg, record, now, score).0.requests == []
    ensures Decide(cfg, record, now, score).0.currentLimit <= 0
  {
    DecideRecordsAdmission(cfg, record, now, score);
    DecideSinks(cfg, record, now, score);
  }

  lemma StepEmptiesNone(cfg: Config, s: State, e: Timed, id: string)
    requires SunkAt(cfg, s, id) && EmptyIsOut(s, id)
    ensures EmptyIsOut(Step(cfg, s, e).0, id)
  {
    if e.event.Request? && e.event.client == id {
      var c := RecordOf(cfg, s.clients, id);
      EarnedGrows(cfg, 0.5, 1.0);
      DecideRecordsAdmission(cfg, c, e.at, e.event.score);
      if !c.whitelisted && Decide(cfg, c, e.at, e.event.score).0.requests == [] {
        DecideEmptiesNone(cfg, c, e.at, e.event.score);
      }
    }
  }

  lemma {:induction false} RunEmptiesNone(cfg: Config, trace: seq<Timed>, id: string)
    ensures EmptyIsOut(After(cfg, trace), id)
  {
    if trace != [] {
      RunEmptiesNone(cfg, trace[..|trace| - 1], id);
      RunSinks(cfg, trace[..|trace| - 1], id);
      StepEmptiesNone(cfg, After(cfg, trace[..|trace| - 1]), trace[|trace| - 1], id);
    }
  }

  ghost predicate NotBlockedFor(c: Client, now: int, span: int) {
    c.lastBlocked.None? || now - c.lastBlocked.value > span
  }

  /** MAIN RESULT. In every run a sweep drops a record exactly if it stores no admission, was not refused
      for ten minutes, and is not a trusted one not refused for thirty; without the whitelist that
      leaves only clients that are locked out. */
  lemma SweepDropsExactly(cfg: Config, trace: seq<Timed>, now: int, id: string)
    requires id in After(cfg, trace).clients
    ensures var s := After(cfg, trace); var c := s.clients[id];
            && (id !in OnSweep(cfg, s, now).clients <==>
                  && c.requests == [] && NotBlockedFor(c, now, 10 * MINUTE)
                  && !(c.totalRequests > 0 && c.trustScore > 0.8 && NotBlockedFor(c, now, 30 * MINUTE)))
            && (id !in OnSweep(cfg, s, now).clients && !c.whitelisted ==> LockedOut(s, id))
            && (id in OnSweep(cfg, s, now).clients ==> OnSweep(cfg, s, now).clients[id] == c)
  {
    RunEmptiesNone(cfg, trace, id);
  }

  // ---- how a record outlives the sweep

  /** The event is a request of the client that is refused for want of room in its window. */
  ghost predicate Refuses(cfg: Config, s: State, e: Timed, id: string) {
    && cfg.enabled && Decided(cfg, s, e, id) && !(cfg.enableWhitelist && id in s.clients && s.clients[id].whitelisted)
    && var c := RecordOf(cfg, s.clients, id); |FilterAfter(c.requests, e.at - cfg.windowSize)| >= c.currentLimit
  }

  ghost predicate RefusedAt(cfg: Config, trace: seq<Timed>, j: nat, id: string) {
    j < |trace| && Refuses(cfg, After(cfg, trace[..j]), trace[j], id)
  }

  /** Every sweep after the given event comes within ten minutes of a refusal since then. */
  ghost predicate KeepsBeingRefused(cfg: Config, trace: seq<Timed>, from: nat, id: string) {
    RefusedAt(cfg, trace, from, id) &&
    forall k :: from < k < |trace| && trace[k].event.Sweep? ==>
      exists j: nat :: from <= j < k && RefusedAt(cfg, trace, j, id) && trace[k].at - trace[j].at <= 10 * MINUTE
  }

  /** The client has a record that remembers a refusal no earlier than the given time. */
  ghost predicate Remembers(s: State, id: string, since: int) {
    id in s.clients && s.clients[id].lastBlocked.Some? && s.clients[id].lastBlocked.value >= since
  }

  lemma RefusalIsRemembered(cfg: Config, s: State, e: Timed, id: string)
    requires Refuses(cfg, s, e, id)
    ensures Remembers(Step(cfg, s, e).0, id, e.at)
  {
  }

  lemma StepRemembers(cfg: Config, s: State, e: Timed, id: string, since: int)
    requires Remembers(s, id, since) && since <= e.at
    requires e.event.Sweep? ==> e.at - since <= 10 * MINUTE
    ensures Remembers(Step(cfg, s, e).0, id, since)
  {
  }

  lemma AfterNext(cfg: Config, trace: seq<Timed>, i: nat)
    requires i < |trace|
    ensures After(cfg, trace[..i + 1]) == Step(cfg, After(cfg, trace[..i]), trace[i]).0
  {
    assert trace[..i + 1] == trace[..i] + [trace[i]];
    assert trace[..i + 1][..i] == trace[..i];
  }

  /** After i events, every refusal since the first is remembered, or a later one. */
  lemma {:induction false} RefusalsAreRemembered(cfg: Config, trace: seq<Timed>, from: nat, i: nat, j: nat, id: string)
    requires Clocked(trace) && KeepsBeingRefused(cfg, trace, from, id) && from < i <= |trace|
    requires from <= j < i && RefusedAt(cfg, trace, j, id)
    ensures Remembers(After(cfg, trace[..i]), id, trace[j].at)
    decreases i
  {
    var n := i - 1;
    AfterNext(cfg, trace, n);
    if j == n {
      RefusalIsRemembered(cfg, After(cfg, trace[..n]), trace[n], id);
    } else {
      RefusalsAreRemembered(cfg, trace, from, n, j, id);
      if trace[n].event.Sweep? {
        var k: nat :| from <= k < n && RefusedAt(cfg, trace, k, id) && trace[n].at - trace[k].at <= 10 * MINUTE;
        RefusalsAreRemembered(cfg, trace, from, n, k, id);
        StepRemembers(cfg, After(cfg, trace[..n]), trace[n], id, Max(trace[k].at, trace[j].at));
      } else {
        StepRemembers(cfg, After(cfg, trace[..n]), trace[n], id, trace[j].at);
      }
    }
  }

  /** A client that keeps being refused, so that every sweep comes within ten minutes of a refusal,
      has its record at every point of the run from the first of them on. */
  lemma RefusalKeepsRecord(cfg: Config, trace: seq<Timed>, from: nat, i: nat, id: string)
    requires Clocked(trace) && KeepsBeingRefused(cfg, trace, from, id) && from < i <= |trace|
    ensures id in After(cfg, trace[..i]).clients
  {
    RefusalsAreRemembered(cfg, trace, from, i, from, id);
  }

  lemma SurvivesRefusals(cfg: Config, trace: seq<Timed>, from: nat, start: seq<Timed>, more: seq<Timed>, id: string)
    requires Clocked(trace) && KeepsBeingRefused(cfg, trace, from, id)
    requires forall k :: from < k < |trace| ==> trace[k].event != Whitelist(id)
    requires trace == start + more && |start| == from + 1
    ensures Survives(cfg, start, more, id)
  {
    forall i | 0 <= i <= |more| ensures id in After(cfg, start + more[..i]).clients {
      assert start + more[..i] == trace[..from + 1 + i];
      RefusalKeepsRecord(cfg, trace, from, from + 1 + i, id);
    }
    forall i | 0 <= i < |more| ensures more[i].event != Whitelist(id) {
      assert more[i] == trace[from + 1 + i];
    }
  }

  /** So a client that is locked out and keeps trying at that pace never has a request admitted again. */
  lemma RetryingStaysOut(cfg: Config, trace: seq<Timed>, from: nat, id: string)
    requires Clocked(trace) && KeepsBeingRefused(cfg, trace, from, id)
    requires forall k :: from < k < |trace| ==> trace[k].event != Whitelist(id)
    requires LockedOut(After(cfg, trace[..from + 1]), id)
    ensures LockedOut(After(cfg, trace), id)
    ensures Admissions(cfg, trace, id) == Admissions(cfg, trace[..from + 1], id)
  {
    var start, more := trace[..from + 1], trace[from + 1..];
    assert start + more == trace;
    SurvivesRefusals(cfg, trace, from, start, more, id);
    LockoutIsForever(cfg, start, more, id);
  }

  // ---- reaching it

  /** The record of a client that sends n requests at once to a fresh engine. */
  function FloodRecord(cfg: Config, id: string, n: nat): Client {
    RecordOf(cfg, After(cfg, Flood(id, false, n)).clients, id)
  }

  /** The breaker stays closed in a flood, and the client is known from its first request on. */
  ghost predicate InFlood(s: State, id: string, n: nat) {
    s.breaker == INITIAL.breaker && (id in s.clients <==> n > 0) && (n > 0 ==> !s.clients[id].whitelisted)
  }

  lemma FloodRequest(cfg: Config, s: State, id: string, n: nat, s': State)
    requires cfg.enabled && InFlood(s, id, n) && s' == Step(cfg, s, Timed(0, Request(id, 0.0))).0
    ensures InFlood(s', id, n + 1) && s'.clients[id] == Decide(cfg, RecordOf(cfg, s.clients, id), 0, 0.0).0
  {
    DecideRecordsAdmission(cfg, RecordOf(cfg, s.clients, id), 0, 0.0);
  }

  lemma {:induction false} FloodHasRecord(cfg: Config, id: string, n: nat)
    requires cfg.enabled
    ensures InFlood(After(cfg, Flood(id, false, n)), id, n)
    ensures n > 0 ==> FloodRecord(cfg, id, n) == Decide(cfg, FloodRecord(cfg, id, n - 1), 0, 0.0).0
  {
    if n > 0 {
      var before, e := Flood(id, false, n - 1), Timed(0, Request(id, 0.0));
      FloodHasRecord(cfg, id, n - 1);
      Unroll(cfg, before, e, id);
      FloodRequest(cfg, After(cfg, before), id, n - 1, After(cfg, before + [e]));
    }
  }

  /** The record of a flood: everything at one instant, and a limit no lower than its trust earns. */
  ghost predicate Flooded(cfg: Config, c: Client) {
    && (forall i :: 0 <= i < |c.requests| ==> c.requests[i] == 0)
    && 0.0 <= c.trustScore <= 1.0
    && Earned(cfg, c.trustScore) <= c.currentLimit <= cfg.perClientLimit
  }

  lemma FloodDecides(cfg: Config, c: Client)
    requires cfg.windowSize > 0 && Flooded(cfg, c)
    ensures Decide(cfg, c, 0, 0.0).0 ==
            if |c.requests| >= c.currentLimit then Block(cfg, c, 0)
            else Admit(cfg, if cfg.anomalyDetection then c.(anomalyScore := 0.0) else c, 0)
  {
    AllAfter(c.requests, 0 - cfg.windowSize);
    assert c.(requests := c.requests) == c;
  }

  lemma BlockEither(cfg: Config, c: Client, now: int)
    requires 0.0 <= c.trustScore <= 1.0
    ensures var c' := Block(cfg, c, now);
            && c'.requests == c.requests && 0.0 <= c'.trustScore <= c.trustScore
            && (c'.currentLimit == c.currentLimit || c'.currentLimit == Earned(cfg, c'.trustScore))
  {
  }

  lemma BlockFlooded(cfg: Config, c: Client)
    requires cfg.perClientLimit >= 0 && Flooded(cfg, c)
    ensures Flooded(cfg, Block(cfg, c, 0)) && Block(cfg, c, 0).currentLimit <= c.currentLimit
  {
    var c' := Block(cfg, c, 0);
    BlockEither(cfg, c, 0);
    EarnedGrows(cfg, c'.trustScore, c.trustScore);
    TruncBetween(cfg.perClientLimit, c'.trustScore);
  }

  /** The limit that an admission restores is at least what trust alone earns. */
  lemma RestoredLimit(cfg: Config, trust: real)
    requires cfg.perClientLimit >= 0 && 0.0 <= trust <= 1.0
    ensures Earned(cfg, trust) <= Earned(cfg, 0.5 + 0.5 * trust) <= cfg.perClientLimit
  {
    EarnedGrows(cfg, trust, 0.5 + 0.5 * trust);
    TruncBetween(cfg.perClientLimit, 0.5 + 0.5 * trust);
  }

  lemma AdmitEither(cfg: Config, c: Client, now: int)
    requires 0.0 <= c.trustScore <= 1.0
    ensures var c' := Admit(cfg, c, now);
            && c'.requests == c.requests + [now] && 0.0 <= c'.trustScore <= 1.0
            && ((c'.trustScore == c.trustScore && c'.currentLimit == c.currentLimit)
                || (|c.requests| + 1 < c.currentLimit / 2 && c'.currentLimit == Earned(cfg, 0.5 + 0.5 * c'.trustScore)))
  {
  }

  lemma AdmitFlooded(cfg: Config, c: Client)
    requires cfg.perClientLimit >= 0 && Flooded(cfg, c)
    ensures Flooded(cfg, Admit(cfg, c, 0))
  {
    AdmitEither(cfg, c, 0);
    RestoredLimit(cfg, Admit(cfg, c, 0).trustScore);
  }

  ghost predicate Filling(cfg: Config, c: Client, n: nat) {
    Flooded(cfg, c) && (|c.requests| >= c.currentLimit || |c.requests| == n)
  }

  lemma FillsFurther(cfg: Config, c: Client, c': Client, n: nat)
    requires cfg.windowSize > 0 && cfg.perClientLimit >= 0
    requires Filling(cfg, c, n) && c' == Decide(cfg, c, 0, 0.0).0
    ensures Filling(cfg, c', n + 1)
  {
    FloodDecides(cfg, c);
    BlockFlooded(cfg, c);
    AdmitFlooded(cfg, c);
    AdmitFlooded(cfg, c.(anomalyScore := 0.0));
  }

  /** The first requests are admitted up to the limit, and then the limit stays used up. */
  lemma {:induction false} FloodFills(cfg: Config, id: string, n: nat)
    requires cfg.enabled && cfg.windowSize > 0 && cfg.perClientLimit >= 0
    ensures Filling(cfg, FloodRecord(cfg, id, n), n)
  {
    if n == 0 {
      TruncBetween(cfg.perClientLimit, 0.5);
    } else {
      FloodFills(cfg, id, n - 1);
      FloodHasRecord(cfg, id, n);
      FillsFurther(cfg, FloodRecord(cfg, id, n - 1), FloodRecord(cfg, id, n), n - 1);
    }
  }

  /** The limit is used up, and k refusals have each cost a tenth of trust. */
  ghost predicate Sinking(cfg: Config, c: Client, k: nat) {
    && |c.requests| >= c.currentLimit
    && (c.trustScore == 0.0 || c.trustScore <= 1.0 - 0.1 * k as real)
    && (k > 0 && c.trustScore < 0.5 ==> c.currentLimit == Earned(cfg, c.trustScore))
  }

  lemma BlockSinksFurther(cfg: Config, c: Client, k: nat)
    requires cfg.adaptiveThrottling && cfg.perClientLimit >= 0 && Flooded(cfg, c) && Sinking(cfg, c, k)
    ensures Sinking(cfg, Block(cfg, c, 0), k + 1)
  {
  }

  lemma SinksFurther(cfg: Config, c: Client, c': Client, k: nat)
    requires cfg.adaptiveThrottling && cfg.windowSize > 0 && cfg.perClientLimit >= 0
    requires Flooded(cfg, c) && Sinking(cfg, c, k) && c' == Decide(cfg, c, 0, 0.0).0
    ensures Sinking(cfg, c', k + 1)
  {
    FloodDecides(cfg, c);
    BlockSinksFurther(cfg, c, k);
  }

  lemma FloodSinksNext(cfg: Config, id: string, n: nat, k: nat)
    requires cfg.enabled && cfg.adaptiveThrottling && cfg.windowSize > 0 && cfg.perClientLimit >= 0 && n > 0 && k > 0
    requires Flooded(cfg, FloodRecord(cfg, id, n - 1)) && Sinking(cfg, FloodRecord(cfg, id, n - 1), k - 1)
    ensures Sinking(cfg, FloodRecord(cfg, id, n), k)
  {
    var c, c' := FloodRecord(cfg, id, n - 1), FloodRecord(cfg, id, n);
    FloodHasRecord(cfg, id, n);
    SinksFurther(cfg, c, c', k - 1);
  }

  lemma StartsSinking(cfg: Config, c: Client)
    requires Flooded(cfg, c) && |c.requests| >= c.currentLimit
    ensures Sinking(cfg, c, 0)
  {
  }

  lemma {:induction false} FloodSinks(cfg: Config, id: string, n: nat, k: nat)
    requires cfg.enabled && cfg.windowSize > 0 && cfg.perClientLimit >= 0 && cfg.adaptiveThrottling &&
               n == cfg.perClientLimit + k
    ensures Sinking(cfg, FloodRecord(cfg, id, n), k)
    decreases k
  {
    if k == 0 {
      FloodFills(cfg, id, n);
      StartsSinking(cfg, FloodRecord(cfg, id, n));
    } else {
      FloodSinks(cfg, id, n - 1, k - 1);
      FloodFills(cfg, id, n - 1);
      FloodSinksNext(cfg, id, n, k);
    }
  }

  lemma TenRefusalsSink(cfg: Config, c: Client)
    requires Flooded(cfg, c) && Sinking(cfg, c, 10)
    ensures c.currentLimit <= 0
  {
  }

  lemma FloodLocksOut(cfg: Config, id: string, n: nat)
    requires cfg.enabled && cfg.adaptiveThrottling && cfg.windowSize > 0 && cfg.perClientLimit >= 0
    requires n == cfg.perClientLimit + 10
    ensures LockedOut(After(cfg, Flood(id, false, n)), id)
  {
    FloodSinks(cfg, id, n, 10);
    FloodFills(cfg, id, n);
    TenRefusalsSink(cfg, FloodRecord(cfg, id, n));
    FloodHasRecord(cfg, id, n);
  }

  lemma FirstRefusalLocksOut(cfg: Config, id: string)
    requires cfg.enabled && cfg.perClientLimit <= 0
    ensures LockedOut(After(cfg, Flood(id, false, 1)), id)
  {
  }

  // ---- where it cannot be reached

  /** A record with a positive limit, and nothing stored from the future. */
  ghost predicate Afloat(cfg: Config, c: Client, now: int) {
    && 0 < c.currentLimit <= cfg.perClientLimit
    && 0.0 <= c.trustScore <= 1.0
    && forall t :: t in c.requests ==> t <= now
  }

  lemma AdmitFloats(cfg: Config, c: Client, now: int)
    requires Afloat(cfg, c, now)
    ensures Afloat(cfg, Admit(cfg, c, now), now)
  {
    var trust := Admit(cfg, c, now).trustScore;
    AdmitEither(cfg, c, now);
    RestoredLimit(cfg, trust);
    EarnedGrows(cfg, 0.5, 0.5 + 0.5 * trust);
  }

  /** What is in the window of a record that is afloat: nothing, if the window is empty. */
  lemma FilterFloats(cfg: Config, c: Client, now: int)
    requires Afloat(cfg, c, now)
    ensures var kept := FilterAfter(c.requests, now - cfg.windowSize);
            Afloat(cfg, c.(requests := kept), now) && (cfg.windowSize <= 0 ==> kept == [])
  {
    var cutoff := now - cfg.windowSize;
    assert forall i :: 0 <= i < |c.requests| ==> c.requests[i] in c.requests;
    if cfg.windowSize <= 0 {
      NoneAfter(c.requests, cutoff);
    }
    forall t | t in FilterAfter(c.requests, cutoff) ensures t <= now {
      FilterMembers(c.requests, cutoff, t);
    }
  }

  lemma DecideFloats(cfg: Config, record: Client, now: int, score: real)
    requires Afloat(cfg, record, now) && (!cfg.adaptiveThrottling || cfg.windowSize <= 0)
    ensures Afloat(cfg, Decide(cfg, record, now, score).0, now)
  {
    var c := record.(requests := FilterAfter(record.requests, now - cfg.windowSize));
    FilterFloats(cfg, record, now);
    AdmitFloats(cfg, c, now);
    AdmitFloats(cfg, c.(anomalyScore := score), now);
    if c.currentLimit / 2 < |c.requests| < c.currentLimit {
      HalvingKeepsSome(c.currentLimit, |c.requests|);
      TruncBetween(c.currentLimit, 0.5);
    }
  }

  ghost predicate NeverOut(cfg: Config, s: State, id: string, now: int) {
    id in s.clients && !s.clients[id].whitelisted ==> cfg.enabled && Afloat(cfg, s.clients[id], now)
  }

  lemma StepFloats(cfg: Config, s: State, e: Timed, id: string, now: int)
    requires NeverOut(cfg, s, id, now) && now <= e.at
    requires cfg.enabled ==> cfg.perClientLimit > 0 && (!cfg.adaptiveThrottling || cfg.windowSize <= 0)
    ensures NeverOut(cfg, Step(cfg, s, e).0, id, e.at)
  {
    if cfg.enabled && e.event.Request? && e.event.client == id {
      var c := RecordOf(cfg, s.clients, id);
      DecideRecordsAdmission(cfg, c, e.at, e.event.score);
      if !c.whitelisted {
        DecideFloats(cfg, c, e.at, e.event.score);
      }
    }
  }

  lemma {:induction false} RunFloats(cfg: Config, trace: seq<Timed>, id: string, now: int)
    requires cfg.enabled ==> cfg.perClientLimit > 0 && (!cfg.adaptiveThrottling || cfg.windowSize <= 0)
    requires Clocked(trace) && (trace != [] ==> trace[|trace| - 1].at <= now)
    ensures NeverOut(cfg, After(cfg, trace), id, now)
  {
    if trace != [] {
      var before, e := trace[..|trace| - 1], trace[|trace| - 1];
      RunFloats(cfg, before, id, e.at);
      StepFloats(cfg, After(cfg, before), e, id, e.at);
    }
  }

  /** MAIN RESULT. A client without the whitelist can be locked out at all exactly when the engine is
      enabled and either has no positive limit, or throttles by trust over a window that is not empty. */
  lemma LockoutReachableExactly(cfg: Config, id: string)
    ensures (exists trace :: Clocked(trace) && LockedOut(After(cfg, trace), id))
            <==> cfg.enabled && (cfg.perClientLimit <= 0 || (cfg.adaptiveThrottling && cfg.windowSize > 0))
  {
    if cfg.enabled && cfg.perClientLimit <= 0 {
      FloodShape(id, false, 1);
      FirstRefusalLocksOut(cfg, id);
      assert Clocked(Flood(id, false, 1));
    } else if cfg.enabled && cfg.adaptiveThrottling && cfg.windowSize > 0 {
      var n := cfg.perClientLimit + 10;
      FloodShape(id, false, n);
      FloodLocksOut(cfg, id, n);
      assert Clocked(Flood(id, false, n));
    } else {
      forall trace: seq<Timed> | Clocked(trace) ensures !LockedOut(After(cfg, trace), id) {
        RunFloats(cfg, trace, id, if trace == [] then 0 else trace[|trace| - 1].at);
      }
    }
  }
}
