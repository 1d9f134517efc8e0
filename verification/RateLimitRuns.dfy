/** Adaptive rate limiter: what holds over every window of every run. */
module RateLimitRuns {
  import opened Arithmetic
  import opened TimeWindows
  import opened RateLimitModel

  /** The configured limit; a negative one admits nothing. */
  function Cap(cfg: Config): nat {
    if cfg.perClientLimit > 0 then cfg.perClientLimit else 0
  }

  /** The bound of a client's window: whitelisting a new client multiplies its limit by ten. */
  function Bound(cfg: Config, whitelisted: bool): nat {
    if whitelisted then 10 * Cap(cfg) else Cap(cfg)
  }

  lemma TruncBetween(limit: int, factor: real)
    requires 0.0 <= factor <= 1.0
    ensures limit >= 0 ==> 0 <= Trunc(limit as real * factor) <= limit
    ensures limit <= 0 ==> limit <= Trunc(limit as real * factor) <= 0
  {
    var x := limit as real * factor;
    if limit >= 0 {
      assert 0.0 <= x <= limit as real;
    } else {
      assert limit as real <= x <= 0.0;
      assert -x <= (-limit) as real;
    }
  }

  /** Every stored record keeps a trust score in [0, 1] and a limit within its cap. */
  ghost predicate RecordOk(cfg: Config, c: Client, bound: nat) {
    && 0.0 <= c.trustScore <= 1.0
    && c.currentLimit <= bound
    && (cfg.perClientLimit >= 0 ==> 0 <= c.currentLimit)
  }

  lemma BlockKeepsRecordOk(cfg: Config, c: Client, now: int, bound: nat)
    requires RecordOk(cfg, c, bound) && Cap(cfg) <= bound
    ensures RecordOk(cfg, Block(cfg, c, now), bound)
  {
  }

  lemma AdmitKeepsRecordOk(cfg: Config, c: Client, now: int, bound: nat)
    requires RecordOk(cfg, c, bound) && Cap(cfg) <= bound
    ensures RecordOk(cfg, Admit(cfg, c, now), bound)
  {
    var trust := Admit(cfg, c, now).trustScore;
    assert 0.0 <= trust <= 1.0;
    TruncBetween(cfg.perClientLimit, 0.5 + 0.5 * trust);
  }

  lemma DecideKeepsRecordOk(cfg: Config, record: Client, now: int, score: real, bound: nat)
    requires RecordOk(cfg, record, bound) && Cap(cfg) <= bound
    ensures RecordOk(cfg, Decide(cfg, record, now, score).0, bound)
  {
    var c := record.(requests := FilterAfter(record.requests, now - cfg.windowSize));
    BlockKeepsRecordOk(cfg, c, now, bound);
    AdmitKeepsRecordOk(cfg, c, now, bound);
    AdmitKeepsRecordOk(cfg, c.(anomalyScore := score), now, bound);
    TruncBetween(c.currentLimit, 0.5);
  }

  /** A decision stores the in-window requests, plus the new one iff it is admitted, which
      needs room under the limit in force. */
  lemma DecideRecordsAdmission(cfg: Config, c: Client, now: int, score: real)
    ensures var (c', ok) := Decide(cfg, c, now, score);
            var kept := FilterAfter(c.requests, now - cfg.windowSize);
            && c'.requests == (if ok then kept + [now] else kept)
            && (ok ==> |kept| < c.currentLimit)
            && c'.whitelisted == c.whitelisted
  {
  }

  function Stored(s: State, id: string): seq<int> {
    if id in s.clients then s.clients[id].requests else []
  }

  /** The stored list stands for the full admission history from now on: the two agree after
      every cutoff that a present or future request can use. */
  ghost predicate Represents(stored: seq<int>, history: seq<int>, earliest: int) {
    forall cutoff :: cutoff >= earliest ==> FilterAfter(stored, cutoff) == FilterAfter(history, cutoff)
  }

  /** What a client's record and admission history satisfy between events, `now` being the latest
      time seen and `ever` whether the client was ever whitelisted. */
  ghost predicate Inv(cfg: Config, s: State, history: seq<int>, ever: bool, now: int, id: string) {
    && (id in s.clients ==> RecordOk(cfg, s.clients[id], Bound(cfg, ever)) && (s.clients[id].whitelisted ==> ever))
    && Represents(Stored(s, id), history, now - cfg.windowSize)
    && WindowsWithin(history, cfg.windowSize, Bound(cfg, ever))
  }

  lemma AdmissionKeepsFilter(kept: seq<int>, history: seq<int>, now: int, cutoff: int, ok: bool)
    requires FilterAfter(kept, cutoff) == FilterAfter(history, cutoff)
    ensures FilterAfter(if ok then kept + [now] else kept, cutoff) ==
              FilterAfter(if ok then history + [now] else history, cutoff)
  {
  }

  lemma DecideKeepsRepresents(cfg: Config, c: Client, history: seq<int>, now: int, score: real)
    requires Represents(c.requests, history, now - cfg.windowSize)
    ensures var (c', ok) := Decide(cfg, c, now, score);
            Represents(c'.requests, if ok then history + [now] else history, now - cfg.windowSize)
  {
    var requests', ok := Decide(cfg, c, now, score).0.requests, Decide(cfg, c, now, score).1;
    var history', earliest := if ok then history + [now] else history, now - cfg.windowSize;
    var kept := FilterAfter(c.requests, earliest);
    DecideRecordsAdmission(cfg, c, now, score);
    forall cutoff | cutoff >= earliest ensures FilterAfter(requests', cutoff) == FilterAfter(history', cutoff) {
      FilterTwice(c.requests, earliest, cutoff);
      AdmissionKeepsFilter(kept, history, now, cutoff, ok);
    }
  }

  /** The limit that a request of the client is measured against. */
  function LimitOf(cfg: Config, s: State, id: string): int {
    if id in s.clients then s.clients[id].currentLimit else cfg.perClientLimit
  }

  function Extend(history: seq<int>, e: Timed, id: string, ok: bool): seq<int> {
    if e.event.Request? && e.event.client == id && ok then history + [e.at] else history
  }

  predicate Decided(cfg: Config, s: State, e: Timed, id: string) {
    e.event.Request? && e.event.client == id && Gate(cfg, s.breaker, e.at).1
  }

  /** Only a request that passes the breaker touches the stored list or counts as an admission. */
  lemma UndecidedStep(cfg: Config, s: State, e: Timed, id: string)
    requires cfg.enabled && !Decided(cfg, s, e, id)
    ensures Stored(Step(cfg, s, e).0, id) == Stored(s, id)
    ensures e.event.Request? && e.event.client == id ==> !Step(cfg, s, e).1
  {
  }

  lemma DecideKeepsPromise(cfg: Config, c: Client, history: seq<int>, now: int, score: real, stored: seq<int>, ok: bool)
    requires Represents(c.requests, history, now - cfg.windowSize)
    requires stored == Decide(cfg, c, now, score).0.requests && ok == Decide(cfg, c, now, score).1
    ensures Represents(stored, if ok then history + [now] else history, now - cfg.windowSize)
    ensures ok ==> |FilterAfter(history, now - cfg.windowSize)| < c.currentLimit
  {
    DecideKeepsRepresents(cfg, c, history, now, score);
    DecideRecordsAdmission(cfg, c, now, score);
  }

  /** One step keeps the stored list a faithful stand-in for the history, and admits only below the limit. */
  lemma StepKeepsRepresents(cfg: Config, s: State, history: seq<int>, e: Timed, id: string)
    requires cfg.enabled
    requires cfg.enableWhitelist && id in s.clients ==> !s.clients[id].whitelisted
    requires Represents(Stored(s, id), history, e.at - cfg.windowSize)
    ensures var (s', ok) := Step(cfg, s, e);
            && Represents(Stored(s', id), Extend(history, e, id, ok), e.at - cfg.windowSize)
            && (Extend(history, e, id, ok) != history ==>
                  |FilterAfter(history, e.at - cfg.windowSize)| < LimitOf(cfg, s, id))
  {
    if Decided(cfg, s, e, id) {
      var (s', ok) := Step(cfg, s, e);
      DecideKeepsPromise(cfg, RecordOf(cfg, s.clients, id), history, e.at, e.event.score, Stored(s', id), ok);
    } else {
      UndecidedStep(cfg, s, e, id);
    }
  }

  lemma StepKeepsRecord(cfg: Config, s: State, e: Timed, id: string, ever: bool)
    requires id in s.clients ==> RecordOk(cfg, s.clients[id], Bound(cfg, ever)) && (s.clients[id].whitelisted ==> ever)
    ensures var s', ever' := Step(cfg, s, e).0, ever || e.event == Whitelist(id);
            id in s'.clients ==>
              RecordOk(cfg, s'.clients[id], Bound(cfg, ever')) && (s'.clients[id].whitelisted ==> ever')
  {
    if e.event.Request? && e.event.client == id {
      var c := RecordOf(cfg, s.clients, id);
      DecideKeepsRecordOk(cfg, c, e.at, e.event.score, Bound(cfg, ever));
      DecideRecordsAdmission(cfg, c, e.at, e.event.score);
    }
  }

  lemma StepKeepsInv(cfg: Config, s: State, history: seq<int>, ever: bool, e: Timed, id: string)
    requires cfg.enabled && (cfg.enableWhitelist ==> !ever)
    requires Inv(cfg, s, history, ever, e.at, id)
    ensures var (s', ok) := Step(cfg, s, e);
            Inv(cfg, s', Extend(history, e, id, ok), ever || e.event == Whitelist(id), e.at, id)
  {
    var (s', ok) := Step(cfg, s, e);
    var history', bound := Extend(history, e, id, ok), Bound(cfg, ever || e.event == Whitelist(id));
    StepKeepsRecord(cfg, s, e, id, ever);
    StepKeepsRepresents(cfg, s, history, e, id);
    if history' != history {
      AppendKeepsWindows(history, e.at, cfg.windowSize, Bound(cfg, ever));
    }
    forall t ensures InWindow(history', cfg.windowSize, t) <= bound {
      assert InWindow(history', cfg.windowSize, t) <= Bound(cfg, ever);
    }
  }

  lemma Unroll(cfg: Config, before: seq<Timed>, e: Timed, id: string)
    ensures var (s, ok) := Step(cfg, After(cfg, before), e);
            && After(cfg, before + [e]) == s
            && Admissions(cfg, before + [e], id) == Extend(Admissions(cfg, before, id), e, id, ok)
    ensures EverWhitelisted(before + [e], id) <==> EverWhitelisted(before, id) || e.event == Whitelist(id)
  {
  }

  lemma EverAppend(before: seq<Timed>, e: Timed, id: string)
    ensures EverWhitelisted(before + [e], id) <==> EverWhitelisted(before, id) || e.event == Whitelist(id)
  {
    var trace := before + [e];
    if EverWhitelisted(before, id) {
      var i :| 0 <= i < |before| && before[i].event == Whitelist(id);
      assert trace[i].event == Whitelist(id);
    }
    assert trace[|before|] == e;
  }

  lemma {:induction false} RunKeepsInv(cfg: Config, trace: seq<Timed>, now: int, id: string)
    requires cfg.enabled && Clocked(trace) && (trace != [] ==> trace[|trace| - 1].at <= now)
    requires cfg.enableWhitelist ==> !EverWhitelisted(trace, id)
    ensures Inv(cfg, After(cfg, trace), Admissions(cfg, trace, id), EverWhitelisted(trace, id), now, id)
  {
    if trace == [] {
      assert forall t :: InWindow([], cfg.windowSize, t) == 0;
    } else {
      var before, e := trace[..|trace| - 1], trace[|trace| - 1];
      assert trace == before + [e];
      Unroll(cfg, before, e, id);
      RunKeepsInv(cfg, before, e.at, id);
      var s, history, ever := After(cfg, before), Admissions(cfg, before, id), EverWhitelisted(before, id);
      StepKeepsInv(cfg, s, history, ever, e, id);
    }
  }

  /** MAIN RESULT. In every run, whatever the anomaly scores, limit changes, breaker trips and
      record deletions, every window of the configured size holds at most the configured number
      of admitted requests of a client (ten times that if it was ever whitelisted). */
  lemma EveryWindowIsWithinTheLimit(cfg: Config, trace: seq<Timed>, id: string, t: int)
    requires cfg.enabled && Clocked(trace)
    requires cfg.enableWhitelist ==> !EverWhitelisted(trace, id)
    ensures InWindow(Admissions(cfg, trace, id), cfg.windowSize, t) <= Bound(cfg, EverWhitelisted(trace, id))
  {
    RunKeepsInv(cfg, trace, if trace == [] then 0 else trace[|trace| - 1].at, id);
  }

  /** Trust scores and dynamic limits stay in range in every run at all. */
  lemma {:induction false} LimitsStayInRange(cfg: Config, trace: seq<Timed>, id: string)
    ensures var s, ever := After(cfg, trace), EverWhitelisted(trace, id);
            id in s.clients ==>
              RecordOk(cfg, s.clients[id], Bound(cfg, ever)) && (s.clients[id].whitelisted ==> ever)
  {
    if trace != [] {
      var before, e := trace[..|trace| - 1], trace[|trace| - 1];
      assert trace == before + [e];
      LimitsStayInRange(cfg, before, id);
      StepKeepsRecord(cfg, After(cfg, before), e, id, EverWhitelisted(before, id));
      EverAppend(before, e, id);
    }
  }

  /** The stored list always answers like the full history: after filtering by the cutoff of a
      request made now, both hold the same admissions. */
  lemma StoredListIsTheHistoryInWindow(cfg: Config, trace: seq<Timed>, id: string, now: int)
    requires cfg.enabled && Clocked(trace) && (trace != [] ==> trace[|trace| - 1].at <= now)
    requires cfg.enableWhitelist ==> !EverWhitelisted(trace, id)
    ensures var cutoff := now - cfg.windowSize;
            FilterAfter(Stored(After(cfg, trace), id), cutoff) == FilterAfter(Admissions(cfg, trace, id), cutoff)
  {
    RunKeepsInv(cfg, trace, now, id);
  }

  lemma SweepKeepsStored(cfg: Config, s: State, history: seq<int>, now: int, id: string, t: int)
    requires FilterAfter(Stored(s, id), now - cfg.windowSize) == FilterAfter(history, now - cfg.windowSize)
    requires t in history && now - cfg.windowSize < t
    ensures id in OnSweep(cfg, s, now).clients
  {
    MembersSurviveFilter(Stored(s, id), history, now - cfg.windowSize, t);
  }

  /** The sweep never forgets a client that still has an admitted request in the current window. */
  lemma SweepKeepsActiveClients(cfg: Config, trace: seq<Timed>, id: string, now: int, t: int)
    requires cfg.enabled && Clocked(trace) && (trace != [] ==> trace[|trace| - 1].at <= now)
    requires cfg.enableWhitelist ==> !EverWhitelisted(trace, id)
    requires t in Admissions(cfg, trace, id) && now - cfg.windowSize < t
    ensures id in OnSweep(cfg, After(cfg, trace), now).clients
  {
    StoredListIsTheHistoryInWindow(cfg, trace, id, now);
    SweepKeepsStored(cfg, After(cfg, trace), Admissions(cfg, trace, id), now, id, t);
  }

  /** A client, first put on the whitelist if `listed`, that sends n requests at the same instant. */
  function Flood(id: string, listed: bool, n: nat): seq<Timed> {
    if n == 0 then if listed then [Timed(0, Whitelist(id))] else []
    else Flood(id, listed, n - 1) + [Timed(0, Request(id, 0.0))]
  }

  lemma {:induction false} FloodShape(id: string, listed: bool, n: nat)
    ensures forall i :: 0 <= i < |Flood(id, listed, n)| ==> Flood(id, listed, n)[i].at == 0
    ensures EverWhitelisted(Flood(id, listed, n), id) == listed
  {
    if n > 0 {
      FloodShape(id, listed, n - 1);
      EverAppend(Flood(id, listed, n - 1), Timed(0, Request(id, 0.0)), id);
    } else if listed {
      assert Flood(id, listed, 0)[0].event == Whitelist(id);
    }
  }

  /** A closed breaker, and no limit that applies to the client. */
  ghost predicate Unlimited(cfg: Config, s: State, id: string) {
    && s.breaker.state == CircuitClosed
    && (cfg.enabled ==> cfg.enableWhitelist && id in s.clients && s.clients[id].whitelisted)
  }

  /** One more request in a flood is one more admission at the same instant. */
  lemma FloodStep(cfg: Config, before: seq<Timed>, trace: seq<Timed>, id: string)
    requires trace == before + [Timed(0, Request(id, 0.0))]
    requires cfg.windowSize > 0 && Unlimited(cfg, After(cfg, before), id)
    ensures Unlimited(cfg, After(cfg, trace), id)
    ensures Admissions(cfg, trace, id) == Admissions(cfg, before, id) + [0]
  {
  }

  lemma FloodStart(cfg: Config, id: string, listed: bool)
    requires !cfg.enabled || (cfg.enableWhitelist && listed)
    ensures Unlimited(cfg, After(cfg, Flood(id, listed, 0)), id)
    ensures Admissions(cfg, Flood(id, listed, 0), id) == []
  {
  }

  lemma {:induction false} FloodIsAdmitted(cfg: Config, id: string, listed: bool, n: nat)
    requires !cfg.enabled || (cfg.enableWhitelist && listed)
    requires cfg.windowSize > 0
    ensures Unlimited(cfg, After(cfg, Flood(id, listed, n)), id)
    ensures InWindow(Admissions(cfg, Flood(id, listed, n), id), cfg.windowSize, 0) == n
  {
    if n == 0 {
      FloodStart(cfg, id, listed);
    } else {
      FloodIsAdmitted(cfg, id, listed, n - 1);
      FloodStep(cfg, Flood(id, listed, n - 1), Flood(id, listed, n), id);
      CountOfAppend(Admissions(cfg, Flood(id, listed, n - 1), id), 0, 0 - cfg.windowSize, 0);
    }
  }

  lemma {:induction false} EmptyWindow(history: seq<int>, window: int, t: int)
    requires window <= 0
    ensures InWindow(history, window, t) == 0
  {
    if history != [] {
      EmptyWindow(history[..|history| - 1], window, t);
    }
  }

  /** The promise for a client that is, or is not, whitelisted at some point. */
  ghost predicate Guaranteed(cfg: Config, id: string, listed: bool) {
    forall trace, t :: Clocked(trace) && EverWhitelisted(trace, id) == listed ==>
      InWindow(Admissions(cfg, trace, id), cfg.windowSize, t) <= Bound(cfg, listed)
  }

  /** MAIN RESULT. The window promise holds in every run exactly when windows are empty, or the engine
      is enabled and the bypass does not apply to the client. */
  lemma GuaranteedExactly(cfg: Config, id: string, listed: bool)
    ensures Guaranteed(cfg, id, listed) <==> cfg.windowSize <= 0 || (cfg.enabled && (cfg.enableWhitelist ==> !listed))
  {
    if cfg.windowSize <= 0 {
      forall trace, t | Clocked(trace) ensures InWindow(Admissions(cfg, trace, id), cfg.windowSize, t) == 0 {
        EmptyWindow(Admissions(cfg, trace, id), cfg.windowSize, t);
      }
    } else if cfg.enabled && (cfg.enableWhitelist ==> !listed) {
      forall trace, t | Clocked(trace) && EverWhitelisted(trace, id) == listed
        ensures InWindow(Admissions(cfg, trace, id), cfg.windowSize, t) <= Bound(cfg, listed)
      {
        EveryWindowIsWithinTheLimit(cfg, trace, id, t);
      }
    } else {
      var n := Bound(cfg, listed) + 1;
      FloodShape(id, listed, n);
      FloodIsAdmitted(cfg, id, listed, n);
      assert Clocked(Flood(id, listed, n)) &&
        InWindow(Admissions(cfg, Flood(id, listed, n), id), cfg.windowSize, 0) == n;
    }
  }

  // ---- all clients together

  /** The times at which the trace lets a request of any client through. */
  function AllAdmissions(cfg: Config, trace: seq<Timed>): seq<int> {
    if trace == [] then []
    else
      var before, e := trace[..|trace| - 1], trace[|trace| - 1];
      AllAdmissions(cfg, before) + if e.event.Request? && Step(cfg, After(cfg, before), e).1 then [e.at] else []
  }

  lemma UnrollAll(cfg: Config, before: seq<Timed>, e: Timed)
    ensures var (s, ok) := Step(cfg, After(cfg, before), e);
            && After(cfg, before + [e]) == s
            && AllAdmissions(cfg, before + [e]) ==
                 AllAdmissions(cfg, before) + if e.event.Request? && ok then [e.at] else []
  {
    assert (before + [e])[..|before|] == before;
  }

  /** Requests of n different clients at the same instant. */
  function Crowd(n: nat): seq<Timed> {
    if n == 0 then [] else Crowd(n - 1) + [Timed(0, Request(seq(n, i => '#'), 0.0))]
  }

  /** The breaker is closed, and only names up to the given length are known. */
  ghost predicate Crowded(s: State, n: nat) {
    s.breaker.state == CircuitClosed && forall id :: id in s.clients.Keys ==> |id| <= n
  }

  lemma NewcomerPasses(cfg: Config, s: State, n: nat, e: Timed)
    requires !cfg.enabled || cfg.perClientLimit > 0
    requires Crowded(s, n) && e == Timed(0, Request(seq(n + 1, i => '#'), 0.0))
    ensures Step(cfg, s, e).1 && Crowded(Step(cfg, s, e).0, n + 1)
  {
    assert e.event.client !in s.clients.Keys;
  }

  lemma CrowdGrows(cfg: Config, before: seq<Timed>, n: nat, e: Timed, trace: seq<Timed>)
    requires !cfg.enabled || cfg.perClientLimit > 0
    requires Crowded(After(cfg, before), n) && e == Timed(0, Request(seq(n + 1, i => '#'), 0.0)) &&
               trace == before + [e]
    ensures Crowded(After(cfg, trace), n + 1) && AllAdmissions(cfg, trace) == AllAdmissions(cfg, before) + [0]
  {
    NewcomerPasses(cfg, After(cfg, before), n, e);
    UnrollAll(cfg, before, e);
  }

  lemma {:induction false} CrowdIsAdmitted(cfg: Config, n: nat)
    requires !cfg.enabled || cfg.perClientLimit > 0
    requires cfg.windowSize > 0
    ensures Crowded(After(cfg, Crowd(n)), n)
    ensures InWindow(AllAdmissions(cfg, Crowd(n)), cfg.windowSize, 0) == n
  {
    if n > 0 {
      var before, e := Crowd(n - 1), Timed(0, Request(seq(n, i => '#'), 0.0));
      CrowdIsAdmitted(cfg, n - 1);
      CrowdGrows(cfg, before, n - 1, e, Crowd(n));
      CountOfAppend(AllAdmissions(cfg, before), 0, 0 - cfg.windowSize, 0);
    }
  }

  lemma {:induction false} CrowdIsAtOnce(n: nat)
    ensures forall i :: 0 <= i < |Crowd(n)| ==> Crowd(n)[i].at == 0
  {
    if n > 0 {
      CrowdIsAtOnce(n - 1);
    }
  }

  /** A flood of one client is admitted in total as it is for the client. */
  lemma {:induction false} FloodIsAll(cfg: Config, id: string, listed: bool, n: nat)
    ensures AllAdmissions(cfg, Flood(id, listed, n)) == Admissions(cfg, Flood(id, listed, n), id)
  {
    if n > 0 {
      FloodIsAll(cfg, id, listed, n - 1);
      UnrollAll(cfg, Flood(id, listed, n - 1), Timed(0, Request(id, 0.0)));
      Unroll(cfg, Flood(id, listed, n - 1), Timed(0, Request(id, 0.0)), id);
    }
  }

  lemma {:induction false} NothingWithoutLimit(cfg: Config, trace: seq<Timed>)
    requires cfg.enabled && cfg.perClientLimit <= 0 && !cfg.enableWhitelist
    ensures AllAdmissions(cfg, trace) == []
  {
    if trace != [] {
      var before, e := trace[..|trace| - 1], trace[|trace| - 1];
      NothingWithoutLimit(cfg, before);
      if e.event.Request? {
        LimitsStayInRange(cfg, before, e.event.client);
        DecideRecordsAdmission(cfg, RecordOf(cfg, After(cfg, before).clients, e.event.client), e.at, e.event.score);
      }
    }
  }

  /** All clients together never get more than so many requests through in a window, in any run. */
  ghost predicate TotalBounded(cfg: Config, bound: nat) {
    forall trace, t :: Clocked(trace) ==> InWindow(AllAdmissions(cfg, trace), cfg.windowSize, t) <= bound
  }

  /** MAIN RESULT. There is a bound on the total, however large, exactly when windows are empty, or
      the engine is enabled, its clients have no positive limit and the whitelist is off: the
      configured global limit plays no part. */
  lemma TotalBoundedExactly(cfg: Config)
    ensures (exists bound :: TotalBounded(cfg, bound))
            <==> cfg.windowSize <= 0 || (cfg.enabled && cfg.perClientLimit <= 0 && !cfg.enableWhitelist)
  {
    if cfg.windowSize <= 0 || (cfg.enabled && cfg.perClientLimit <= 0 && !cfg.enableWhitelist) {
      forall trace, t | Clocked(trace) ensures InWindow(AllAdmissions(cfg, trace), cfg.windowSize, t) <= 0 {
        if cfg.windowSize <= 0 {
          EmptyWindow(AllAdmissions(cfg, trace), cfg.windowSize, t);
        } else {
          NothingWithoutLimit(cfg, trace);
        }
      }
      assert TotalBounded(cfg, 0);
    } else {
      forall bound: nat ensures !TotalBounded(cfg, bound) {
        var trace := UnboundedTotal(cfg, bound + 1);
        assert InWindow(AllAdmissions(cfg, trace), cfg.windowSize, 0) == bound + 1;
      }
    }
  }

  lemma UnboundedTotal(cfg: Config, n: nat) returns (trace: seq<Timed>)
    requires cfg.windowSize > 0 && (!cfg.enabled || cfg.perClientLimit > 0 || cfg.enableWhitelist)
    ensures Clocked(trace) && InWindow(AllAdmissions(cfg, trace), cfg.windowSize, 0) == n
  {
    if !cfg.enabled || cfg.perClientLimit > 0 {
      trace := Crowd(n);
      CrowdIsAdmitted(cfg, n);
      CrowdIsAtOnce(n);
    } else {
      trace := Flood("", true, n);
      FloodShape("", true, n);
      FloodIsAdmitted(cfg, "", true, n);
      FloodIsAll(cfg, "", true, n);
    }
  }

  // ---- what an admission does to the limit

  /** An admission lowers the limit exactly when it finds room and trust to restore it, and what
      trust earns is less than the limit in force. */
  lemma AdmissionLowersExactly(cfg: Config, c: Client, now: int)
    requires 0.0 <= c.trustScore <= 1.0
    ensures var trust := if c.trustScore + 0.01 < 1.0 then c.trustScore + 0.01 else 1.0;
            Admit(cfg, c, now).currentLimit < c.currentLimit
            <==> && c.trustScore < 1.0 && 2 * (|c.requests| + 2) <= c.currentLimit
                 && Trunc(cfg.perClientLimit as real * (0.5 + 0.5 * trust)) < c.currentLimit
  {
  }

  /** So the first request of a new client lowers its limit, for every limit from four up. */
  lemma FirstAdmissionLowersExactly(cfg: Config, now: int, score: real)
    ensures var (c, ok) := Decide(cfg, NewClient(cfg), now, score);
            ok && c.currentLimit < cfg.perClientLimit <==> cfg.perClientLimit >= 4
  {
    var limit := cfg.perClientLimit as real * (0.5 + 0.5 * 0.51);
    assert cfg.perClientLimit >= 4 ==> limit == cfg.perClientLimit as real * 0.755 < cfg.perClientLimit as real;
  }
}
