/** Adaptive rate limiter: its circuit breaker as a history of responses, and what a request is
    answered in terms of the history before it. */
module RateLimitBreaker {
  import opened Arithmetic
  import opened SetFacts
  import opened TimeWindows
  import opened RateLimitModel
  import opened RateLimitRuns

  // ---- the breaker's state as a history

  /** The event is a successful response that finds the breaker half-open, and so closes it. */
  ghost predicate Recovers(cfg: Config, trace: seq<Timed>, k: nat)
    requires k < |trace|
  {
    trace[k].event == Response(false) && After(cfg, trace[..k]).breaker.state == CircuitHalfOpen
  }

  /** The failed responses since the breaker last recovered. */
  ghost function Failures(cfg: Config, trace: seq<Timed>): set<int> {
    set i | i in Interval(0, |trace|) && trace[i].event == Response(true) &&
            forall k :: i < k < |trace| ==> !Recovers(cfg, trace, k)
  }

  /** The position of the last failed response, or -1. */
  function LastFailed(trace: seq<Timed>): (i: int)
    ensures -1 <= i < |trace|
  {
    if trace == [] then -1
    else if trace[|trace| - 1].event == Response(true) then |trace| - 1
    else LastFailed(trace[..|trace| - 1])
  }

  /** A request of an enabled engine and a sweep look at an open breaker. */
  predicate Looks(cfg: Config, e: Timed) {
    e.event.Sweep? || (e.event.Request? && cfg.enabled)
  }

  /** Since the last failed response something looked after more than the timeout. */
  ghost predicate Probed(cfg: Config, trace: seq<Timed>) {
    exists j: nat :: LastFailed(trace) < j < |trace| && Looks(cfg, trace[j]) &&
                LastFailed(trace) >= 0 && trace[j].at - trace[LastFailed(trace)].at > cfg.breakerTimeout
  }

  ghost predicate Tripped(cfg: Config, trace: seq<Timed>) {
    |Failures(cfg, trace)| > 0 && |Failures(cfg, trace)| >= cfg.breakerThreshold
  }

  lemma FailuresNext(cfg: Config, before: seq<Timed>, e: Timed)
    ensures var trace, failed := before + [e], e.event == Response(true);
            Failures(cfg, trace) ==
            (if Recovers(cfg, trace, |before|) then {} else Failures(cfg, before)) +
            if failed then {|before| as int} else {}
    ensures |before| !in Failures(cfg, before)
  {
    var trace := before + [e];
    assert forall k: nat :: k < |before| ==> trace[..k] == before[..k];
    assert trace[..|before|] == before;
    forall i: int
      ensures i in Failures(cfg, trace) <==>
              || (i in Failures(cfg, before) && !Recovers(cfg, trace, |before|))
              || (i == |before| && e.event == Response(true))
    {
      if i in Failures(cfg, trace) && i != |before| {
        forall k | i < k < |before| ensures !Recovers(cfg, before, k) {
          assert !Recovers(cfg, trace, k);
        }
      }
      if i in Failures(cfg, before) && !Recovers(cfg, trace, |before|) {
        forall k | i < k < |trace| ensures !Recovers(cfg, trace, k) {
          assert k < |before| ==> !Recovers(cfg, before, k);
        }
      }
    }
  }

  lemma ProbedNext(cfg: Config, before: seq<Timed>, e: Timed)
    ensures var trace, last := before + [e], LastFailed(before);
            && LastFailed(trace) == (if e.event == Response(true) then |before| else last)
            && (Probed(cfg, trace) <==>
                  e.event != Response(true) &&
                  (Probed(cfg, before) || (last >= 0 && Looks(cfg, e) && e.at - before[last].at > cfg.breakerTimeout)))
  {
    var trace := before + [e];
    assert trace[..|before|] == before;
  }

  ghost predicate BreakerMatches(cfg: Config, trace: seq<Timed>, b: Breaker) {
    && b.state == (if !Tripped(cfg, trace) then CircuitClosed
                   else if Probed(cfg, trace) then CircuitHalfOpen else CircuitOpen)
    && b.failureCount == |Failures(cfg, trace)|
    && (Tripped(cfg, trace) ==> LastFailed(trace) >= 0)
    && (LastFailed(trace) >= 0 ==> b.lastFailure == trace[LastFailed(trace)].at)
  }

  /** What one event does to the breaker. */
  lemma BreakerMoves(cfg: Config, s: State, e: Timed, b': Breaker)
    requires cfg.breakerEnabled && b' == Step(cfg, s, e).0.breaker
    ensures var b := s.breaker;
            if e.event == Response(true) then
              && b'.failureCount == b.failureCount + 1 && b'.lastFailure == e.at
              && b'.state == (if b.state.CircuitHalfOpen? || b.failureCount + 1 >= cfg.breakerThreshold
                              then CircuitOpen else b.state)
            else if e.event == Response(false) && b.state.CircuitHalfOpen?
            then b' == Breaker(CircuitClosed, 0, b.lastFailure)
            else if Looks(cfg, e) && b.state.CircuitOpen? && e.at - b.lastFailure > cfg.breakerTimeout
            then b' == b.(state := CircuitHalfOpen)
            else b' == b
  {
  }

  lemma BreakerNext(cfg: Config, before: seq<Timed>, e: Timed, trace: seq<Timed>, b: Breaker, b': Breaker)
    requires cfg.breakerEnabled && trace == before + [e] && BreakerMatches(cfg, before, b)
    requires b == After(cfg, before).breaker && b' == After(cfg, trace).breaker
    ensures BreakerMatches(cfg, trace, b')
  {
    assert trace[..|before|] == before;
    FailuresNext(cfg, before, e);
    ProbedNext(cfg, before, e);
    BreakerMoves(cfg, After(cfg, before), e, b');
    assert |Failures(cfg, before) + {|before| as int}| == |Failures(cfg, before)| + 1;
  }

  /** MAIN RESULT. In every run the breaker is what the history of responses says: closed exactly
      while the failures since it last recovered are fewer than the threshold (and than one),
      otherwise half-open exactly when something has looked more than the timeout after the last
      failure; its count and time are those of these failures. */
  lemma {:induction false} BreakerIsHistory(cfg: Config, trace: seq<Timed>)
    requires cfg.breakerEnabled
    ensures BreakerMatches(cfg, trace, After(cfg, trace).breaker)
  {
    if trace == [] {
      assert Failures(cfg, trace) == {};
    } else {
      var before, e := trace[..|trace| - 1], trace[|trace| - 1];
      BreakerIsHistory(cfg, before);
      BreakerNext(cfg, before, e, trace, After(cfg, before).breaker, After(cfg, trace).breaker);
    }
  }

  lemma {:induction false} DisabledBreakerStaysClosed(cfg: Config, trace: seq<Timed>)
    requires !cfg.breakerEnabled
    ensures After(cfg, trace).breaker.state == CircuitClosed
  {
    if trace != [] {
      DisabledBreakerStaysClosed(cfg, trace[..|trace| - 1]);
    }
  }

  // ---- what the breaker does to requests

  /** The failures of the history hold requests off at that time. */
  ghost predicate HoldsOff(cfg: Config, trace: seq<Timed>, now: int) {
    && cfg.breakerEnabled && Tripped(cfg, trace) && !Probed(cfg, trace)
    && LastFailed(trace) >= 0 && now - trace[LastFailed(trace)].at <= cfg.breakerTimeout
  }

  /** MAIN RESULT. While the history holds requests off, every request is refused without a trace
      and a sweep leaves the breaker open; as soon as it does not, either finds it half-open or closed. */
  lemma OpenBreakerRefuses(cfg: Config, trace: seq<Timed>, now: int, id: string, score: real)
    requires cfg.enabled
    ensures var s := After(cfg, trace);
            var (s', ok) := Step(cfg, s, Timed(now, Request(id, score)));
            && (HoldsOff(cfg, trace, now) ==> !ok && s' == s && s.breaker.state == CircuitOpen)
            && (!HoldsOff(cfg, trace, now) ==> s'.breaker.state != CircuitOpen)
    ensures Step(cfg, After(cfg, trace), Timed(now, Sweep)).0.breaker.state == CircuitOpen <==>
              HoldsOff(cfg, trace, now)
  {
    if cfg.breakerEnabled {
      BreakerIsHistory(cfg, trace);
    } else {
      DisabledBreakerStaysClosed(cfg, trace);
    }
  }

  // ---- the answer to a request

  lemma {:induction false} AdmittedEarlier(cfg: Config, trace: seq<Timed>, id: string, now: int, t: int)
    requires Clocked(trace) && (trace != [] ==> trace[|trace| - 1].at <= now) && t in Admissions(cfg, trace, id)
    ensures t <= now
  {
    if trace != [] {
      var before, e := trace[..|trace| - 1], trace[|trace| - 1];
      if t in Admissions(cfg, before, id) {
        AdmittedEarlier(cfg, before, id, now, t);
      }
    }
  }

  lemma {:induction false} WindowIsFilter(times: seq<int>, window: int, now: int)
    requires forall i :: 0 <= i < |times| ==> times[i] <= now
    ensures InWindow(times, window, now) == |FilterAfter(times, now - window)|
  {
    if times != [] {
      WindowIsFilter(times[..|times| - 1], window, now);
    }
  }

  /** Measured against its limit, the request has room, and no anomaly stops it. */
  predicate HasRoom(cfg: Config, used: nat, limit: int, score: real) {
    used < limit && !(cfg.anomalyDetection && score > 0.8 && used > limit / 2)
  }

  lemma PassesGate(cfg: Config, trace: seq<Timed>, now: int)
    ensures Gate(cfg, After(cfg, trace).breaker, now).1 <==> !HoldsOff(cfg, trace, now)
  {
    if cfg.breakerEnabled {
      BreakerIsHistory(cfg, trace);
    } else {
      DisabledBreakerStaysClosed(cfg, trace);
    }
  }

  lemma VerdictIsMeasured(cfg: Config, s: State, e: Timed, id: string, held: bool, used: nat)
    requires cfg.enabled && e.event.Request? && e.event.client == id && (Gate(cfg, s.breaker, e.at).1 <==> !held)
    requires cfg.enableWhitelist && id in s.clients ==> !s.clients[id].whitelisted
    requires used == |FilterAfter(Stored(s, id), e.at - cfg.windowSize)|
    ensures Step(cfg, s, e).1 <==> !held && HasRoom(cfg, used, LimitOf(cfg, s, id), e.event.score)
  {
  }

  lemma UsedIsMeasured(cfg: Config, trace: seq<Timed>, now: int, id: string)
    requires cfg.enabled && Clocked(trace) && (trace != [] ==> trace[|trace| - 1].at <= now)
    requires cfg.enableWhitelist ==> !EverWhitelisted(trace, id)
    ensures InWindow(Admissions(cfg, trace, id), cfg.windowSize, now) ==
            |FilterAfter(Stored(After(cfg, trace), id), now - cfg.windowSize)|
  {
    var history := Admissions(cfg, trace, id);
    StoredListIsTheHistoryInWindow(cfg, trace, id, now);
    forall i | 0 <= i < |history| ensures history[i] <= now {
      AdmittedEarlier(cfg, trace, id, now, history[i]);
    }
    WindowIsFilter(history, cfg.windowSize, now);
  }

  lemma NotListed(cfg: Config, trace: seq<Timed>, id: string)
    requires !EverWhitelisted(trace, id) && id in After(cfg, trace).clients
    ensures !After(cfg, trace).clients[id].whitelisted
  {
    LimitsStayInRange(cfg, trace, id);
  }

  /** MAIN RESULT. In every run of an enabled engine, outside the bypass, a request is admitted exactly
      when the failures do not hold it off and the client's admissions in the window that ends now
      leave room under its limit, more than half of it if its score is anomalous. */
  lemma AdmittedExactly(cfg: Config, trace: seq<Timed>, now: int, id: string, score: real)
    requires cfg.enabled && Clocked(trace) && (trace != [] ==> trace[|trace| - 1].at <= now)
    requires cfg.enableWhitelist ==> !EverWhitelisted(trace, id)
    ensures var s, used := After(cfg, trace), InWindow(Admissions(cfg, trace, id), cfg.windowSize, now);
            Step(cfg, s, Timed(now, Request(id, score))).1 <==>
              !HoldsOff(cfg, trace, now) && HasRoom(cfg, used, LimitOf(cfg, s, id), score)
  {
    var s, used := After(cfg, trace), InWindow(Admissions(cfg, trace, id), cfg.windowSize, now);
    UsedIsMeasured(cfg, trace, now, id);
    if cfg.enableWhitelist && id in s.clients {
      NotListed(cfg, trace, id);
    }
    PassesGate(cfg, trace, now);
    VerdictIsMeasured(cfg, s, Timed(now, Request(id, score)), id, HoldsOff(cfg, trace, now), used);
  }

  /** With the bypass, a whitelisted client is held off by the breaker alone. */
  lemma BypassAdmitsExactly(cfg: Config, trace: seq<Timed>, now: int, id: string, score: real)
    requires cfg.enabled && cfg.enableWhitelist && id in After(cfg, trace).clients &&
               After(cfg, trace).clients[id].whitelisted
    ensures Step(cfg, After(cfg, trace), Timed(now, Request(id, score))).1 <==> !HoldsOff(cfg, trace, now)
  {
    OpenBreakerRefuses(cfg, trace, now, id, score);
  }

  // ---- what a request does to its client

  /** The record a request is measured against and the one it leaves, whatever the breaker says. */
  datatype Standing = Standing(limit: int, trust: real)

  function StandingOf(cfg: Config, s: State, id: string): Standing {
    if id in s.clients then Standing(s.clients[id].currentLimit, s.clients[id].trustScore)
    else Standing(cfg.perClientLimit, 0.5)
  }

  /** The limit that a share of the configured one comes to. */
  function Share(cfg: Config, part: real): int {
    Trunc(cfg.perClientLimit as real * part)
  }

  /** What a request costs or earns its client when so many are used already. */
  ghost predicate Moves(cfg: Config, was: Standing, used: nat, score: real, now: Standing) {
    if used >= was.limit then
      && now.trust == (if was.trust >= 0.1 then was.trust - 0.1 else 0.0)
      && now.limit == (if cfg.adaptiveThrottling && now.trust < 0.5 then Share(cfg, now.trust) else was.limit)
    else if !HasRoom(cfg, used, was.limit, score) then
      now == was.(limit := Trunc(was.limit as real * 0.5))
    else if used + 1 < was.limit / 2 && was.trust < 1.0 then
      && now.trust == (if was.trust <= 0.99 then was.trust + 0.01 else 1.0)
      && now.limit == Share(cfg, 0.5 + 0.5 * now.trust)
    else now == was
  }

  function RecordStanding(c: Client): Standing {
    Standing(c.currentLimit, c.trustScore)
  }

  lemma RefusalMoves(cfg: Config, c: Client, now: int, score: real)
    requires |c.requests| >= c.currentLimit
    ensures Moves(cfg, RecordStanding(c), |c.requests|, score, RecordStanding(Block(cfg, c, now)))
  {
  }

  lemma AdmissionMoves(cfg: Config, c: Client, now: int, score: real)
    requires HasRoom(cfg, |c.requests|, c.currentLimit, score)
    ensures Moves(cfg, RecordStanding(c), |c.requests|, score, RecordStanding(Admit(cfg, c, now)))
  {
  }

  lemma DecisionMoves(cfg: Config, c: Client, now: int, score: real, used: nat)
    requires used == |FilterAfter(c.requests, now - cfg.windowSize)|
    ensures Moves(cfg, RecordStanding(c), used, score, RecordStanding(Decide(cfg, c, now, score).0))
  {
    var kept := c.(requests := FilterAfter(c.requests, now - cfg.windowSize));
    if used >= c.currentLimit {
      RefusalMoves(cfg, kept, now, score);
    } else if HasRoom(cfg, used, c.currentLimit, score) {
      AdmissionMoves(cfg, kept, now, score);
      AdmissionMoves(cfg, kept.(anomalyScore := score), now, score);
    }
  }

  lemma RequestDecides(cfg: Config, s: State, now: int, id: string, score: real)
    requires cfg.enabled && Gate(cfg, s.breaker, now).1
    requires cfg.enableWhitelist && id in s.clients ==> !s.clients[id].whitelisted
    ensures var s' := Step(cfg, s, Timed(now, Request(id, score))).0;
            && s'.clients == s.clients[id := Decide(cfg, RecordOf(cfg, s.clients, id), now, score).0]
            && Stored(s, id) == RecordOf(cfg, s.clients, id).requests
            && StandingOf(cfg, s, id) == RecordStanding(RecordOf(cfg, s.clients, id))
  {
  }

  /** MAIN RESULT. In every run, what a request that is not held off does to its client's limit and
      trust: refused for want of room it costs a tenth of trust, and under adaptive throttling the
      limit becomes the share that less than half trust is worth; refused as an anomaly it costs half
      the limit; admitted into less than half the limit it earns a hundredth of trust and a share
      between half and all; otherwise nothing changes. Other clients keep their records. */
  lemma StandingMoves(cfg: Config, trace: seq<Timed>, now: int, id: string, score: real)
    requires cfg.enabled && Clocked(trace) && (trace != [] ==> trace[|trace| - 1].at <= now)
    requires (cfg.enableWhitelist ==> !EverWhitelisted(trace, id)) && !HoldsOff(cfg, trace, now)
    ensures var s, used := After(cfg, trace), InWindow(Admissions(cfg, trace, id), cfg.windowSize, now);
            var s' := Step(cfg, s, Timed(now, Request(id, score))).0;
            && Moves(cfg, StandingOf(cfg, s, id), used, score, StandingOf(cfg, s', id))
            && s'.clients - {id} == s.clients - {id}
  {
    var s := After(cfg, trace);
    UsedIsMeasured(cfg, trace, now, id);
    if cfg.enableWhitelist && id in s.clients {
      NotListed(cfg, trace, id);
    }
    PassesGate(cfg, trace, now);
    RequestDecides(cfg, s, now, id, score);
    DecisionMoves(cfg, RecordOf(cfg, s.clients, id), now, score,
                  InWindow(Admissions(cfg, trace, id), cfg.windowSize, now));
  }
}
