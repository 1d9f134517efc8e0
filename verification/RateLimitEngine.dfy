/** Adaptive rate limiter: the engine itself, updating its records in place. Each method does
    to the abstract state what `RateLimitModel` says the event does. */
module RateLimitEngine {
  import opened Arithmetic
  import opened Options
  import opened TimeWindows
  import opened RateLimitModel

  method FilterRequestsAfter(requests: seq<int>, cutoff: int) returns (result: seq<int>)
    ensures result == FilterAfter(requests, cutoff)
  {
    result := [];
    for i := 0 to |requests|
      invariant result == FilterAfter(requests[..i], cutoff)
    {
      assert requests[..i + 1][..i] == requests[..i];
      if requests[i] > cutoff {
        result := result + [requests[i]];
      }
    }
    assert requests[..|requests|] == requests;
  }

  class AnomalyDetector {
    const windowDuration: int := 5 * MINUTE
    var history: seq<int>

    constructor ()
      ensures history == [] && windowDuration == 300_000_000_000
    {
      history := [];
    }

    /** Drops old points from the front. It equals filtering because points arrive in time order. */
    method PruneHistory(now: int)
      modifies this
      ensures exists n :: 0 <= n <= |old(history)| && history == old(history)[n..]
      ensures Nondecreasing(old(history)) ==> history == FilterAfter(old(history), now - windowDuration)
    {
      var cutoff := now - windowDuration;
      var i := 0;
      while i < |history|
        invariant 0 <= i <= |history| && history == old(history)
        invariant forall j :: 0 <= j < i ==> history[j] <= cutoff
      {
        if history[i] > cutoff {
          break;
        }
        i := i + 1;
      }
      if Nondecreasing(history) {
        DropIsFilter(history, i, cutoff);
      }
      if i > 0 {
        history := history[i..];
      }
      assert history == old(history)[i..];
    }
  }

  class RateLimitCircuitBreaker {
    var state: CircuitState
    var failureCount: int
    var lastFailure: int

    constructor ()
      ensures View() == Breaker(CircuitClosed, 0, 0)
    {
      state, failureCount, lastFailure := CircuitClosed, 0, 0;
    }

    ghost function View(): Breaker
      reads this
    {
      Breaker(state, failureCount, lastFailure)
    }
  }

  class ClientState {
    var requests: seq<int>
    var totalRequests: int
    var blockedCount: int
    var lastBlocked: Option<int>
    var currentLimit: int
    var trustScore: real
    var isWhitelisted: bool
    var anomalyScore: real
    var burstAllowance: int

    constructor (limit: int, trust: real, whitelisted: bool, burst: int)
      ensures View() == Client([], 0, 0, None, limit, trust, whitelisted, 0.0, burst)
    {
      requests, totalRequests, blockedCount, lastBlocked := [], 0, 0, None;
      currentLimit, trustScore, isWhitelisted := limit, trust, whitelisted;
      anomalyScore, burstAllowance := 0.0, burst;
    }

    ghost function View(): Client
      reads this
    {
      Client(requests, totalRequests, blockedCount, lastBlocked, currentLimit, trustScore,
             isWhitelisted, anomalyScore, burstAllowance)
    }

    method Block(cfg: Config, now: int)
      modifies this
      ensures View() == RateLimitModel.Block(cfg, old(View()), now)
      ensures blockedCount == old(blockedCount) + 1 && lastBlocked == Some(now)
      ensures requests == old(requests) && totalRequests == old(totalRequests)
      ensures trustScore == if old(trustScore) >= 0.1 then old(trustScore) - 0.1 else 0.0
      ensures currentLimit == if cfg.adaptiveThrottling && trustScore < 0.5
                              then Trunc(cfg.perClientLimit as real * trustScore) else old(currentLimit)
    {
      blockedCount := blockedCount + 1;
      lastBlocked := Some(now);
      trustScore := if trustScore - 0.1 > 0.0 then trustScore - 0.1 else 0.0;
      if cfg.adaptiveThrottling && trustScore < 0.5 {
        currentLimit := Trunc(cfg.perClientLimit as real * trustScore);
      }
    }

    method Admit(cfg: Config, now: int)
      modifies this
      ensures View() == RateLimitModel.Admit(cfg, old(View()), now)
      ensures requests == old(requests) + [now] && totalRequests == old(totalRequests) + 1
      ensures blockedCount == old(blockedCount) && lastBlocked == old(lastBlocked)
      ensures var restored := old(trustScore) < 1.0 && 2 * (|old(requests)| + 2) <= old(currentLimit);
              && trustScore == (if !restored then old(trustScore)
                                else if old(trustScore) <= 0.99 then old(trustScore) + 0.01 else 1.0)
              && currentLimit == (if !restored then old(currentLimit)
                                  else Trunc(cfg.perClientLimit as real * (0.5 + 0.5 * trustScore)))
    {
      requests := requests + [now];
      totalRequests := totalRequests + 1;
      if trustScore < 1.0 && |requests| < currentLimit / 2 {
        trustScore := if trustScore + 0.01 < 1.0 then trustScore + 0.01 else 1.0;
        currentLimit := Trunc(cfg.perClientLimit as real * (0.5 + 0.5 * trustScore));
      }
    }

    /** The sweep's test: good clients are kept longer, others go once nothing is stored and
        their last refusal is old. */
    method Inactive(now: int) returns (drop: bool)
      ensures drop == Stale(View(), now)
      ensures drop <==> && requests == [] && (lastBlocked.None? || now - lastBlocked.value > 10 * MINUTE)
                        && !(totalRequests > 0 && trustScore > 0.8 &&
                             (lastBlocked.None? || now - lastBlocked.value > 30 * MINUTE))
    {
      var quiet := lastBlocked.None? || lastBlocked.value < now - 30 * MINUTE;
      if quiet && totalRequests > 0 && trustScore > 0.8 {
        return false;
      }
      return requests == [] && (lastBlocked.None? || now - lastBlocked.value > 10 * MINUTE);
    }

    method Decide(cfg: Config, now: int, score: real) returns (admitted: bool)
      modifies this
      ensures (View(), admitted) == RateLimitModel.Decide(cfg, old(View()), now, score)
    {
      requests := FilterRequestsAfter(requests, now - cfg.windowSize);
      if |requests| >= currentLimit {
        Block(cfg, now);
        return false;
      }
      if cfg.anomalyDetection {
        anomalyScore := score;
        if score > 0.8 && |requests| > currentLimit / 2 {
          currentLimit := Trunc(currentLimit as real * 0.5);
          return false;
        }
      }
      Admit(cfg, now);
      return true;
    }
  }

  class RateLimitIntelligenceEngine {
    const config: Config
    var clients: map<string, ClientState>
    const breaker: RateLimitCircuitBreaker
    const detector: AnomalyDetector

    /** No two clients share a record. */
    ghost predicate Valid()
      reads this
    {
      forall a, b :: a in clients && b in clients && a != b ==> clients[a] != clients[b]
    }

    ghost function Records(): map<string, Client>
      reads this, clients.Values
    {
      map id | id in clients :: clients[id].View()
    }

    ghost function View(): State
      reads this, clients.Values, breaker
    {
      State(Records(), breaker.View())
    }

    constructor (cfg: Config)
      ensures Valid() && config == cfg && View() == INITIAL && detector.history == []
      ensures fresh(breaker) && fresh(detector)
    {
      config, clients := cfg, map[];
      breaker := new RateLimitCircuitBreaker();
      detector := new AnomalyDetector();
    }

    /** Makes sure the client has a record, a fresh one if it is new. */
    method Track(clientID: string)
      requires Valid()
      modifies this`clients
      ensures Valid() && clientID in clients
      ensures fresh(clients.Values - old(clients).Values)
      ensures Records() == old(Records())[clientID := RecordOf(config, old(Records()), clientID)]
      ensures clientID in old(clients) ==> clients == old(clients)
      ensures clientID !in old(clients) ==>
                clients[clientID].View() == Client([], 0, 0, None, config.perClientLimit, 0.5, false, 0.0, 10)
    {
      if clientID !in clients {
        var state := new ClientState(config.perClientLimit, 0.5, false, 10);
        clients := clients[clientID := state];
      }
    }

    /** The breaker test at the head of a request. */
    method PassBreaker(now: int) returns (pass: bool)
      modifies breaker
      ensures (breaker.View(), pass) == Gate(config, old(breaker.View()), now)
      ensures pass <==> old(breaker.state) != CircuitOpen || now - old(breaker.lastFailure) > config.breakerTimeout
      ensures breaker.state == if pass && old(breaker.state) == CircuitOpen then CircuitHalfOpen else old(breaker.state)
    {
      if breaker.state == CircuitOpen {
        if now - breaker.lastFailure > config.breakerTimeout {
          breaker.state := CircuitHalfOpen;
        } else {
          return false;
        }
      }
      return true;
    }

    method DecideFor(clientID: string, now: int, score: real) returns (admitted: bool)
      requires Valid() && clientID in clients
      modifies clients[clientID]
      ensures var decision := RateLimitModel.Decide(config, old(Records())[clientID], now, score);
              Records() == old(Records())[clientID := decision.0] && admitted == decision.1
    {
      ghost var before := Records();
      var state := clients[clientID];
      admitted := state.Decide(config, now, score);
      assert Records() == before[clientID := state.View()];
    }

    /** Measures the request against the client's own limit. */
    method Limit(clientID: string, now: int, score: real) returns (admitted: bool)
      requires Valid()
      modifies this`clients, clients.Values
      ensures Valid()
      ensures var decision := RateLimitModel.Decide(config, RecordOf(config, old(Records()), clientID), now, score);
              Records() == old(Records())[clientID := decision.0] && admitted == decision.1
    {
      ghost var before := Records();
      Track(clientID);
      admitted := DecideFor(clientID, now, score);
    }

    method Process(clientID: string, now: int, score: real) returns (admitted: bool)
      requires Valid()
      modifies this`clients, clients.Values, breaker
      ensures Valid()
      ensures (View(), admitted) == OnRequest(config, old(View()), now, clientID, score)
    {
      if !config.enabled {
        return true;
      }
      ghost var before := Records();
      var pass := PassBreaker(now);
      assert Records() == before;
      if !pass {
        return false;
      }
      if config.enableWhitelist && clientID in clients && clients[clientID].isWhitelisted {
        return true;
      }
      admitted := Limit(clientID, now, score);
    }

    method RecordOutcome(now: int, failed: bool)
      modifies breaker
      ensures config.breakerEnabled ==> breaker.View() == OnResponse(config, old(breaker.View()), now, failed)
    {
      if !failed {
        if breaker.state == CircuitHalfOpen {
          breaker.state := CircuitClosed;
          breaker.failureCount := 0;
        }
      } else {
        breaker.failureCount := breaker.failureCount + 1;
        breaker.lastFailure := now;
        if breaker.state == CircuitHalfOpen || breaker.failureCount >= config.breakerThreshold {
          breaker.state := CircuitOpen;
        }
      }
    }

    method ProcessResponse(now: int, failed: bool)
      requires Valid()
      modifies breaker, detector
      ensures Valid() && View() == Step(config, old(View()), Timed(now, Response(failed))).0
      ensures !config.breakerEnabled ==> detector.history == old(detector.history)
      ensures config.breakerEnabled && Nondecreasing(old(detector.history) + [now]) ==>
                detector.history == FilterAfter(old(detector.history) + [now], now - detector.windowDuration)
    {
      ghost var before := Records();
      if !config.breakerEnabled {
        return;
      }
      RecordOutcome(now, failed);
      detector.history := detector.history + [now];
      detector.PruneHistory(now);
      assert Records() == before;
    }

    method SweepClients(now: int)
      requires Valid()
      modifies this`clients
      ensures Valid()
      ensures Records() == map id | id in old(Records()) && !Stale(old(Records())[id], now) :: old(Records())[id]
    {
      var rest := clients.Keys;
      ghost var all, before := clients, Records();
      while rest != {}
        invariant rest <= all.Keys
        invariant forall id :: id in clients <==> id in before && (id in rest || !Stale(before[id], now))
        invariant forall id :: id in clients ==> clients[id] == all[id]
        decreases rest
      {
        var id :| id in rest;
        rest := rest - {id};
        var drop := clients[id].Inactive(now);
        if drop {
          clients := clients - {id};
        }
      }
    }

    method MonitorTick(now: int)
      requires Valid()
      modifies this`clients, breaker
      ensures Valid() && View() == OnSweep(config, old(View()), now)
      ensures breaker.state == if old(breaker.state) == CircuitOpen &&
                                  now - old(breaker.lastFailure) > config.breakerTimeout
                               then CircuitHalfOpen else old(breaker.state)
    {
      SweepClients(now);
      ghost var records := Records();
      if breaker.state == CircuitOpen && now - breaker.lastFailure > config.breakerTimeout {
        breaker.state := CircuitHalfOpen;
      }
      assert Records() == records;
    }

    method AddToWhitelist(clientID: string)
      requires Valid()
      modifies this, clients.Values
      ensures Valid() && View() == OnWhitelist(config, old(View()), clientID)
      ensures clientID in clients && clients[clientID].isWhitelisted && clients[clientID].trustScore == 1.0
      ensures clients[clientID].currentLimit ==
              if clientID in old(clients) then old(Records())[clientID].currentLimit else 10 * config.perClientLimit
      ensures clientID !in old(clients) ==>
                clients[clientID].View() == Client([], 0, 0, None, 10 * config.perClientLimit, 1.0, true, 0.0, 0)
    {
      ghost var before := Records();
      if clientID in clients {
        clients[clientID].isWhitelisted := true;
        clients[clientID].trustScore := 1.0;
      } else {
        var state := new ClientState(config.perClientLimit * 10, 1.0, true, 0);
        clients := clients[clientID := state];
      }
      assert Records() == before[clientID := clients[clientID].View()];
    }
  }
}
