/** Adaptive rate limiter: the transition it performs per event, as values.
    Time is an integer number of nanoseconds; a Go zero `time.Time` is `None`. */
module RateLimitModel {
  import opened Arithmetic
  import opened Options
  import opened TimeWindows

  const SECOND: int := 1_000_000_000
  const MINUTE: int := 60 * SECOND

  datatype Config = Config(
    enabled: bool,
    perClientLimit: int,
    windowSize: int,
    anomalyDetection: bool,
    breakerEnabled: bool,
    breakerThreshold: int,
    breakerTimeout: int,
    adaptiveThrottling: bool,
    enableWhitelist: bool)

  datatype Client = Client(
    requests: seq<int>,
    totalRequests: int,
    blockedCount: int,
    lastBlocked: Option<int>,
    currentLimit: int,
    trustScore: real,
    whitelisted: bool,
    anomalyScore: real,
    burstAllowance: int)

  datatype CircuitState = CircuitClosed | CircuitOpen | CircuitHalfOpen

  datatype Breaker = Breaker(state: CircuitState, failureCount: int, lastFailure: int)

  datatype State = State(clients: map<string, Client>, breaker: Breaker)

  datatype Event =
    | Request(client: string, score: real)
    | Response(failed: bool)
    | Sweep
    | Whitelist(client: string)

  datatype Timed = Timed(at: int, event: Event)

  function NewClient(cfg: Config): Client {
    Client([], 0, 0, None, cfg.perClientLimit, 0.5, false, 0.0, 10)
  }

  function TimedOut(cfg: Config, b: Breaker, now: int): bool {
    now - b.lastFailure > cfg.breakerTimeout
  }

  /** The breaker test at the head of a request: the new breaker, and whether the request may go on. */
  function Gate(cfg: Config, b: Breaker, now: int): (Breaker, bool) {
    if b.state != CircuitOpen then (b, true)
    else if TimedOut(cfg, b, now) then (b.(state := CircuitHalfOpen), true)
    else (b, false)
  }

  function Block(cfg: Config, c: Client, now: int): Client {
    var trust := if c.trustScore - 0.1 > 0.0 then c.trustScore - 0.1 else 0.0;
    c.(blockedCount := c.blockedCount + 1,
       lastBlocked := Some(now),
       trustScore := trust,
       currentLimit := if cfg.adaptiveThrottling && trust < 0.5
                       then Trunc(cfg.perClientLimit as real * trust)
                       else c.currentLimit)
  }

  function Admit(cfg: Config, c: Client, now: int): Client {
    var kept := c.(requests := c.requests + [now], totalRequests := c.totalRequests + 1);
    if c.trustScore < 1.0 && |kept.requests| < c.currentLimit / 2 then
      var trust := if c.trustScore + 0.01 < 1.0 then c.trustScore + 0.01 else 1.0;
      kept.(trustScore := trust,
            currentLimit := Trunc(cfg.perClientLimit as real * (0.5 + 0.5 * trust)))
    else kept
  }

  /** What one request does to the record of its client, and whether it is admitted. */
  function Decide(cfg: Config, record: Client, now: int, score: real): (Client, bool) {
    var c := record.(requests := FilterAfter(record.requests, now - cfg.windowSize));
    if |c.requests| >= c.currentLimit then (Block(cfg, c, now), false)
    else if cfg.anomalyDetection then
      var scored := c.(anomalyScore := score);
      if score > 0.8 && |c.requests| > c.currentLimit / 2
      then (scored.(currentLimit := Trunc(c.currentLimit as real * 0.5)), false)
      else (Admit(cfg, scored, now), true)
    else (Admit(cfg, c, now), true)
  }

  function RecordOf(cfg: Config, clients: map<string, Client>, id: string): Client {
    if id in clients then clients[id] else NewClient(cfg)
  }

  function OnRequest(cfg: Config, s: State, now: int, id: string, score: real): (State, bool) {
    if !cfg.enabled then (s, true)
    else
      var (breaker, pass) := Gate(cfg, s.breaker, now);
      if !pass then (s, false)
      else if cfg.enableWhitelist && id in s.clients && s.clients[id].whitelisted then (s.(breaker := breaker), true)
      else
        var (client, admitted) := Decide(cfg, RecordOf(cfg, s.clients, id), now, score);
        (State(s.clients[id := client], breaker), admitted)
  }

  function OnResponse(cfg: Config, b: Breaker, now: int, failed: bool): Breaker {
    if !cfg.breakerEnabled then b
    else if !failed then
      if b.state == CircuitHalfOpen then b.(state := CircuitClosed, failureCount := 0) else b
    else
      Breaker(if b.state == CircuitHalfOpen || b.failureCount + 1 >= cfg.breakerThreshold then CircuitOpen else b.state,
              b.failureCount + 1, now)
  }

  /** Whether the periodic sweep drops a client record. */
  predicate Stale(c: Client, now: int) {
    && !((c.lastBlocked.None? || c.lastBlocked.value < now - 30 * MINUTE) && c.totalRequests > 0 && c.trustScore > 0.8)
    && c.requests == []
    && (c.lastBlocked.None? || now - c.lastBlocked.value > 10 * MINUTE)
  }

  function OnSweep(cfg: Config, s: State, now: int): State {
    State(map id | id in s.clients && !Stale(s.clients[id], now) :: s.clients[id],
          if s.breaker.state == CircuitOpen && TimedOut(cfg, s.breaker, now)
          then s.breaker.(state := CircuitHalfOpen) else s.breaker)
  }

  function OnWhitelist(cfg: Config, s: State, id: string): State {
    var c := if id in s.clients then s.clients[id].(whitelisted := true, trustScore := 1.0)
             else Client([], 0, 0, None, cfg.perClientLimit * 10, 1.0, true, 0.0, 0);
    s.(clients := s.clients[id := c])
  }

  /** One event: the next state, and whether the event is a request that was let through. */
  function Step(cfg: Config, s: State, e: Timed): (State, bool) {
    match e.event
    case Request(id, score) => OnRequest(cfg, s, e.at, id, score)
    case Response(failed) => (s.(breaker := OnResponse(cfg, s.breaker, e.at, failed)), false)
    case Sweep => (OnSweep(cfg, s, e.at), false)
    case Whitelist(id) => (OnWhitelist(cfg, s, id), false)
  }

  const INITIAL: State := State(map[], Breaker(CircuitClosed, 0, 0))

  /** The state after a whole trace of events from a fresh engine. */
  function After(cfg: Config, trace: seq<Timed>): State {
    if trace == [] then INITIAL
    else Step(cfg, After(cfg, trace[..|trace| - 1]), trace[|trace| - 1]).0
  }

  /** The times at which the trace lets a request of the client through. */
  function Admissions(cfg: Config, trace: seq<Timed>, id: string): seq<int> {
    if trace == [] then []
    else
      var before, e := trace[..|trace| - 1], trace[|trace| - 1];
      Admissions(cfg, before, id) +
      if e.event.Request? && e.event.client == id && Step(cfg, After(cfg, before), e).1 then [e.at] else []
  }

  /** The clock never runs backwards along a trace. */
  ghost predicate Clocked(trace: seq<Timed>) {
    forall i, j :: 0 <= i < j < |trace| ==> trace[i].at <= trace[j].at
  }

  ghost predicate EverWhitelisted(trace: seq<Timed>, id: string) {
    exists i :: 0 <= i < |trace| && trace[i].event == Whitelist(id)
  }
}
