# Verification model of the database proxy's stateful engines

The proxy (Go) is assembled from small stateful engines. This project models the ones that carry
real invariants and proves, in Dafny 4.11, what they keep over whole runs. `dafny verify dfyconfig.toml`
checks everything.

Each component comes in two layers.

- A **model module** gives every event or call as a function, or as a relation where Go leaves the
  outcome open (map iteration order, ties), on plain values, and proves properties of all runs.
- An **engine module** has the objects the source updates in place (records behind pointers, queues,
  channels) as classes. Each method is proved to take the abstract value of the object to the one
  that the model's function or relation gives, so the run properties hold of the imperative code.

| component | modules |
|---|---|
| adaptive rate limiter | `TimeWindows`, `RateLimitModel`, `RateLimitRuns`, `RateLimitBreaker`, `RateLimitLockout`, `RateLimitEngine` |
| WebSocket hub | `HubProtocol`, `HubHistory`, `HubEngine` |
| data lineage graph and cascade search | `Graphs`, `LineageModel`, `CascadeDepth`, `CascadeChains`, `LineageEngine` |
| circuit breaker, retry loop | `CircuitBreakers`, `ErrorPatterns`, `Geometric`, `RetryPolicies` |
| priority queues | `PriorityModel`, `PriorityEngine` |
| failover | `FailoverModel`, `FailoverEngine` |
| query cache | `CacheModel`, `CacheEngine` |
| load balancer | `NodeSearch`, `LoadBalancerModel`, `LoadBalancerEngine` |
| role-based access control | `Cycles`, `RbacModel`, `Rbac` |
| sharding | `ShardingModel`, `ShardingEngine` |
| query versioning | `Versioning` |

`Options`, `Arithmetic` and `SetFacts` hold shared definitions and facts.

Conventions: one method call, one sweep, or one channel operation is one atomic step; every step gets
the clock as an argument, an arbitrary integer that does not decrease along a run. `float64` is `real`,
and Go's conversion to an integer and its integer division truncate toward zero (`Arithmetic.Trunc`,
`Arithmetic.TruncDiv`). A zero `time.Time` or nil is `None`. Integers are unbounded.

## What the proofs show about the code

Besides the promises that hold, some plausible ones do not, and the model states exactly when they do.

- Rate limiter: the window limit holds in every run exactly when the engine is enabled and the whitelist
  bypass does not apply (`GuaranteedExactly`). When a request is admitted, what it does to its client's trust
  and limit, and what the breaker is, are stated by the history (`AdmittedExactly`, `StandingMoves`,
  `BreakerIsHistory`). A client whose dynamic limit is gone is refused for as long as its record survives,
  and only such a client is (`LockedOutExactly`); refusals bring a client there exactly under adaptive
  throttling or without a positive limit to begin with (`LockoutReachableExactly`), and each of them protects
  the record for ten minutes (`RefusalKeepsRecord`); the sweep never drops any other client without the
  whitelist (`SweepDropsExactly`). An admission that restores the limit may lower it
  (`AdmissionLowersExactly`, `FirstAdmissionLowersExactly`). `GlobalLimit` is configured but never used: all
  clients together are bounded in all runs exactly when no request can be admitted in a window at all
  (`TotalBoundedExactly`).
- Lineage: `calculateCascadeDepth` is not the longest chain. Because siblings share the visited map it can
  report less, depending on list order (`DepthMissesLongestChain`, `DepthDependsOnListOrder`). What it finds
  are the chains that no detour by earlier list entries cuts short (`DepthExactly`), so it is the height
  exactly when one of those is one step short of the longest (`HeightExactly`); levels suffice
  (`DepthIsTheHeight`), and on a cycle there is no height.
- Circuit breaker: success while closed does not reset the failure count, so the breaker opens at the
  threshold-th failure since it last closed or was reset (`ClosedCountsFailures`, `OpensExactly`), and the
  branch that closes a half-open breaker on entry is never taken (`EntryNeverCloses`).
- Priority queues: `SetPriority` ignores the size limit, which holds for sure exactly without moves
  (`LimitHoldsExactly`), and loses the query when the new level is invalid (`RunsConserve`).
- Failover: a healthy node with the empty name can be mistaken for "none found"; without one the primary is
  healthy whenever any node is (`HealthyPrimaryExactly`). The old node keeps its primary flag
  (`FailoverKeepsOldFlag`). A primary added with a count of failures is replaced before it has failed as
  often as the threshold says, unless that is once (`ThresholdGuardsExactly`).
- Cache: overwriting a key in a full cache evicts too, possibly another unexpired entry; a store can lose
  another key, and a history something the map without a limit would hold, exactly as `StoreForgetsExactly`
  and `RemembersExactly` say. A limit below one still holds one entry, and lowering the limit removes none
  (`LimitHoldsExactly`, `LoweringLeavesEntries`).
- Load balancer: a node that replaces another of its name keeps the true count of queries in flight exactly
  when it is added with their number (`ConnectionsAreInFlightExactly`); added idle, it can go negative
  (`ReplacedNodeGoesNegative`). `round_robin` may pick any eligible node each time
  (`RoundRobinAllowsAnySequence`), and `weighted` routes to the most loaded node per weight, so before long
  it sends everything to one node, whatever the weights (`WeightedSendsAllToOne`).
- Roles: the permission recursion returns exactly when the edges it follows lead into no cycle, which may
  lose a permission that is granted (`ReturnsExactly`, `GrantBehindCycleIsLost`); it always returns in an
  acyclic graph, which `AddRole` keeps exactly when no inherited role already leads to the new one.
- Sharding: when the shard count does not divide the range, the remainder of the keys goes to indices
  past the last shard (`StraysAreTheRemainder`, `RangeFindsShardExactly`).
- Versioning: the integer running mean is the true one exactly when every average on the way was a whole
  number (`MeanIsExactExactly`); otherwise it may understate it by up to (n-1)/2, and does so for query
  lengths 1 to n (`DriftIsReached`).

## Model

| member | source | states |
|---|---|---|
| `RateLimitRuns.EveryWindowIsWithinTheLimit` | backend/internal/engines/ratelimit_intelligence_engine.go:125-241 | in every run of an enabled engine, every window of the configured size ends with at most the configured number of admissions of a client (ten times that once whitelisted), whatever the scores, limit changes, breaker trips and deletions; the whitelist bypass excepted |
| `RateLimitRuns.GuaranteedExactly` | backend/internal/engines/ratelimit_intelligence_engine.go:126-153 | that promise holds in all runs exactly when windows are empty or the engine is enabled and the bypass does not apply to the client |
| `RateLimitBreaker.AdmittedExactly` | backend/internal/engines/ratelimit_intelligence_engine.go:125-240 | in every run, outside the bypass, a request is admitted exactly if the failures do not hold it off and the admissions in the window that ends now leave room under its limit, more than half of it for an anomalous score |
| `RateLimitBreaker.StandingMoves` | backend/internal/engines/ratelimit_intelligence_engine.go:170-230 | in every run, what a request costs or earns its client in trust and limit, by the admissions in its window; other records stay |
| `RateLimitBreaker.BreakerIsHistory` | backend/internal/engines/ratelimit_intelligence_engine.go:244-268 | in every run the breaker is closed exactly while the failures since it last recovered are below the threshold, otherwise half-open exactly if something looked more than the timeout after the last failure; count and time are those failures |
| `RateLimitBreaker.OpenBreakerRefuses` | backend/internal/engines/ratelimit_intelligence_engine.go:131-146 | within the timeout of the last failure every request is refused without a trace and a sweep leaves the breaker open; past it either half-opens it |
| `RateLimitBreaker.BypassAdmitsExactly` | backend/internal/engines/ratelimit_intelligence_engine.go:148-153 | with the bypass only the breaker holds a whitelisted client off |
| `RateLimitRuns.LimitsStayInRange` | backend/internal/engines/ratelimit_intelligence_engine.go:178-230 | trust stays in [0, 1] and the dynamic limit within its cap, and not negative unless configured so, in every run at all |
| `RateLimitRuns.TotalBoundedExactly` | backend/internal/engines/ratelimit_intelligence_engine.go:125-241 | all clients together have a bound on admissions per window in all runs exactly if windows are empty, or the engine is on, no client limit is positive and the whitelist is off |
| `RateLimitRuns.AdmissionLowersExactly` | backend/internal/engines/ratelimit_intelligence_engine.go:222-230 | when restoring the limit on an admission lowers it |
| `RateLimitRuns.FirstAdmissionLowersExactly` | backend/internal/engines/ratelimit_intelligence_engine.go:158-230 | the first request of a new client is admitted and lowers its limit exactly for limits from four up |
| `RateLimitRuns.StoredListIsTheHistoryInWindow` | backend/internal/engines/ratelimit_intelligence_engine.go:170-172 | filtering the stored list by the current cutoff gives the same as filtering the full admission history |
| `RateLimitRuns.SweepKeepsActiveClients` | backend/internal/engines/ratelimit_intelligence_engine.go:405-418 | the sweep never deletes a client with an admission in the current window |
| `RateLimitLockout.LockedOutExactly` | backend/internal/engines/ratelimit_intelligence_engine.go:174-223 | a client without the whitelist can get a request admitted again while its record survives exactly if its dynamic limit is positive, at whatever trust |
| `RateLimitLockout.LockoutIsForever` | backend/internal/engines/ratelimit_intelligence_engine.go:174-197 | with no limit left every further request is refused for as long as the record survives |
| `RateLimitLockout.LockoutReachableExactly` | backend/internal/engines/ratelimit_intelligence_engine.go:174-230 | a client without the whitelist can come to have no limit left exactly if the engine is enabled and has no positive limit, or throttles adaptively over a window that is not empty |
| `RateLimitLockout.EmptyWindowAdmitsExactly` | backend/internal/engines/ratelimit_intelligence_engine.go:170-240 | a request with an empty window that passes the breaker is admitted exactly if a limit is left, whatever its score |
| `RateLimitLockout.RetryingStaysOut` | backend/internal/engines/ratelimit_intelligence_engine.go:174-197 | a locked-out client that is refused within ten minutes before every sweep never has a request admitted again |
| `RateLimitLockout.RefusalKeepsRecord` | backend/internal/engines/ratelimit_intelligence_engine.go:407-417 | over a run, a client refused within ten minutes before every sweep has its record at every point from the first refusal on |
| `RateLimitLockout.SweepDropsExactly` | backend/internal/engines/ratelimit_intelligence_engine.go:405-419 | in every run the sweep drops exactly the records without a stored admission that were not refused for ten minutes, the trusted ones for thirty; without the whitelist only locked-out clients |
| `RateLimitRuns.DecideRecordsAdmission` | backend/internal/engines/ratelimit_intelligence_engine.go:170-223 | a request leaves the in-window list, extended by its time exactly if admitted, and is admitted only below the limit |
| `TimeWindows.FilterTwice` | backend/internal/engines/ratelimit_intelligence_engine.go:352-360 | filtering by an early and then a later cutoff is filtering by the later one |
| `TimeWindows.DropIsFilter` | backend/internal/engines/ratelimit_intelligence_engine.go:387-395 | on times in order, dropping the prefix up to the first recent one is filtering |
| `TimeWindows.PruningKeepsTheWindow` | backend/internal/engines/ratelimit_intelligence_engine.go:271-276 | after any run of responses the detector history is exactly the response times of the last five-minute window |
| `RateLimitEngine.FilterRequestsAfter` | backend/internal/engines/ratelimit_intelligence_engine.go:352-360 | the loop returns the times strictly after the cutoff, in order |
| `RateLimitEngine.AnomalyDetector.PruneHistory` | backend/internal/engines/ratelimit_intelligence_engine.go:385-396 | drops a prefix, and on times in order leaves the filtered history |
| `RateLimitEngine.ClientState.Block` | backend/internal/engines/ratelimit_intelligence_engine.go:176-185 | the record after a refusal |
| `RateLimitEngine.ClientState.Admit` | backend/internal/engines/ratelimit_intelligence_engine.go:222-230 | the record after an admission |
| `RateLimitEngine.ClientState.Decide` | backend/internal/engines/ratelimit_intelligence_engine.go:170-240 | the whole decision on one record: new record and verdict |
| `RateLimitEngine.ClientState.Inactive` | backend/internal/engines/ratelimit_intelligence_engine.go:408-417 | the test by which the sweep deletes a record |
| `RateLimitEngine.RateLimitIntelligenceEngine.constructor` | backend/internal/engines/ratelimit_intelligence_engine.go:86-122 | a new engine has no records and a closed breaker |
| `RateLimitEngine.RateLimitIntelligenceEngine.PassBreaker` | backend/internal/engines/ratelimit_intelligence_engine.go:132-146 | the breaker gate at the head of a request |
| `RateLimitEngine.RateLimitIntelligenceEngine.Track` | backend/internal/engines/ratelimit_intelligence_engine.go:158-168 | afterwards the client has its old record or a neutral new one |
| `RateLimitEngine.RateLimitIntelligenceEngine.Limit` | backend/internal/engines/ratelimit_intelligence_engine.go:158-240 | only the record of the requesting client changes, as the decision says |
| `RateLimitEngine.RateLimitIntelligenceEngine.Process` | backend/internal/engines/ratelimit_intelligence_engine.go:125-241 | one request takes all records and the breaker to the modelled next state with the modelled verdict |
| `RateLimitEngine.RateLimitIntelligenceEngine.RecordOutcome` | backend/internal/engines/ratelimit_intelligence_engine.go:249-268 | the breaker after a response |
| `RateLimitEngine.RateLimitIntelligenceEngine.ProcessResponse` | backend/internal/engines/ratelimit_intelligence_engine.go:244-280 | a response changes only the breaker and the detector history, which stays the filtered one |
| `RateLimitEngine.RateLimitIntelligenceEngine.SweepClients` | backend/internal/engines/ratelimit_intelligence_engine.go:405-419 | the loop deletes exactly the stale records, in any iteration order |
| `RateLimitEngine.RateLimitIntelligenceEngine.MonitorTick` | backend/internal/engines/ratelimit_intelligence_engine.go:403-426 | one tick: stale records go, a timed-out breaker half-opens |
| `RateLimitEngine.RateLimitIntelligenceEngine.AddToWhitelist` | backend/internal/engines/ratelimit_intelligence_engine.go:456-471 | flags and trusts an existing client, or creates one with ten times the limit |
| `HubProtocol.NoFaultEver` | backend/internal/websocket/hub.go:50-79 | in every interleaving no closed channel is sent to or closed again, registered is the same as having an open channel, and the counted receives of a writer neither block nor read past the close |
| `HubProtocol.DeliveryIsContiguous` | backend/internal/websocket/hub.go:66-76 | received followed by buffered is the contiguous run of published messages since registration, up to date while registered and ending at a fixed point afterwards; at most 256 are buffered |
| `HubProtocol.ClientsAgree` | backend/internal/websocket/hub.go:66-76 | of two clients that registered together, what one has is an in-order prefix of what the other has |
| `HubProtocol.CloseLosesNothing` | backend/internal/websocket/hub.go:167-188 | a writer that returns on seeing the close has received everything accepted for its client |
| `HubProtocol.LeavingExactly` | backend/internal/websocket/hub.go:58-75 | a client leaves exactly by unregistering or when a broadcast finds 256 messages it has not taken |
| `HubProtocol.OffersCommute` | backend/internal/websocket/hub.go:68-75 | the order in which the hub ranges over two clients does not matter |
| `HubHistory.RegisteredExactly` | backend/internal/websocket/hub.go:53-75 | in every interleaving a client is registered exactly if it registered at some point and neither unregistered since nor was offered a message with 256 waiting; it is served from the broadcasts taken until then on |
| `HubHistory.RegistersAlways` | backend/internal/websocket/hub.go:53-56 | at its select the hub registers any new client, with an empty open channel and its writer waiting, served from there on |
| `HubHistory.UnregistersAlways` | backend/internal/websocket/hub.go:58-64 | at its select it takes any known client's departure: a registered one is closed with its buffer kept, otherwise nothing happens |
| `HubHistory.FaultsWouldShow` | backend/internal/websocket/hub.go:58-76 | sending on or closing a closed channel, and a counted receive from an empty one, are faults of the model |
| `HubHistory.BroadcastCompletes` | backend/internal/websocket/hub.go:66-79 | from every reachable state the hub can take a waiting message, range over its clients in any order and come back, with exactly those served that had room and the others closed and dropped |
| `HubHistory.WriterTakesAll` | backend/internal/websocket/hub.go:164-189 | from every reachable state a waiting writer with messages can go once round, which takes all of them in order and changes nothing else |
| `HubHistory.WriterSeesClose` | backend/internal/websocket/hub.go:166-172 | a waiting writer whose channel is closed and empty returns |
| `HubHistory.FailedWriterStops` | backend/internal/websocket/hub.go:174-194 | a writer whose connection fails returns, and none that returned acts again |
| `HubHistory.PublishesExactly` | backend/internal/websocket/hub.go:44-86 | publishers are held up exactly by 256 messages not yet taken |
| `HubEngine.SendChannel.Offer` | backend/internal/websocket/hub.go:69-71 | the non-blocking send: queued if there is room, otherwise nothing happens |
| `HubEngine.SendChannel.Close` | backend/internal/websocket/hub.go:72 | an open channel becomes closed and keeps its buffer |
| `HubEngine.Hub.OnRegister` | backend/internal/websocket/hub.go:53-56 | the client joins the map |
| `HubEngine.Hub.OnUnregister` | backend/internal/websocket/hub.go:58-64 | a registered client leaves and its channel is closed; otherwise nothing happens |
| `HubEngine.Hub.SendOrEvict` | backend/internal/websocket/hub.go:69-74 | one client of a broadcast: served, or closed and dropped if full |
| `HubEngine.Hub.OnBroadcast` | backend/internal/websocket/hub.go:66-76 | every client is offered the message once, in any order, and exactly the full ones are dropped |
| `HubEngine.RangeMatchesBroadcast` | backend/internal/websocket/hub.go:68-75 | offering one by one in the protocol, in any order, ends where the broadcast loop does |
| `LineageModel.ProcessKeepsCoherent` | backend/internal/engines/data_lineage_engine.go:139-201 | every complete query keeps edges, Dependencies and Dependents in agreement: same lists, mirrored, duplicate-free, between known tables, no self-dependency |
| `LineageModel.AgreementInsideTheLoop` | backend/internal/engines/data_lineage_engine.go:153-191 | after k rounds of a write query they agree exactly if every table still to come is known already |
| `LineageModel.PartialIsOneLink` | backend/internal/engines/data_lineage_engine.go:188-190 | linking in every round comes to linking once after touching the tables |
| `LineageModel.RunIsCoherent` | backend/internal/engines/data_lineage_engine.go:139-201 | the records agree after every sequence of queries |
| `LineageModel.RunIsExactHistory` | backend/internal/engines/data_lineage_engine.go:304-355 | a table depends on another exactly if some write query listed it first and the other after it |
| `LineageModel.RunCountsExactly` | backend/internal/engines/data_lineage_engine.go:268-302 | known are exactly the tables some query listed, with as many reads and writes as queries of that kind listed them |
| `LineageModel.RunListsInOrder` | backend/internal/engines/data_lineage_engine.go:304-355 | dependencies and dependents stand in the order in which write queries first mentioned them |
| `LineageModel.ImpactConeIsDependencyClosure` | backend/internal/engines/data_lineage_engine.go:441-448 | a table is reachable over dependents exactly if its dependencies lead back |
| `CascadeDepth.VisitsExactlyTheReachable` | backend/internal/engines/data_lineage_engine.go:473-496 | on every graph the search visits exactly the reachable tables |
| `CascadeDepth.DepthIsAWalk` | backend/internal/engines/data_lineage_engine.go:487-495 | the depth is the length of an actual chain of dependents that repeats no table, except that it may end in one visited before |
| `CascadeDepth.DepthGrowsExactly` | backend/internal/engines/data_lineage_engine.go:473-495 | the result exceeds the starting depth exactly for an unvisited known table with a dependent |
| `CascadeDepth.DepthWithinVisited` | backend/internal/engines/data_lineage_engine.go:473-495 | the result exceeds the starting depth by at most the number of newly visited tables |
| `CascadeChains.DepthExactly` | backend/internal/engines/data_lineage_engine.go:472-496 | on every graph the depth is at least n exactly if a clear chain of at least n tables leads to one with dependents: no repeats, and no earlier entry of a list leads around the chain so far to anything later on it |
| `CascadeChains.HeightExactly` | backend/internal/engines/data_lineage_engine.go:472-496 | so the depth is the greatest chain length exactly if there are no dependents or some clear chain is one step short of the longest |
| `CascadeChains.VisitsExactlyOutside` | backend/internal/engines/data_lineage_engine.go:473-495 | with some tables visited already, a search over a list visits besides them exactly what the list reaches around them |
| `CascadeDepth.DepthIsTheHeight` | backend/internal/engines/data_lineage_engine.go:472-496 | it is, in any list order, when the reachable tables with dependents fall into levels |
| `CascadeDepth.DepthCoversDistances` | backend/internal/engines/data_lineage_engine.go:472-496 | on every graph each reachable table is reached by a chain no longer than the depth |
| `CascadeDepth.ShortcutToLeaf` | backend/internal/engines/data_lineage_engine.go:472-496 | a table without dependents may be reached in different numbers of steps |
| `CascadeDepth.UniqueWalksGiveHeight` | backend/internal/engines/data_lineage_engine.go:472-496 | so it is when every table is reached by one chain only |
| `CascadeDepth.CycleHasNoHeight` | backend/internal/engines/data_lineage_engine.go:474-477 | through a cycle there are chains longer than any number |
| `CascadeDepth.DepthMissesLongestChain` | backend/internal/engines/data_lineage_engine.go:487-495 | a graph whose longest chain has three steps while two are reported |
| `CascadeDepth.DepthDependsOnListOrder` | backend/internal/engines/data_lineage_engine.go:488-493 | the same tables listed in the other order are reported with three |
| `LineageEngine.LineageGraph.Track` | backend/internal/engines/data_lineage_engine.go:272-279 | afterwards the table has its old node or a new empty one |
| `LineageEngine.LineageGraph.UpdateLineageGraph` | backend/internal/engines/data_lineage_engine.go:268-302 | counts the access on the table's node and changes no other |
| `LineageEngine.LineageGraph.AddDependencies` | backend/internal/engines/data_lineage_engine.go:310-323 | the source's list gets the missing targets, in order |
| `LineageEngine.LineageGraph.AddEdge` | backend/internal/engines/data_lineage_engine.go:327-339 | the edge list gets the target if it is missing |
| `LineageEngine.LineageGraph.LinkTargets` | backend/internal/engines/data_lineage_engine.go:326-354 | edges and the known targets' dependents after the second loop |
| `LineageEngine.LineageGraph.AddDependency` | backend/internal/engines/data_lineage_engine.go:305-355 | both loops together are one link of the source to all targets |
| `LineageEngine.LineageGraph.Process` | backend/internal/engines/data_lineage_engine.go:153-191 | the table loop takes the graph to the modelled one |
| `LineageEngine.LineageGraph.CalculateCascadeDepth` | backend/internal/engines/data_lineage_engine.go:473-496 | the recursion over the shared visited map returns, and leaves the visited set, as the search function says |
| `LineageEngine.LineageGraph.AnalyzeCascade` | backend/internal/engines/data_lineage_engine.go:441-448 | for a known table: exactly the reachable tables are searched, the depth is at most their number, and positive exactly if the table has a dependent |
| `CircuitBreakers.ClosedExactlyBelowThreshold` | backend/internal/retry/policy.go:221-267 | closed exactly while the failure count is below the threshold, in all histories, exactly if the threshold is positive |
| `CircuitBreakers.ClosedCountsFailures` | backend/internal/retry/policy.go:251-267 | while closed, the failure count is the number of failures let through since the last closing or reset, whatever successes came between |
| `CircuitBreakers.OpensExactly` | backend/internal/retry/policy.go:251-258 | a closed breaker opens exactly at the threshold-th of those failures |
| `CircuitBreakers.LetThroughExactly` | backend/internal/retry/policy.go:221-249 | a call is let through exactly if the breaker is not open or more than the timeout has passed since its last failure |
| `CircuitBreakers.RefusedWithinTimeout` | backend/internal/retry/policy.go:225-241 | a refused call is one of an open breaker within the timeout of the last failure let through |
| `CircuitBreakers.ClosingTakesThreeSuccesses` | backend/internal/retry/policy.go:226-267 | a call closes the breaker exactly if it is the third successful call in a row and the first found the timeout passed |
| `CircuitBreakers.FailuresAreSpacedByTimeout` | backend/internal/retry/policy.go:226-258 | until the breaker closes, a later failure let through starts more than the timeout after an earlier one ended |
| `CircuitBreakers.EntryNeverCloses` | backend/internal/retry/policy.go:234-239 | the success count of a half-open breaker is below three on entry |
| `CircuitBreakers.CircuitBreaker.Execute` | backend/internal/retry/policy.go:221-249 | one call: the new state; the function is run exactly if the breaker is not open or its timeout has passed, and otherwise nothing changes |
| `CircuitBreakers.CircuitBreaker.RecordFailure` | backend/internal/retry/policy.go:251-258 | the state after a failure |
| `CircuitBreakers.CircuitBreaker.RecordSuccess` | backend/internal/retry/policy.go:260-267 | the state after a success |
| `CircuitBreakers.CircuitBreaker.Reset` | backend/internal/retry/policy.go:273-277 | closed, with both counts zero |
| `RetryPolicies.RetryPolicy.Execute` | backend/internal/retry/policy.go:47-79 | the calls number the smaller of the first final outcome and the attempt limit, with one sleep of the computed length between calls, unless the context is found cancelled before, in which case the loop ends there and says so; the result says what ended the loop; the sleeps are within the bound for the attempt limit |
| `RetryPolicies.RetryPolicy.DelaysBackOff` | backend/internal/retry/policy.go:104-107 | base delays start at the initial delay, do not shrink and never exceed the cap |
| `RetryPolicies.RetryPolicy.DelayMultiplies` | backend/internal/retry/policy.go:103-107 | the first base delay is the initial one and each next one the multiple of the last, both under the cap |
| `RetryPolicies.RetryPolicy.JitterShare` | backend/internal/retry/policy.go:109-112 | jitter lengthens a delay by its share of a half |
| `RetryPolicies.RetryPolicy.TotalSleepBound` | backend/internal/retry/policy.go:47-115 | for any multiplier, up to n sleeps total at most one and a half times the smaller of n capped delays and the total of the uncapped ones |
| `RetryPolicies.RetryPolicy.ExponentialTotalClosed` | backend/internal/retry/policy.go:104 | the uncapped delays total the initial delay times a geometric sum |
| `Geometric.SumOfDoublings` | backend/internal/retry/policy.go:104 | that sum is 2^n - 1 for the multiplier 2 of every constructed policy |
| `RetryPolicies.RetryPolicy.DelayWithinJitter` | backend/internal/retry/policy.go:103-115 | jitter only lengthens a delay, by at most half |
| `Geometric.GeometricSumClosed` | backend/internal/retry/policy.go:104 | closed form of the geometric sum |
| `RetryPolicies.RetryPolicy.IsRetryable` | backend/internal/retry/policy.go:81-101 | non-retryable patterns win; otherwise a listed or common pattern must occur |
| `ErrorPatterns.Contains` | backend/internal/retry/policy.go:117-119 | true exactly if the pattern occurs, the empty pattern included |
| `ErrorPatterns.ContainsHelper` | backend/internal/retry/policy.go:121-128 | true exactly if the pattern occurs at some position |
| `PriorityModel.CallsRefineArrivalOrder` | backend/internal/engines/query_priority_engine.go:102-141 | every call is the corresponding step on one arrival-ordered list; serving takes the earliest entry of the highest level |
| `PriorityModel.RunsRefineArrivalOrder` | backend/internal/engines/query_priority_engine.go:102-190 | every run from empty queues is, call by call, a run of one arrival list from empty that stands for the queues after each call |
| `PriorityModel.DrainIsTheStableSort` | backend/internal/engines/query_priority_engine.go:121-141 | a list is the drain order exactly if it is descending by level and keeps the order within each level |
| `PriorityModel.ServingAllDrains` | backend/internal/engines/query_priority_engine.go:121-141 | serving everything delivers the drain order |
| `PriorityModel.RunsConserve` | backend/internal/engines/query_priority_engine.go:102-190 | accepted queries are those queued, served, or lost to an invalid level, as multisets |
| `PriorityModel.SizeWithinMoves` | backend/internal/engines/query_priority_engine.go:113-115 | a queue exceeds the size limit by at most the number of moves to its level |
| `PriorityModel.MovesExceedTheLimit` | backend/internal/engines/query_priority_engine.go:166-183 | some run with n moves to a level fills it to n over the limit |
| `PriorityModel.LimitHoldsExactly` | backend/internal/engines/query_priority_engine.go:113-183 | the limit holds in all runs with at most n moves to a level exactly if n is zero or nothing is let in at all |
| `PriorityModel.OperationsInOrder` | backend/internal/engines/query_priority_engine.go:83-100 | a requested level wins; otherwise deletes precede inserts and updates, and those precede selects, whatever the default |
| `PriorityEngine.QueryPriorityEngine.Enqueue` | backend/internal/engines/query_priority_engine.go:102-119 | appended to the queue of its level, or refused for an invalid level or a full queue |
| `PriorityEngine.QueryPriorityEngine.Dequeue` | backend/internal/engines/query_priority_engine.go:121-141 | the head of the highest non-empty queue, removed |
| `PriorityEngine.QueryPriorityEngine.Relocate` | backend/internal/engines/query_priority_engine.go:171-183 | taken out at its position and appended to the target queue, if the level is valid |
| `PriorityEngine.QueryPriorityEngine.SetPriority` | backend/internal/engines/query_priority_engine.go:166-190 | found in any queue and relocated, or reported missing exactly if no queue has the identifier |
| `PriorityEngine.Find` | backend/internal/engines/query_priority_engine.go:169-170 | the first position with the identifier |
| `FailoverModel.HealthyPrimaryExactly` | backend/internal/engines/failover_engine.go:129-145 | with auto-failover every outcome of a response leaves the primary healthy if any node is, exactly if no healthy node of empty name competes to replace a bad primary |
| `FailoverModel.NamedNodesKeepHealthyPrimary` | backend/internal/engines/failover_engine.go:129-145 | without an empty name that holds unconditionally |
| `FailoverModel.ReplacedOnlyAfterThreshold` | backend/internal/engines/failover_engine.go:159-187 | in every run a response replaces a registered primary only after the threshold of failures in a row on it |
| `FailoverModel.ThresholdGuardsExactly` | backend/internal/engines/failover_engine.go:87-97 | that it takes the threshold of failures whatever counts nodes are added with holds in all runs exactly if the threshold is at most one or failover is off |
| `FailoverModel.EarlyReplacement` | backend/internal/engines/failover_engine.go:87-97 | a run in which a primary added with a count is replaced after one failure |
| `FailoverModel.ReplacementNeedsBadPrimary` | backend/internal/engines/failover_engine.go:172-225 | a replaced primary is unhealthy at the threshold and the new one is healthy, registered and flagged |
| `FailoverModel.FailoverIsNoted` | backend/internal/engines/failover_engine.go:189-234 | a failover notes its source, and its target if it found a registered healthy node other than the old primary; otherwise the primary stays and it counts as failed |
| `FailoverModel.RespondsAlways` | backend/internal/engines/failover_engine.go:128-145 | every response has an outcome |
| `FailoverModel.FailCountIsHistory` | backend/internal/engines/failover_engine.go:147-170 | the stored count is the count it was added with plus the failures in a row |
| `FailoverModel.RunsKeepInv` | backend/internal/engines/failover_engine.go:189-234 | triggered is successful plus failed, and no failover is in progress between events |
| `FailoverModel.HealthyPrimaryStays` | backend/internal/engines/failover_engine.go:172-187 | a response that leaves the primary healthy neither replaces it nor counts a failover |
| `FailoverModel.FailoverKeepsOldFlag` | backend/internal/engines/failover_engine.go:221-225 | a failover flags the new primary and clears no flag, so the flag goes on singling out the primary exactly if the primary stays or was not flagged |
| `FailoverEngine.Engine.AddDatabase` | backend/internal/engines/failover_engine.go:87-97 | filed healthy under its name, primary if flagged |
| `FailoverEngine.Engine.RecordSuccess` | backend/internal/engines/failover_engine.go:147-157 | count zero and healthy, for a registered node only |
| `FailoverEngine.Engine.RecordFailure` | backend/internal/engines/failover_engine.go:159-170 | one more failure, unhealthy from the threshold on |
| `FailoverEngine.Engine.MustFailover` | backend/internal/engines/failover_engine.go:172-187 | the decision to fail over |
| `FailoverEngine.Engine.FindReplica` | backend/internal/engines/failover_engine.go:202-217 | some healthy node other than the primary, or the empty name |
| `FailoverEngine.Engine.TriggerFailover` | backend/internal/engines/failover_engine.go:189-234 | a failover to some permitted pick |
| `FailoverEngine.Engine.ProcessResponse` | backend/internal/engines/failover_engine.go:128-145 | one response leads to a modelled next state |
| `CacheModel.HitIsTheLastStore` | backend/internal/engines/cache_engine.go:131-156 | a hit returns what was last stored under the key and not invalidated since, within the time to live in force then |
| `CacheModel.UnboundedIsLive` | backend/internal/engines/cache_engine.go:147-200 | the map without a limit holds exactly the live stores of the history |
| `CacheModel.CacheIsSubmap` | backend/internal/engines/cache_engine.go:147-200 | the cache is always part of that map |
| `CacheModel.SizeIsBounded` | backend/internal/engines/cache_engine.go:151-155 | never more entries than the largest limit configured, or one |
| `CacheModel.LimitHoldsExactly` | backend/internal/engines/cache_engine.go:151-155 | in all runs that leave the configuration alone the cache stays within its limit exactly if the limit is positive, or zero and the cache is off |
| `CacheModel.LoweringLeavesEntries` | backend/internal/engines/cache_engine.go:215-229 | lowering the limit leaves the cache over it, by any number |
| `CacheModel.StoreForgetsExactly` | backend/internal/engines/cache_engine.go:147-172 | a store may lose another key exactly if the cache is full and another key is among those of least expiry |
| `CacheModel.RemembersExactly` | backend/internal/engines/cache_engine.go:147-200 | whatever eviction picks, the cache agrees all along with the map without a limit exactly for those histories in which every store finds room for all live entries or holds the only key that can be evicted |
| `CacheModel.FindsExactlyTheFresh` | backend/internal/engines/cache_engine.go:131-156 | in every run of such a history a lookup finds an entry exactly if it is the one last stored under the key, not invalidated since and within its time to live |
| `CacheModel.ExactWhileNotFull` | backend/internal/engines/cache_engine.go:151-155 | with fewer live entries than the limit nothing is ever forgotten |
| `CacheModel.OverwriteEvictsAnother` | backend/internal/engines/cache_engine.go:151-155 | an instance: overwriting one of two keys evicts the other |
| `CacheEngine.CachingEngine.Lookup` | backend/internal/engines/cache_engine.go:131-145 | a hit exactly if the cache is on, the key is there and its expiry has not passed, and then that entry |
| `CacheEngine.CachingEngine.ProcessResponse` | backend/internal/engines/cache_engine.go:85-112 | stores the data of a select query on an enabled cache under a non-empty key, and nothing otherwise |
| `CacheEngine.CachingEngine.SetCacheEntry` | backend/internal/engines/cache_engine.go:147-156 | room is made when full, then the entry stored |
| `CacheEngine.CachingEngine.EvictOldest` | backend/internal/engines/cache_engine.go:158-172 | removes an entry of least expiry, if there is any |
| `CacheEngine.CachingEngine.InvalidateDatabase` | backend/internal/engines/cache_engine.go:174-183 | removes exactly the entries of the database |
| `CacheEngine.CachingEngine.InvalidateTable` | backend/internal/engines/cache_engine.go:185-194 | removes exactly the entries of the table |
| `CacheEngine.CachingEngine.Clear` | backend/internal/engines/cache_engine.go:196-200 | removes everything |
| `CacheEngine.CachingEngine.SetConfig` | backend/internal/engines/cache_engine.go:215-229 | changes the configuration, not the entries |
| `LoadBalancerModel.ConnectionsCount` | backend/internal/engines/load_balancer_engine.go:72-139 | in every run a node has the connections it was last added with, plus the queries routed to it since without a response, less those routed before whose response came after |
| `LoadBalancerModel.ConnectionsAreInFlightExactly` | backend/internal/engines/load_balancer_engine.go:72-139 | in every run a node has as many connections as queries in flight exactly if it was last added with the number in flight on its name then |
| `LoadBalancerModel.ConnectionsAreInFlight` | backend/internal/engines/load_balancer_engine.go:80-139 | in particular a node added once and idle does |
| `LoadBalancerModel.ReplacedNodeGoesNegative` | backend/internal/engines/load_balancer_engine.go:72-127 | a run in which a node replaced during a query ends with a negative count |
| `LoadBalancerModel.NodeIsHistory` | backend/internal/engines/load_balancer_engine.go:72-127 | in every run a node keeps the weight it was last added with, is healthy since, and has the latency of the last measured response |
| `LoadBalancerModel.RoutesExactlyToEligible` | backend/internal/engines/load_balancer_engine.go:80-156 | a query goes only to a healthy node within the latency limit of an engine that is on, and nowhere only if it is off or there is none |
| `LoadBalancerModel.LeastConnectionsSpreadsEvenly` | backend/internal/engines/load_balancer_engine.go:142-176 | m routings of n idle eligible nodes give each m/n, and m%n of them one more |
| `LoadBalancerModel.WeightedHerds` | backend/internal/engines/load_balancer_engine.go:166-175 | the node ahead per weight gets every further query |
| `LoadBalancerModel.WeightedSendsAllToOne` | backend/internal/engines/load_balancer_engine.go:166-175 | from idle nodes of any positive weights, after as many routings as the weights less one each total, every query goes to one node and no other reaches its weight |
| `LoadBalancerModel.SlackIsReached` | backend/internal/engines/load_balancer_engine.go:166-175 | up to that many routings no node need have reached its weight |
| `LoadBalancerModel.UnitWeightsSendAllToFirst` | backend/internal/engines/load_balancer_engine.go:166-175 | with unit weights every query goes to the node of the first |
| `LoadBalancerModel.RoundRobinAllowsAnySequence` | backend/internal/engines/load_balancer_engine.go:160-161 | exactly the sequences of registered nodes can be routed to, in any order and share |
| `LoadBalancerEngine.Engine.SelectNode` | backend/internal/engines/load_balancer_engine.go:142-179 | in any iteration order, a node that no other named one beats, unless a node of empty name came in between and beat that one; nothing if no node is eligible or the nameless one wins |
| `LoadBalancerModel.SelectsInSomeOrder` | backend/internal/engines/load_balancer_engine.go:142-179 | those outcomes are exactly what the loop ends with in some order of the eligible nodes |
| `LoadBalancerModel.NamedNodesAreBest` | backend/internal/engines/load_balancer_engine.go:142-179 | without an eligible node of empty name, exactly the eligible nodes of least value may be selected |
| `LoadBalancerModel.WeightedValue` | backend/internal/engines/load_balancer_engine.go:166-167 | the weighted value is a hundred less the connections per weight, rounded toward zero |
| `LoadBalancerEngine.Engine.ValueOf` | backend/internal/engines/load_balancer_engine.go:158-170 | the value the strategy gives a node |
| `LoadBalancerEngine.Engine.AddNode` | backend/internal/engines/load_balancer_engine.go:72-77 | filed healthy under its name |
| `LoadBalancerEngine.Engine.Process` | backend/internal/engines/load_balancer_engine.go:80-113 | one more connection on the selected node; stopped if none is found, passed on without a target if the engine is off |
| `LoadBalancerEngine.Engine.ProcessResponse` | backend/internal/engines/load_balancer_engine.go:116-127 | with a response, one connection fewer on the target and its latency updated; without one, no change |
| `RbacModel.AnswersAreRight` | backend/internal/security/rbac.go:189-208 | on every role graph an answer is true exactly if a role reachable by inheritance lists the permission |
| `RbacModel.ReturnsExactly` | backend/internal/security/rbac.go:189-208 | on every role graph and for every permission the recursion returns exactly if the edges it follows, up to the first granting role of each list, lead into no cycle |
| `Cycles.RankedExactly` | backend/internal/security/rbac.go:201-205 | a start has a measure that goes down along the edges exactly if no cycle is ahead of it |
| `Cycles.AcyclicExactly` | backend/internal/security/rbac.go:201-205 | a graph has one exactly if no edge lies on a cycle |
| `RbacModel.RefusalReturnsExactly` | backend/internal/security/rbac.go:201-205 | for a permission not granted, exactly if inheritance from the role leads into no cycle |
| `RbacModel.AcyclicAlwaysAnswers` | backend/internal/security/rbac.go:189-208 | in an acyclic graph every question is answered rightly |
| `RbacModel.GrantBehindCycleIsLost` | backend/internal/security/rbac.go:201-205 | an instance: a granted permission listed behind a cycle is never found |
| `RbacModel.AddRoleKeepsAcyclicExactly` | backend/internal/security/rbac.go:261-267 | adding a role keeps an acyclic graph acyclic exactly if no inherited role leads to it |
| `RbacModel.MoreRolesAllowMore` | backend/internal/security/rbac.go:161-163 | more roles never take a permission away |
| `RbacModel.DefaultRolesAreAcyclic` | backend/internal/security/rbac.go:89-119 | the built-in roles form an acyclic graph |
| `Rbac.AccessControl.RoleHasPermission` | backend/internal/security/rbac.go:189-208 | wherever the recursion returns, it returns whether the role grants the permission |
| `Rbac.AccessControl.HasPermission` | backend/internal/security/rbac.go:171-187 | true exactly if the user is enabled and one of their roles grants the permission, where no role that comes to be asked leads the search into a cycle |
| `Rbac.AccessControl.AddRole` | backend/internal/security/rbac.go:261-267 | stores the definition; acyclicity is kept exactly as stated above |
| `Rbac.AccessControl.AddUser` | backend/internal/security/rbac.go:121-131 | a new name is stored, a known one refused |
| `Rbac.AccessControl.RemoveUser` | backend/internal/security/rbac.go:133-143 | the user is gone, or was not there |
| `Rbac.AccessControl.UpdateUser` | backend/internal/security/rbac.go:152-169 | the given fields of that user change and nothing else |
| `ShardingModel.ShardIsABlock` | backend/internal/engines/sharding_engine.go:168-178 | a key has index i exactly if it lies in the i-th block of consecutive keys |
| `ShardingModel.EveryShardGetsItsSize` | backend/internal/engines/sharding_engine.go:177-178 | every proper shard gets exactly the rounded-down share of keys |
| `ShardingModel.StraysAreTheRemainder` | backend/internal/engines/sharding_engine.go:177-178 | the remainder of the division goes past the last shard, so none does exactly if the count divides the range |
| `ShardingModel.RangeIsMonotone` | backend/internal/engines/sharding_engine.go:177-178 | a later key never gets an earlier index |
| `ShardingModel.IndexIsBounded` | backend/internal/engines/sharding_engine.go:177-178 | the index is at most twice the shard count minus two |
| `ShardingModel.IndexBoundIsReached` | backend/internal/engines/sharding_engine.go:177-178 | that bound is reached |
| `ShardingModel.DividesByZeroExactly` | backend/internal/engines/sharding_engine.go:168-178 | the division by zero happens exactly for an in-range key with more shards than keys |
| `ShardingModel.KeyFindsShardExactly` | backend/internal/engines/sharding_engine.go:164-182 | over all inputs, a key gets the index of a proper shard exactly if there are shards, no more than keys, and the key lies in the part the rounded-down shards cover |
| `ShardingModel.RangeFindsShardExactly` | backend/internal/engines/sharding_engine.go:164-182 | every key of a range rule finds a registered shard exactly if there are no keys, or the identifiers are 0 to n-1 and n divides the number of keys |
| `ShardingModel.HashShard` | backend/internal/engines/sharding_engine.go:148-162 | an index below the shard count, 0 without shards |
| `ShardingModel.HashFindsShardExactly` | backend/internal/engines/sharding_engine.go:148-162 | every hash finds a registered shard exactly if the identifiers are 0 to n-1 |
| `ShardingModel.RemoveKeepsProperExactly` | backend/internal/engines/sharding_engine.go:196-200 | removing a shard keeps that exactly for the last one or an unknown one |
| `ShardingEngine.Engine.AddShard` | backend/internal/engines/sharding_engine.go:188-194 | stored healthy under its identifier |
| `ShardingEngine.Engine.RemoveShard` | backend/internal/engines/sharding_engine.go:196-200 | gone; gap-free identifiers stay so exactly as stated above |
| `ShardingEngine.Engine.AddRule` | backend/internal/engines/sharding_engine.go:220-224 | appended to the rules |
| `ShardingEngine.Engine.FindMatchingRule` | backend/internal/engines/sharding_engine.go:133-146 | the first rule whose pattern matches, if any |
| `ShardingEngine.Engine.DetermineShard` | backend/internal/engines/sharding_engine.go:96-117 | the shard of a query by the first matching rule |
| `Versioning.RunIsNumbered` | backend/internal/engines/query_versioning_engine.go:84-120 | the numbers handed out are 1 to n by first appearance of the hash, one each; the counters agree; the average is the running mean of the stored lengths |
| `Versioning.MeanIsExactExactly` | backend/internal/engines/query_versioning_engine.go:119 | the integer mean is the true mean exactly if every average on the way was a whole number |
| `Versioning.DriftIsBounded` | backend/internal/engines/query_versioning_engine.go:119 | in general the total minus n times the integer mean lies between 0 and n(n-1)/2 |
| `Versioning.DriftIsReached` | backend/internal/engines/query_versioning_engine.go:119 | lengths 1 to n reach that bound for every n |
| `Versioning.MeanStaysBetween` | backend/internal/engines/query_versioning_engine.go:119 | the mean stays between the least and the greatest length |
| `Versioning.VersioningEngine.Track` | backend/internal/engines/query_versioning_engine.go:72-129 | a known hash reports its version and counts a duplicate, a new one gets the next number |

## Left out

- Locks, goroutine start-up and tickers: each method, sweep or channel operation is one atomic step; several engines re-acquire non-reentrant locks, which a sequential model does not see.
- Rounding of `float64` and the width of `int` and `int64`: `real` and unbounded integers are used instead.
- Several clock readings inside one call: they are taken to be equal, except the start and end of a breaker's call.
- The formula of the anomaly score, the client identifier and the metadata written to queries: any score may come with any request.
- SQL parsing by regular expressions, including table and column extraction: the table list of a query, without repetitions, is an input.
- Hash functions, random jitter and `Sscanf`: a hash is an input, jitter is any value in [0, 1), a range key is its number.
- Lineage columns, access log, data flows, timestamps and the impact level thresholds: only easy members.
- Wire-level writes and pings of the hub's writer, and its read loop: a writer may fail at any point, and any client that was registered may unregister at any time and repeatedly, which covers them.
- Averages of latency and failover duration, and statistics that no decision depends on.
- Sessions, login and the HTTP middleware of access control; the resource argument, which the code ignores.
- The retry manager's policy table and the unused back-off strategies.
- Cache key generation, the Redis option and the type assertion on cached data; expiry times are taken never to be the zero time, which the eviction loop uses as a marker.
- Shard and rule listings, rule removal, shard health and query rewriting.
- Audit and CDC logs, the router, pools, policies, plugins, TLS, secrets, APIs and the frontend: I/O, user interface or only easy members.
- RoleHasPermission: the recursion has no guard against cycles, so the method asks for a measure, which by `ReturnsWithRank` and `RankedExactly` exists exactly where it returns; that it overflows the stack elsewhere is not modelled.
- HasPermission: asks for the same reason that no role of the user that comes to be asked leads the search into a cycle.
- SelectNode: asks for non-zero weights of eligible nodes under the weighted strategy, because the code divides by them.
