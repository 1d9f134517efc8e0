/** Load balancer: which node a query may go to, and what long runs of routing lead to. */
module LoadBalancerModel {
  import opened Arithmetic
  import opened SetFacts
  import opened NodeSearch

  datatype Node = Node(connections: int, latencyMs: int, weight: int, isHealthy: bool)

  type Nodes = map<string, Node>

  datatype Config = Config(enabled: bool, strategy: string, maxLatencyMs: int)

  /** A zero weight would divide by zero under the weighted strategy. */
  predicate Weighable(cfg: Config, nodes: Nodes) {
    cfg.strategy == "weighted" ==> forall n :: n in Eligible(cfg, nodes) ==> nodes[n].weight != 0
  }

  function Eligible(cfg: Config, nodes: Nodes): set<string> {
    set n | n in nodes && nodes[n].isHealthy && nodes[n].latencyMs <= cfg.maxLatencyMs
  }

  function Value(cfg: Config, n: Node): int
    requires cfg.strategy == "weighted" ==> n.weight != 0
  {
    if cfg.strategy == "least_connections" then n.connections
    else if cfg.strategy == "least_latency" then n.latencyMs
    else if cfg.strategy == "weighted" then 100 - TruncDiv(n.connections, n.weight)
    else 0
  }

  function ValueAt(cfg: Config, nodes: Nodes, n: string): int {
    if n in nodes && (cfg.strategy == "weighted" ==> nodes[n].weight != 0) then Value(cfg, nodes[n]) else 0
  }

  /** What the search may hold after seeing some of the eligible nodes. */
  ghost predicate MayHold(cfg: Config, nodes: Nodes, seen: set<string>, best: string) {
    Holds(n => ValueAt(cfg, nodes, n), seen, best)
  }

  /** The outcomes of the search; without a nameless node, those of least value. */
  ghost predicate MaySelect(cfg: Config, nodes: Nodes, target: string)
    requires Weighable(cfg, nodes)
  {
    MayHold(cfg, nodes, Eligible(cfg, nodes), target)
  }

  lemma NamedNodesAreBest(cfg: Config, nodes: Nodes, target: string)
    requires Weighable(cfg, nodes) && "" !in Eligible(cfg, nodes)
    ensures MaySelect(cfg, nodes, target) <==>
              if Eligible(cfg, nodes) == {} then target == ""
              else target in Eligible(cfg, nodes) &&
                   forall n :: n in Eligible(cfg, nodes) ==> Value(cfg, nodes[target]) <= Value(cfg, nodes[n])
  {
  }

  /** MAIN RESULT. These are exactly the results that the loop over the eligible nodes can end with,
      the nodes coming in one order or another. */
  lemma SelectsInSomeOrder(cfg: Config, nodes: Nodes, target: string)
    requires Weighable(cfg, nodes)
    ensures MaySelect(cfg, nodes, target) <==>
              exists order :: Lists(order, Eligible(cfg, nodes)) && Search(n => ValueAt(cfg, nodes, n), order) == target
  {
    HoldsInSomeOrder(n => ValueAt(cfg, nodes, n), Eligible(cfg, nodes), target);
  }

  /** The weighted value is a hundred less the connections per weight, rounded toward zero. */
  lemma WeightedValue(cfg: Config, n: Node)
    requires cfg.strategy == "weighted" && n.weight != 0
    ensures var rest := n.connections - n.weight * (100 - Value(cfg, n));
            && Abs(rest) < Abs(n.weight)
            && (n.connections >= 0 ==> rest >= 0) && (n.connections <= 0 ==> rest <= 0)
  {
    TruncDivRemainder(n.connections, n.weight);
  }

  function Connect(nodes: Nodes, target: string): Nodes {
    if target in nodes then nodes[target := nodes[target].(connections := nodes[target].connections + 1)] else nodes
  }

  /** A routing that finds a node. */
  ghost predicate MayRoute(cfg: Config, nodes: Nodes, target: string, nodes': Nodes) {
    && cfg.enabled && target != "" && Weighable(cfg, nodes)
    && MaySelect(cfg, nodes, target) && nodes' == Connect(nodes, target)
  }

  /** What comes back for a query: nothing at all, or a response, with a measurable duration or not. */
  datatype Reply = NoReply | Instant | Took(latencyMs: int)

  function Release(nodes: Nodes, target: string, reply: Reply): Nodes {
    if target !in nodes || reply.NoReply? then nodes
    else
      var n := nodes[target].(connections := nodes[target].connections - 1);
      nodes[target := if reply.Took? then n.(latencyMs := reply.latencyMs) else n]
  }

  /** Queries carry the name of the node they were routed to from their routing to their answer. */
  datatype Event =
    | Add(name: string, node: Node)
    | Route(query: int, name: string)
    | Answer(query: int, name: string, reply: Reply)

  /** One event; a routing names the node chosen, or nothing if none was found or the engine is off. */
  ghost predicate Happens(cfg: Config, nodes: Nodes, e: Event, nodes': Nodes) {
    match e
    case Add(name, node) => nodes' == nodes[name := node.(isHealthy := true)]
    case Route(_, name) =>
      if name != "" then MayRoute(cfg, nodes, name, nodes')
      else nodes' == nodes && (cfg.enabled ==> Weighable(cfg, nodes) && MaySelect(cfg, nodes, name))
    case Answer(_, name, reply) => nodes' == Release(nodes, name, reply)
  }

  ghost predicate IsRun(cfg: Config, events: seq<Event>, states: seq<Nodes>) {
    && |states| == |events| + 1
    && forall i :: 0 <= i < |events| ==> Happens(cfg, states[i], events[i], states[i + 1])
  }

  lemma RunPrefix(cfg: Config, events: seq<Event>, states: seq<Nodes>)
    requires events != [] && IsRun(cfg, events, states)
    ensures IsRun(cfg, events[..|events| - 1], states[..|states| - 1])
    ensures Happens(cfg, states[|events| - 1], events[|events| - 1], states[|events|])
  {
  }

  // ---- queries in flight

  /** Some event between the two positions routes the query to the node. */
  ghost predicate Routed(events: seq<Event>, lo: int, hi: int, query: int, name: string) {
    exists i :: lo <= i < hi && 0 <= i < |events| && events[i] == Route(query, name)
  }

  predicate Closes(e: Event, query: int) {
    e.Answer? && e.query == query && !e.reply.NoReply?
  }

  /** Some event between the two positions brings the query's response. */
  ghost predicate Responded(events: seq<Event>, lo: int, hi: int, query: int) {
    exists i :: lo <= i < hi && 0 <= i < |events| && Closes(events[i], query)
  }

  /** Each query is routed once; it is answered only after that, with the node it was routed to, and
      has at most one response. */
  ghost predicate Paired(events: seq<Event>) {
    forall i :: 0 <= i < |events| ==> PairedAt(events, i)
  }

  ghost predicate PairedAt(events: seq<Event>, i: nat)
    requires i < |events|
  {
    match events[i]
    case Add(_, _) => true
    case Route(q, _) => forall n :: !Routed(events, 0, i, q, n)
    case Answer(q, n, reply) => Routed(events, 0, i, q, n) && (reply.NoReply? || !Responded(events, 0, i, q))
  }

  function Queries(events: seq<Event>): set<int> {
    set i | 0 <= i < |events| && !events[i].Add? :: events[i].query
  }

  /** The queries routed to the node from the given position on that have no response yet. */
  ghost function InFlight(events: seq<Event>, from: nat, name: string): set<int> {
    set q | q in Queries(events) && Routed(events, from, |events|, q, name) && !Responded(events, 0, |events|, q)
  }

  /** The queries routed to the node before that position whose response came after it. */
  ghost function Late(events: seq<Event>, from: nat, name: string): set<int> {
    set q | q in Queries(events) && Routed(events, 0, from, q, name) && Responded(events, from, |events|, q)
  }

  lemma PrefixAgrees(events: seq<Event>, n: nat, lo: nat, hi: nat, q: int)
    requires hi <= n <= |events|
    ensures forall name :: Routed(events[..n], lo, hi, q, name) <==> Routed(events, lo, hi, q, name)
    ensures Responded(events[..n], lo, hi, q) <==> Responded(events, lo, hi, q)
  {
  }

  lemma RoutedOnce(events: seq<Event>, i: nat, j: nat, q: int, m: string, n: string)
    requires Paired(events) && i < |events| && j < |events|
    requires events[i] == Route(q, m) && events[j] == Route(q, n)
    ensures i == j
  {
    assert PairedAt(events, i) && PairedAt(events, j);
    assert i < j ==> Routed(events, 0, j, q, m);
    assert j < i ==> Routed(events, 0, i, q, n);
  }

  lemma RoutedFirst(events: seq<Event>, q: int)
    requires events != [] && Paired(events) && events[|events| - 1].Route? && events[|events| - 1].query == q
    ensures !Responded(events, 0, |events| - 1, q)
  {
    var n := |events| - 1;
    assert PairedAt(events, n);
    if Responded(events, 0, n, q) {
      var j :| 0 <= j < n && Closes(events[j], q);
      assert PairedAt(events, j);
      var i :| 0 <= i < j && events[i] == Route(q, events[j].name);
      assert Routed(events, 0, n, q, events[j].name);
    }
  }

  /** What the last event does to the two sets. */
  lemma FlightNext(events: seq<Event>, from: nat, name: string, q: int)
    requires from < |events| - 1 && Paired(events)
    ensures var n := |events| - 1; var before, e := events[..n], events[n];
            && (q in InFlight(events, from, name) <==>
                  e == Route(q, name) || (q in InFlight(before, from, name) && !Closes(e, q)))
            && (q in Late(events, from, name) <==>
                  q in Late(before, from, name) || (Closes(e, q) && Routed(events, 0, from, q, name)))
  {
    var n := |events| - 1;
    PrefixAgrees(events, n, from, n, q);
    PrefixAgrees(events, n, 0, n, q);
    PrefixAgrees(events, n, 0, from, q);
    if events[n] == Route(q, name) {
      RoutedFirst(events, q);
    }
  }

  /** A query is routed to one node at one position. */
  lemma RoutedHere(events: seq<Event>, i: nat, lo: nat, hi: nat, q: int, m: string, n: string)
    requires Paired(events) && i < |events| && events[i] == Route(q, m)
    ensures Routed(events, lo, hi, q, n) <==> lo <= i < hi && m == n
  {
    if Routed(events, lo, hi, q, n) {
      var j :| lo <= j < hi && 0 <= j < |events| && events[j] == Route(q, n);
      RoutedOnce(events, i, j, q, m, n);
    }
  }

  /** A response finds its query in flight, or is late, according to when it was routed. */
  lemma ResponseFinds(events: seq<Event>, from: nat, name: string, q: int)
    requires from < |events| - 1 && Paired(events) && events[from].Add?
    requires Closes(events[|events| - 1], q)
    ensures var before, target := events[..|events| - 1], events[|events| - 1].name;
            && q !in Late(before, from, name)
            && (q in InFlight(before, from, name) ==> target == name && !Routed(events, 0, from, q, name))
            && (Routed(events, 0, from, q, name) ==> target == name)
            && (target == name ==> q in InFlight(before, from, name) || Routed(events, 0, from, q, name))
  {
    var n := |events| - 1;
    var target := events[n].name;
    assert PairedAt(events, n);
    var i :| 0 <= i < n && events[i] == Route(q, target);
    PrefixAgrees(events, n, from, n, q);
    PrefixAgrees(events, n, 0, n, q);
    RoutedHere(events, i, from, n, q, target, name);
    RoutedHere(events, i, 0, from, q, target, name);
  }

  lemma NotRoutedBefore(events: seq<Event>, from: nat, name: string)
    requires from < |events| - 1 && Paired(events) && events[|events| - 1].Route?
    ensures events[|events| - 1].query !in InFlight(events[..|events| - 1], from, name)
  {
    var n := |events| - 1;
    var q := events[n].query;
    assert PairedAt(events, n);
    PrefixAgrees(events, n, from, n, q);
    RoutedHere(events, n, from, n, q, events[n].name, name);
  }

  /** How many queries an event adds to those in flight on a node, late ones counting against it. */
  function Gain(e: Event, name: string): int {
    if e.name != name then 0
    else match e
      case Add(_, _) => 0
      case Route(_, _) => 1
      case Answer(_, _, reply) => if reply.NoReply? then 0 else -1
  }

  predicate Sends(e: Event, query: int, name: string) {
    e.Route? && e.query == query && e.name == name
  }

  lemma GainCounts(e: Event, name: string, early: bool, flying: set<int>, late: set<int>, flying': set<int>,
                   late': set<int>)
    requires forall q :: q in flying' <==> Sends(e, q, name) || (q in flying && !Closes(e, q))
    requires forall q :: q in late' <==> q in late || (Closes(e, q) && early)
    requires e.Route? ==> e.query !in flying
    requires e.Answer? && !e.reply.NoReply? ==>
               && e.query !in late && (e.query in flying ==> e.name == name && !early)
               && (early ==> e.name == name) && (e.name == name ==> e.query in flying || early)
    ensures |flying'| - |late'| == |flying| - |late| + Gain(e, name)
  {
    var gone := if e.Answer? && !e.reply.NoReply? then {e.query} else {};
    var f := if e.Route? && e.name == name then flying + {e.query} else flying - gone;
    var l := if early then late + gone else late;
    forall q ensures q in flying' <==> q in f ensures q in late' <==> q in l {
      assert Closes(e, q) <==> q in gone;
    }
    SameMembers(flying', f);
    SameMembers(late', l);
  }

  lemma FlightCounts(events: seq<Event>, from: nat, name: string)
    requires from < |events| - 1 && Paired(events) && events[from].Add?
    ensures var before := events[..|events| - 1];
            |InFlight(events, from, name)| - |Late(events, from, name)|
            == |InFlight(before, from, name)| - |Late(before, from, name)| + Gain(events[|events| - 1], name)
  {
    var before, e := events[..|events| - 1], events[|events| - 1];
    var early := !e.Add? && Routed(events, 0, from, e.query, name);
    var flying, late := InFlight(before, from, name), Late(before, from, name);
    var flying', late' := InFlight(events, from, name), Late(events, from, name);
    forall q
      ensures q in flying' <==> Sends(e, q, name) || (q in flying && !Closes(e, q))
      ensures q in late' <==> q in late || (Closes(e, q) && early)
    {
      FlightNext(events, from, name, q);
    }
    if e.Route? {
      NotRoutedBefore(events, from, name);
    } else if e.Answer? && !e.reply.NoReply? {
      ResponseFinds(events, from, name, e.query);
    }
    GainCounts(e, name, early, flying, late, flying', late');
  }

  lemma PairedPrefix(events: seq<Event>, n: nat)
    requires Paired(events) && n <= |events|
    ensures Paired(events[..n])
  {
    forall i | 0 <= i < n ensures PairedAt(events[..n], i) {
      assert PairedAt(events, i);
      if !events[i].Add? {
        PrefixAgrees(events, n, 0, i, events[i].query);
      }
    }
  }

  /** The node was last added at that position. */
  ghost predicate LastAdded(events: seq<Event>, from: nat, name: string) {
    && from < |events| && events[from].Add? && events[from].name == name
    && forall i :: from < i < |events| ==> !(events[i].Add? && events[i].name == name)
  }

  /** MAIN RESULT. In every run a node's connections are those it was last added with, plus the
      queries routed to it since that have no response yet, less those routed to its predecessor of
      the same name whose response came only after. */
  lemma {:induction false} ConnectionsCount(cfg: Config, events: seq<Event>, states: seq<Nodes>, name: string,
                                            from: nat)
    requires IsRun(cfg, events, states) && Paired(events) && name != "" && LastAdded(events, from, name)
    ensures name in states[|events|]
    ensures states[|events|][name].connections
            == events[from].node.connections + |InFlight(events, from, name)| - |Late(events, from, name)|
    decreases |events|
  {
    var n := |events| - 1;
    RunPrefix(cfg, events, states);
    if from == n {
      NothingSince(events, name);
    } else {
      PairedPrefix(events, n);
      ConnectionsCount(cfg, events[..n], states[..n + 1], name, from);
      FlightCounts(events, from, name);
    }
  }

  lemma NothingSince(events: seq<Event>, name: string)
    requires events != [] && events[|events| - 1].Add?
    ensures InFlight(events, |events| - 1, name) == {} && Late(events, |events| - 1, name) == {}
  {
  }

  /** The queries routed to the node before that position that still have no response at the end. */
  ghost function Pending(events: seq<Event>, from: nat, name: string): set<int> {
    set q | q in Queries(events) && Routed(events, 0, from, q, name) && !Responded(events, 0, |events|, q)
  }

  /** A query has one response, so one that comes later is the only one. */
  lemma RespondedLate(events: seq<Event>, from: nat, q: int)
    requires Paired(events) && from <= |events| && Responded(events, from, |events|, q)
    ensures !Responded(events, 0, from, q)
  {
    var j :| from <= j < |events| && Closes(events[j], q);
    assert PairedAt(events, j);
    if Responded(events, 0, from, q) {
      assert Responded(events, 0, j, q);
    }
  }

  /** All queries in flight are those routed since the position and those pending from before it. */
  lemma FlightSplits(events: seq<Event>, from: nat, name: string)
    requires Paired(events) && from < |events|
    ensures |InFlight(events, 0, name)| == |InFlight(events, from, name)| + |Pending(events, from, name)|
  {
    var since, before := InFlight(events, from, name), Pending(events, from, name);
    forall q ensures q in InFlight(events, 0, name) <==> q in since + before
             ensures !(q in since && q in before)
    {
      if q in since {
        var i :| from <= i < |events| && events[i] == Route(q, name);
        RoutedHere(events, i, 0, from, q, name, name);
      }
    }
    SameMembers(InFlight(events, 0, name), since + before);
    assert since !! before;
  }

  /** Those in flight at the position are the ones still pending at the end and the late ones. */
  lemma EarlierFlightSplits(events: seq<Event>, from: nat, name: string)
    requires Paired(events) && from < |events|
    ensures |InFlight(events[..from], 0, name)| == |Pending(events, from, name)| + |Late(events, from, name)|
  {
    var pending, late := Pending(events, from, name), Late(events, from, name);
    forall q ensures q in InFlight(events[..from], 0, name) <==> q in pending + late
             ensures !(q in pending && q in late)
    {
      PrefixAgrees(events, from, 0, from, q);
      if q in late {
        RespondedLate(events, from, q);
      }
    }
    SameMembers(InFlight(events[..from], 0, name), pending + late);
    assert pending !! late;
  }

  /** MAIN RESULT. In every run a node's connections are the queries in flight on it exactly when it
      was last added with as many connections as there were queries in flight on its name then. */
  lemma ConnectionsAreInFlightExactly(cfg: Config, events: seq<Event>, states: seq<Nodes>, name: string, from: nat)
    requires IsRun(cfg, events, states) && Paired(events) && name != "" && LastAdded(events, from, name)
    ensures name in states[|events|]
    ensures states[|events|][name].connections == |InFlight(events, 0, name)|
            <==> events[from].node.connections == |InFlight(events[..from], 0, name)|
  {
    ConnectionsCount(cfg, events, states, name, from);
    FlightSplits(events, from, name);
    EarlierFlightSplits(events, from, name);
  }

  ghost predicate AddedOnce(events: seq<Event>, from: nat, name: string) {
    LastAdded(events, from, name) && forall i :: 0 <= i < from ==> !(events[i].Add? && events[i].name == name)
  }

  lemma {:induction false} UnknownBeforeAdded(cfg: Config, events: seq<Event>, states: seq<Nodes>, name: string,
                                              from: nat, i: nat)
    requires IsRun(cfg, events, states) && states[0] == map[] && AddedOnce(events, from, name) && i <= from
    ensures name !in states[i]
  {
    if i > 0 {
      UnknownBeforeAdded(cfg, events, states, name, from, i - 1);
      assert Happens(cfg, states[i - 1], events[i - 1], states[i - 1 + 1]);
    }
  }

  /** So in a run from an empty engine, a node added once, and idle, has as many connections as there
      are queries routed to it without a response yet; in particular never fewer than none. */
  lemma ConnectionsAreInFlight(cfg: Config, events: seq<Event>, states: seq<Nodes>, name: string, from: nat)
    requires IsRun(cfg, events, states) && states[0] == map[] && Paired(events)
    requires name != "" && AddedOnce(events, from, name) && events[from].node.connections == 0
    ensures name in states[|events|] && states[|events|][name].connections == |InFlight(events, 0, name)|
  {
    forall i | 0 <= i < from ensures !(events[i].Route? && events[i].name == name) {
      UnknownBeforeAdded(cfg, events, states, name, from, i);
      assert Happens(cfg, states[i], events[i], states[i + 1]);
    }
    var earlier := InFlight(events[..from], 0, name);
    forall q ensures q !in earlier {
    }
    assert earlier == {};
    ConnectionsAreInFlightExactly(cfg, events, states, name, from);
  }

  /** A node replaced while a query was in flight ends up with a negative count. */
  lemma ReplacedNodeGoesNegative(cfg: Config)
    requires cfg.enabled && cfg.strategy == "least_connections" && cfg.maxLatencyMs >= 0
    ensures var idle := Node(0, 0, 1, true);
            var events := [Add("a", idle), Route(7, "a"), Add("a", idle), Answer(7, "a", Instant)];
            var states := [map[], map["a" := idle], map["a" := idle.(connections := 1)], map["a" := idle],
                           map["a" := idle.(connections := -1)]];
            IsRun(cfg, events, states) && Paired(events)
  {
    var idle := Node(0, 0, 1, true);
    var events := [Add("a", idle), Route(7, "a"), Add("a", idle), Answer(7, "a", Instant)];
    assert Eligible(cfg, map["a" := idle]) == {"a"};
    assert events[1] == Route(7, "a");
    assert Routed(events, 0, 3, 7, "a");
  }

  // ---- a node's other fields as a history

  /** The latency the last measured response since the given position brought, or the given one. */
  function LatencyAfter(events: seq<Event>, from: nat, name: string, first: int): int {
    if |events| <= from + 1 then first
    else
      var e := events[|events| - 1];
      if e.Answer? && e.name == name && e.reply.Took? then e.reply.latencyMs
      else LatencyAfter(events[..|events| - 1], from, name, first)
  }

  /** In every run a node keeps the weight it was last added with, is healthy since, and has the latency
      of the last measured response of its queries. */
  lemma {:induction false} NodeIsHistory(cfg: Config, events: seq<Event>, states: seq<Nodes>, name: string, from: nat)
    requires IsRun(cfg, events, states) && name != "" && LastAdded(events, from, name)
    ensures name in states[|events|]
    ensures var n, added := states[|events|][name], events[from].node;
            && n.weight == added.weight && n.isHealthy
            && n.latencyMs == LatencyAfter(events, from, name, added.latencyMs)
    decreases |events|
  {
    var n := |events| - 1;
    RunPrefix(cfg, events, states);
    if from < n {
      NodeIsHistory(cfg, events[..n], states[..n + 1], name, from);
    }
  }

  /** A query goes only to a healthy node within the latency limit and only when the engine is on; it
      goes nowhere only if it is off or no such node exists (or one without a name). */
  lemma RoutesExactlyToEligible(cfg: Config, nodes: Nodes, query: int, name: string, nodes': Nodes)
    requires Happens(cfg, nodes, Route(query, name), nodes')
    ensures name != "" ==> cfg.enabled && name in nodes && nodes[name].isHealthy
    ensures name != "" ==> nodes[name].latencyMs <= cfg.maxLatencyMs
    ensures name == "" ==> nodes' == nodes
    ensures name == "" && cfg.enabled && "" !in nodes ==>
              forall n :: n in nodes ==> !nodes[n].isHealthy || nodes[n].latencyMs > cfg.maxLatencyMs
  {
    if name == "" && cfg.enabled && "" !in nodes {
      forall n | n in nodes ensures n !in Eligible(cfg, nodes) {
      }
    }
  }

  // ---- totals

  /** The connections of all nodes together. */
  ghost function Total(nodes: Nodes): int {
    if nodes == map[] then 0
    else
      var k :| k in nodes;
      nodes[k].connections + Total(nodes - {k})
  }

  lemma {:induction false} TotalTakesOut(nodes: Nodes, k: string)
    requires k in nodes
    ensures Total(nodes) == nodes[k].connections + Total(nodes - {k})
    decreases |nodes|
  {
    var j :| j in nodes && Total(nodes) == nodes[j].connections + Total(nodes - {j});
    if j != k {
      TotalTakesOut(nodes - {j}, k);
      TotalTakesOut(nodes - {k}, j);
      assert nodes - {j} - {k} == nodes - {k} - {j};
    }
  }

  lemma TotalOfConnect(nodes: Nodes, k: string)
    requires k in nodes
    ensures Total(Connect(nodes, k)) == Total(nodes) + 1
  {
    TotalTakesOut(nodes, k);
    TotalTakesOut(Connect(nodes, k), k);
    assert Connect(nodes, k) - {k} == nodes - {k};
  }

  function AtLevel(nodes: Nodes, level: int): set<string> {
    set n | n in nodes && nodes[n].connections == level
  }

  lemma AtLevelTakesOut(nodes: Nodes, k: string, level: int)
    requires k in nodes
    ensures |AtLevel(nodes, level)| == |AtLevel(nodes - {k}, level)| + if nodes[k].connections == level then 1 else 0
  {
    if nodes[k].connections == level {
      assert AtLevel(nodes, level) == AtLevel(nodes - {k}, level) + {k};
    } else {
      assert AtLevel(nodes, level) == AtLevel(nodes - {k}, level);
    }
  }

  lemma OneNodeFewer(nodes: Nodes, k: string, low: int)
    requires k in nodes
    ensures |nodes - {k}| == |nodes| - 1 && |nodes| * low == |nodes - {k}| * low + low
  {
  }

  /** If every node has `low` or one more, the total counts the latter. */
  lemma {:induction false} TotalOfTwoLevels(nodes: Nodes, low: int)
    requires forall n :: n in nodes ==> low <= nodes[n].connections <= low + 1
    ensures Total(nodes) == |nodes| * low + |AtLevel(nodes, low + 1)|
    decreases |nodes|
  {
    if nodes != map[] {
      var k :| k in nodes;
      OneNodeFewer(nodes, k, low);
      TotalTakesOut(nodes, k);
      AtLevelTakesOut(nodes, k, low + 1);
      TotalOfTwoLevels(nodes - {k}, low);
    }
  }

  // ---- routing without answers

  /** A run of routings that find a node. */
  ghost predicate Routings(cfg: Config, targets: seq<string>, states: seq<Nodes>) {
    && |states| == |targets| + 1
    && forall i :: 0 <= i < |targets| ==> MayRoute(cfg, states[i], targets[i], states[i + 1])
  }

  lemma RoutingsPrefix(cfg: Config, targets: seq<string>, states: seq<Nodes>)
    requires targets != [] && Routings(cfg, targets, states)
    ensures Routings(cfg, targets[..|targets| - 1], states[..|states| - 1])
    ensures var m := |targets| - 1; MayRoute(cfg, states[m], targets[m], states[m + 1])
  {
  }

  ghost predicate AllEligible(cfg: Config, nodes: Nodes) {
    nodes != map[] && "" !in nodes && Eligible(cfg, nodes) == nodes.Keys
  }

  ghost predicate AllIdle(nodes: Nodes) {
    forall n :: n in nodes ==> nodes[n].connections == 0
  }

  ghost predicate TwoLevels(nodes: Nodes, low: int) {
    && (forall n :: n in nodes ==> low <= nodes[n].connections <= low + 1)
    && exists n :: n in nodes && nodes[n].connections == low
  }

  /** The lowest level after one more connection on a node that had it. */
  lemma RouteKeepsTwoLevels(nodes: Nodes, target: string, low: int) returns (low': int)
    requires TwoLevels(nodes, low) && target in nodes && nodes[target].connections == low
    ensures TwoLevels(Connect(nodes, target), low')
  {
    var after := Connect(nodes, target);
    if n :| n in nodes && n != target && nodes[n].connections == low {
      low' := low;
      assert after[n].connections == low;
    } else {
      low' := low + 1;
      assert after[target].connections == low + 1;
    }
  }

  lemma {:induction false} IdleTotal(nodes: Nodes)
    requires AllIdle(nodes)
    ensures Total(nodes) == 0
    decreases |nodes|
  {
    if nodes != map[] {
      var k :| k in nodes;
      TotalTakesOut(nodes, k);
      IdleTotal(nodes - {k});
    }
  }

  lemma {:induction false} RoutingsStayLevel(cfg: Config, targets: seq<string>, states: seq<Nodes>) returns (low: int)
    requires cfg.strategy == "least_connections" && Routings(cfg, targets, states)
    requires AllEligible(cfg, states[0]) && AllIdle(states[0])
    ensures var s := states[|targets|];
            AllEligible(cfg, s) && s.Keys == states[0].Keys && Total(s) == |targets| && TwoLevels(s, low)
  {
    if targets == [] {
      low := 0;
      IdleTotal(states[0]);
      var n :| n in states[0];
    } else {
      var m := |targets| - 1;
      RoutingsPrefix(cfg, targets, states);
      var low0 := RoutingsStayLevel(cfg, targets[..m], states[..m + 1]);
      low := RouteKeepsTwoLevels(states[m], targets[m], low0);
      TotalOfConnect(states[m], targets[m]);
    }
  }

  /** MAIN RESULT. Under least_connections, m routings of idle eligible nodes spread evenly: every
      node of the n gets m/n, and m%n of them one more. */
  lemma LeastConnectionsSpreadsEvenly(cfg: Config, targets: seq<string>, states: seq<Nodes>)
    requires cfg.strategy == "least_connections" && Routings(cfg, targets, states)
    requires AllEligible(cfg, states[0]) && AllIdle(states[0])
    ensures |states[0]| > 0
    ensures var s, m, n := states[|targets|], |targets|, |states[0]|;
            && s.Keys == states[0].Keys
            && (forall k :: k in s ==> s[k].connections == m / n || s[k].connections == m / n + 1)
            && |AtLevel(s, m / n + 1)| == m % n
  {
    var s, m, n := states[|targets|], |targets|, |states[0]|;
    var low := RoutingsStayLevel(cfg, targets, states);
    TotalOfTwoLevels(s, low);
    assert |s| == |s.Keys| == n;
    var k :| k in s && s[k].connections == low;
    assert k !in AtLevel(s, low + 1);
    assert AtLevel(s, low + 1) < s.Keys;
    ProperSubsetSize(AtLevel(s, low + 1), s.Keys);
    DivisionIsUnique(m, n, low, |AtLevel(s, low + 1)|);
  }

  /** One node is strictly ahead: its share of connections per weight exceeds every other's. */
  ghost predicate Ahead(nodes: Nodes, x: string) {
    && x in nodes
    && (forall n :: n in nodes ==> nodes[n].weight > 0 && nodes[n].connections >= 0)
    && forall n :: n in nodes && n != x ==>
         nodes[n].connections / nodes[n].weight < nodes[x].connections / nodes[x].weight
  }

  lemma WeightedPicksTheAhead(cfg: Config, nodes: Nodes, x: string, target: string)
    requires cfg.strategy == "weighted" && AllEligible(cfg, nodes) && Ahead(nodes, x)
    requires Weighable(cfg, nodes) && MaySelect(cfg, nodes, target)
    ensures target == x && Ahead(Connect(nodes, x), x)
  {
    assert x in Eligible(cfg, nodes);
    assert Value(cfg, nodes[target]) <= Value(cfg, nodes[x]);
    QuotientGrows(nodes[x].connections, nodes[x].weight);
  }

  /** What routing a while without balancing leaves: one node took everything. */
  ghost predicate TookAll(cfg: Config, before: Nodes, after: Nodes, x: string, m: nat) {
    && AllEligible(cfg, after) && Ahead(after, x) && after.Keys == before.Keys && x in before
    && after[x].connections == before[x].connections + m
    && forall n :: n in after && n != x ==> after[n] == before[n]
  }

  lemma TakesOneMore(cfg: Config, before: Nodes, s: Nodes, x: string, m: nat, target: string, s': Nodes)
    requires cfg.strategy == "weighted" && TookAll(cfg, before, s, x, m) && MayRoute(cfg, s, target, s')
    ensures target == x && TookAll(cfg, before, s', x, m + 1)
  {
    WeightedPicksTheAhead(cfg, s, x, target);
  }

  /** Under the weighted strategy the node that is ahead gets every further query. */
  lemma {:induction false} WeightedHerds(cfg: Config, targets: seq<string>, states: seq<Nodes>, x: string)
    requires cfg.strategy == "weighted" && Routings(cfg, targets, states)
    requires AllEligible(cfg, states[0]) && Ahead(states[0], x)
    ensures forall i :: 0 <= i < |targets| ==> targets[i] == x
    ensures TookAll(cfg, states[0], states[|targets|], x, |targets|)
  {
    if targets != [] {
      var m := |targets| - 1;
      RoutingsPrefix(cfg, targets, states);
      WeightedHerds(cfg, targets[..m], states[..m + 1], x);
      TakesOneMore(cfg, states[0], states[m], x, m, targets[m], states[m + 1]);
      forall i | 0 <= i < |targets| ensures targets[i] == x {
        assert i < m ==> targets[..m][i] == targets[i];
      }
    }
  }

  /** No node has reached its weight yet. */
  ghost predicate BelowWeights(nodes: Nodes) {
    forall n :: n in nodes ==> 0 <= nodes[n].connections < nodes[n].weight
  }

  /** One node has reached its weight and the others have not. */
  ghost predicate Herds(nodes: Nodes, x: string) {
    && x in nodes && nodes[x].connections >= nodes[x].weight > 0
    && forall n :: n in nodes && n != x ==> 0 <= nodes[n].connections < nodes[n].weight
  }

  lemma HerdsIsAhead(nodes: Nodes, x: string)
    requires Herds(nodes, x)
    ensures Ahead(nodes, x)
  {
  }

  /** The total of the weights, less one each: what can be routed with no node reaching its weight. */
  ghost function Slack(nodes: Nodes): int {
    if nodes == map[] then 0
    else
      var k :| k in nodes;
      nodes[k].weight - 1 + Slack(nodes - {k})
  }

  ghost predicate SameWeights(a: Nodes, b: Nodes) {
    a.Keys == b.Keys && forall n :: n in a ==> a[n].weight == b[n].weight
  }

  lemma {:induction false} TotalWithinSlack(nodes: Nodes, later: Nodes)
    requires SameWeights(nodes, later) && BelowWeights(later)
    ensures Total(later) <= Slack(nodes)
    decreases |nodes|
  {
    if nodes != map[] {
      var k :| k in nodes && Slack(nodes) == nodes[k].weight - 1 + Slack(nodes - {k});
      TotalTakesOut(later, k);
      TotalWithinSlack(nodes - {k}, later - {k});
    }
  }

  /** Where routing weighted nodes from idle has got to: no node at its weight, or the node of the
      latest query alone. */
  ghost predicate Progressed(cfg: Config, start: Nodes, s: Nodes, m: nat, latest: string) {
    && AllEligible(cfg, s) && SameWeights(start, s) && Total(s) == m
    && (BelowWeights(s) || (m > 0 && Herds(s, latest)))
  }

  lemma WeightedStep(cfg: Config, start: Nodes, s: Nodes, m: nat, latest: string, x: string)
    requires Progressed(cfg, start, s, m, latest) && x in s && (BelowWeights(s) || x == latest)
    ensures Progressed(cfg, start, Connect(s, x), m + 1, x)
  {
    TotalOfConnect(s, x);
  }

  lemma {:induction false} WeightedProgress(cfg: Config, targets: seq<string>, states: seq<Nodes>, m: nat)
    requires cfg.strategy == "weighted" && Routings(cfg, targets, states) && m <= |targets|
    requires AllEligible(cfg, states[0]) && AllIdle(states[0]) && forall n :: n in states[0] ==> states[0][n].weight > 0
    ensures Progressed(cfg, states[0], states[m], m, if m > 0 then targets[m - 1] else "")
  {
    if m == 0 {
      IdleTotal(states[0]);
    } else {
      var n := m - 1;
      var s, x, latest := states[n], targets[n], if n > 0 then targets[n - 1] else "";
      WeightedProgress(cfg, targets, states, n);
      assert MayRoute(cfg, s, x, states[n + 1]);
      if !BelowWeights(s) {
        HerdsIsAhead(s, latest);
        WeightedPicksTheAhead(cfg, s, latest, x);
      }
      WeightedStep(cfg, states[0], s, n, latest, x);
    }
  }

  lemma StepHerds(cfg: Config, targets: seq<string>, states: seq<Nodes>, m: nat)
    requires cfg.strategy == "weighted" && Routings(cfg, targets, states)
    requires AllEligible(cfg, states[0]) && AllIdle(states[0]) && forall n :: n in states[0] ==> states[0][n].weight > 0
    requires 0 <= Slack(states[0]) < m <= |targets|
    ensures SameWeights(states[0], states[m]) && Total(states[m]) == m && Herds(states[m], targets[m - 1])
    ensures AllEligible(cfg, states[m])
  {
    WeightedProgress(cfg, targets, states, m);
    if BelowWeights(states[m]) {
      TotalWithinSlack(states[0], states[m]);
    }
  }

  lemma {:induction false} AllToOne(cfg: Config, targets: seq<string>, states: seq<Nodes>, i: nat)
    requires cfg.strategy == "weighted" && Routings(cfg, targets, states)
    requires AllEligible(cfg, states[0]) && AllIdle(states[0]) && forall n :: n in states[0] ==> states[0][n].weight > 0
    requires 0 <= Slack(states[0]) <= i < |targets|
    ensures targets[i] == targets[Slack(states[0])]
  {
    if i > Slack(states[0]) {
      AllToOne(cfg, targets, states, i - 1);
      StepHerds(cfg, targets, states, i);
      HerdsIsAhead(states[i], targets[i - 1]);
      assert MayRoute(cfg, states[i], targets[i], states[i + 1]);
      WeightedPicksTheAhead(cfg, states[i], targets[i - 1], targets[i]);
    }
  }

  /** MAIN RESULT. The weighted strategy does the opposite of balancing: from idle nodes of any
      positive weights, after as many routings as their weights less one each come to, every query
      goes to one node, and no other node ever has as many connections as its weight. For unit
      weights that is every query from the first on. */
  lemma WeightedSendsAllToOne(cfg: Config, targets: seq<string>, states: seq<Nodes>)
    requires cfg.strategy == "weighted" && Routings(cfg, targets, states)
    requires AllEligible(cfg, states[0]) && AllIdle(states[0]) && forall n :: n in states[0] ==> states[0][n].weight > 0
    requires |targets| > Slack(states[0])
    ensures 0 <= Slack(states[0])
    ensures forall i :: Slack(states[0]) <= i < |targets| ==> targets[i] == targets[Slack(states[0])]
    ensures var s, x := states[|targets|], targets[Slack(states[0])];
            x in s && forall n :: n in s && n != x ==> 0 <= s[n].connections < s[n].weight
  {
    TotalWithinSlack(states[0], states[0]);
    IdleTotal(states[0]);
    forall i | Slack(states[0]) <= i < |targets| ensures targets[i] == targets[Slack(states[0])] {
      AllToOne(cfg, targets, states, i);
    }
    StepHerds(cfg, targets, states, |targets|);
  }

  lemma {:induction false} UnitWeightsHaveNoSlack(nodes: Nodes)
    requires forall n :: n in nodes ==> nodes[n].weight == 1
    ensures Slack(nodes) == 0
    decreases |nodes|
  {
    if nodes != map[] {
      var k :| k in nodes && Slack(nodes) == nodes[k].weight - 1 + Slack(nodes - {k});
      UnitWeightsHaveNoSlack(nodes - {k});
    }
  }

  /** With unit weights the node of the first query gets all of them. */
  lemma UnitWeightsSendAllToFirst(cfg: Config, targets: seq<string>, states: seq<Nodes>)
    requires cfg.strategy == "weighted" && Routings(cfg, targets, states) && targets != []
    requires AllEligible(cfg, states[0]) && AllIdle(states[0])
    requires forall n :: n in states[0] ==> states[0][n].weight == 1
    ensures forall i :: 0 <= i < |targets| ==> targets[i] == targets[0]
    ensures Total(states[|targets|]) == |targets|
    ensures var s, x := states[|targets|], targets[0];
            x in s && forall n :: n in s && n != x ==> s[n].connections == 0
  {
    UnitWeightsHaveNoSlack(states[0]);
    WeightedSendsAllToOne(cfg, targets, states);
    StepHerds(cfg, targets, states, |targets|);
  }

  lemma {:induction false} FullUsesSlack(nodes: Nodes, later: Nodes)
    requires SameWeights(nodes, later) && forall n :: n in later ==> later[n].connections >= later[n].weight - 1
    ensures Total(later) >= Slack(nodes)
    decreases |nodes|
  {
    if nodes != map[] {
      var k :| k in nodes && Slack(nodes) == nodes[k].weight - 1 + Slack(nodes - {k});
      TotalTakesOut(later, k);
      FullUsesSlack(nodes - {k}, later - {k});
    }
  }

  lemma BelowMayRoute(cfg: Config, nodes: Nodes, target: string)
    requires cfg.enabled && cfg.strategy == "weighted" && AllEligible(cfg, nodes) && BelowWeights(nodes)
    requires target in nodes
    ensures MayRoute(cfg, nodes, target, Connect(nodes, target))
  {
    forall n | n in nodes ensures Value(cfg, nodes[n]) == 100 {
      DivisionIsUnique(nodes[n].connections, nodes[n].weight, 0, nodes[n].connections);
    }
  }

  lemma RoomForOne(cfg: Config, nodes: Nodes, s: Nodes, m: nat) returns (x: string)
    requires cfg.enabled && cfg.strategy == "weighted" && AllEligible(cfg, s) && BelowWeights(s)
    requires SameWeights(nodes, s) && Total(s) == m < Slack(nodes)
    ensures var s' := Connect(s, x);
            && MayRoute(cfg, s, x, s') && AllEligible(cfg, s') && BelowWeights(s')
            && SameWeights(nodes, s') && Total(s') == m + 1
  {
    if forall n :: n in s ==> s[n].connections >= s[n].weight - 1 {
      FullUsesSlack(nodes, s);
      assert false;
    }
    x :| x in s && s[x].connections < s[x].weight - 1;
    BelowMayRoute(cfg, s, x);
    TotalOfConnect(s, x);
  }

  /** Before that many routings no node need have reached its weight, whatever the weights. */
  lemma {:induction false} SlackIsReached(cfg: Config, nodes: Nodes, m: nat)
    returns (targets: seq<string>, states: seq<Nodes>)
    requires cfg.enabled && cfg.strategy == "weighted" && AllEligible(cfg, nodes) && AllIdle(nodes)
    requires (forall n :: n in nodes ==> nodes[n].weight > 0) && m <= Slack(nodes)
    ensures Routings(cfg, targets, states) && states[0] == nodes && |targets| == m
    ensures BelowWeights(states[m]) && AllEligible(cfg, states[m])
    ensures SameWeights(nodes, states[m]) && Total(states[m]) == m
  {
    if m == 0 {
      targets, states := [], [nodes];
      IdleTotal(nodes);
    } else {
      targets, states := SlackIsReached(cfg, nodes, m - 1);
      var x := RoomForOne(cfg, nodes, states[m - 1], m - 1);
      targets, states := ExtendRoutings(cfg, targets, states, x);
    }
  }

  lemma ExtendRoutings(cfg: Config, targets: seq<string>, states: seq<Nodes>, x: string)
    returns (more: seq<string>, after: seq<Nodes>)
    requires Routings(cfg, targets, states)
    requires MayRoute(cfg, states[|targets|], x, Connect(states[|targets|], x))
    ensures more == targets + [x] && after == states + [Connect(states[|targets|], x)]
    ensures Routings(cfg, more, after)
  {
    more, after := targets + [x], states + [Connect(states[|targets|], x)];
    forall i | 0 <= i < |more| ensures MayRoute(cfg, after[i], more[i], after[i + 1]) {
      assert i < |targets| ==> MayRoute(cfg, states[i], targets[i], states[i + 1]);
    }
  }

  /** Every other strategy name, round_robin included, allows any eligible node every time ... */
  lemma RoundRobinIsAnyNode(cfg: Config, nodes: Nodes, target: string)
    requires cfg.strategy == "round_robin" && AllEligible(cfg, nodes)
    ensures MaySelect(cfg, nodes, target) <==> target in nodes
  {
  }

  lemma RoundRobinRoutes(cfg: Config, nodes: Nodes, target: string)
    requires cfg.enabled && cfg.strategy == "round_robin" && AllEligible(cfg, nodes) && target in nodes
    ensures MayRoute(cfg, nodes, target, Connect(nodes, target)) && AllEligible(cfg, Connect(nodes, target))
  {
    RoundRobinIsAnyNode(cfg, nodes, target);
  }

  /** ... so exactly the sequences of registered nodes can be routed to, in whatever order and share. */
  lemma {:induction false} RoundRobinAllowsAnySequence(cfg: Config, nodes: Nodes, targets: seq<string>)
    requires cfg.enabled && cfg.strategy == "round_robin" && AllEligible(cfg, nodes)
    ensures (exists states :: Routings(cfg, targets, states) && states[0] == nodes) <==>
              forall t :: t in targets ==> t in nodes
  {
    if states :| Routings(cfg, targets, states) && states[0] == nodes {
      forall i | 0 <= i < |targets| ensures targets[i] in nodes {
        RoundRobinKeepsNodes(cfg, targets, states, i);
      }
    }
    if forall t :: t in targets ==> t in nodes {
      var states := RoundRobinRun(cfg, nodes, targets);
    }
  }

  lemma {:induction false} RoundRobinKeepsNodes(cfg: Config, targets: seq<string>, states: seq<Nodes>, i: nat)
    requires cfg.strategy == "round_robin" && Routings(cfg, targets, states) && i <= |targets|
    requires AllEligible(cfg, states[0])
    ensures states[i].Keys == states[0].Keys && AllEligible(cfg, states[i])
    ensures i < |targets| ==> targets[i] in states[0]
  {
    if i > 0 {
      RoundRobinKeepsNodes(cfg, targets, states, i - 1);
      assert MayRoute(cfg, states[i - 1], targets[i - 1], states[i - 1 + 1]);
    }
    if i < |targets| {
      assert MayRoute(cfg, states[i], targets[i], states[i + 1]);
    }
  }

  lemma {:induction false} RoundRobinRun(cfg: Config, nodes: Nodes, targets: seq<string>) returns (states: seq<Nodes>)
    requires cfg.enabled && cfg.strategy == "round_robin" && AllEligible(cfg, nodes)
    requires forall t :: t in targets ==> t in nodes
    ensures Routings(cfg, targets, states) && states[0] == nodes
    ensures AllEligible(cfg, states[|targets|]) && states[|targets|].Keys == nodes.Keys
  {
    states := [nodes];
    if targets != [] {
      var m := |targets| - 1;
      states := RoundRobinRun(cfg, nodes, targets[..m]);
      RoundRobinRoutes(cfg, states[m], targets[m]);
      var more, after := ExtendRoutings(cfg, targets[..m], states, targets[m]);
      assert more == targets;
      states := after;
    }
  }
}
