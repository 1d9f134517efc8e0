/** Load balancer: nodes as objects whose counters are updated in place. */
module LoadBalancerEngine {
  import opened Arithmetic
  import opened LoadBalancerModel

  class LBNode {
    const name: string
    var connections: int
    var latencyMs: int
    var weight: int
    var isHealthy: bool

    constructor (name: string, connections: int, latencyMs: int, weight: int)
      ensures this.name == name && View() == Node(connections, latencyMs, weight, false)
    {
      this.name, this.weight := name, weight;
      this.connections, this.latencyMs, this.isHealthy := connections, latencyMs, false;
    }

    ghost function View(): Node
      reads this
    {
      Node(connections, latencyMs, weight, isHealthy)
    }
  }

  class Engine {
    const config: Config
    var nodes: map<string, LBNode>
    var requestsRouted: int

    /** Nodes are filed under their own names, so no two names share one. */
    ghost predicate Valid()
      reads this
    {
      forall n :: n in nodes ==> nodes[n].name == n
    }

    ghost function View(): Nodes
      reads this, nodes.Values
    {
      map n | n in nodes :: nodes[n].View()
    }

    constructor (config: Config)
      ensures Valid() && this.config == config && View() == map[] && requestsRouted == 0
    {
      this.config, nodes, requestsRouted := config, map[], 0;
    }

    method AddNode(node: LBNode)
      requires Valid()
      modifies this`nodes, node
      ensures Valid() && nodes == old(nodes)[node.name := node]
      ensures Happens(config, old(View()), Add(node.name, old(node.View())), View())
    {
      ghost var before := View();
      node.isHealthy := true;
      nodes := nodes[node.name := node];
      assert View() == before[node.name := node.View()];
    }

    method ValueOf(node: LBNode) returns (value: int)
      requires config.strategy == "weighted" ==> node.weight != 0
      ensures value == Value(config, node.View())
    {
      match config.strategy {
        case "round_robin" => value := 0;
        case "least_connections" => value := node.connections;
        case "least_latency" => value := node.latencyMs;
        case "weighted" => value := 100 - TruncDiv(node.connections, node.weight);
        case _ => value := 0;
      }
    }

    method SelectNode() returns (bestNode: string)
      requires Valid() && Weighable(config, View())
      ensures MaySelect(config, View(), bestNode)
    {
      bestNode := "";
      var bestValue := 0;
      var rest := nodes.Keys;
      ghost var all := View();
      while rest != {}
        invariant rest <= nodes.Keys
        invariant MayHold(config, all, Eligible(config, all) - rest, bestNode)
        invariant bestNode != "" ==> bestValue == Value(config, all[bestNode])
        decreases rest
      {
        var name :| name in rest;
        rest := rest - {name};
        var node := nodes[name];
        assert all[name] == node.View();
        if !node.isHealthy {
          continue;
        }
        if node.latencyMs > config.maxLatencyMs {
          continue;
        }
        assert name in Eligible(config, all);
        var value := ValueOf(node);
        if bestNode == "" || value < bestValue {
          bestValue := value;
          bestNode := name;
        }
      }
    }

    /** Routing one query: it goes on to the chosen node, or with no target if the engine is off, and
        is stopped when no node was found. */
    method Process(ghost query: int) returns (proceed: bool, target: string)
      requires Valid() && (config.enabled ==> Weighable(config, View()))
      modifies this`requestsRouted, nodes.Values
      ensures Valid() && Happens(config, old(View()), Route(query, target), View())
      ensures proceed <==> !config.enabled || target != ""
      ensures requestsRouted == old(requestsRouted) + if target == "" then 0 else 1
    {
      if !config.enabled {
        return true, "";
      }
      target := SelectNode();
      if target == "" {
        return false, "";
      }
      OpenConnection(target);
      requestsRouted := requestsRouted + 1;
      proceed := true;
    }

    method OpenConnection(target: string)
      requires Valid()
      modifies nodes.Values
      ensures View() == Connect(old(View()), target)
    {
      ghost var before := View();
      if target in nodes {
        var node := nodes[target];
        node.connections := node.connections + 1;
        assert View() == before[target := node.View()];
      }
    }

    /** The end of a query routed to the target; a query without a response keeps its connection, and
        a positive duration updates the latency. */
    method ProcessResponse(ghost query: int, target: string, reply: Reply)
      requires Valid()
      modifies nodes.Values
      ensures Valid() && Happens(config, old(View()), Answer(query, target, reply), View())
    {
      ghost var before := View();
      if !reply.NoReply? {
        if target in nodes {
          var node := nodes[target];
          node.connections := node.connections - 1;
          if reply.Took? {
            node.latencyMs := reply.latencyMs;
          }
          assert View() == before[target := node.View()];
        }
      }
    }
  }
}
