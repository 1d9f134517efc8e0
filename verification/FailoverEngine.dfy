/** Failover engine: nodes as objects updated in place. */
module FailoverEngine {
  import opened FailoverModel

  class DatabaseNode {
    const name: string
    var isPrimary: bool
    var isHealthy: bool
    var failCount: int

    constructor (name: string, isPrimary: bool, failCount: int)
      ensures this.name == name && View() == Node(isPrimary, false, failCount)
    {
      this.name, this.isPrimary, this.isHealthy, this.failCount := name, isPrimary, false, failCount;
    }

    ghost function View(): Node
      reads this
    {
      Node(isPrimary, isHealthy, failCount)
    }
  }

  class Engine {
    const config: Config
    var databases: map<string, DatabaseNode>
    var primary: string
    var failoverInProgress: bool
    var sourceNode: string
    var targetNode: string
    var triggered: int
    var successful: int
    var failed: int

    /** Nodes are filed under their own names, so no two names share one. */
    ghost predicate Valid()
      reads this
    {
      forall n :: n in databases ==> databases[n].name == n
    }

    ghost function Nodes(): map<string, Node>
      reads this, databases.Values
    {
      map n | n in databases :: databases[n].View()
    }

    ghost function View(): State
      reads this, databases.Values
    {
      State(Nodes(), primary, failoverInProgress, sourceNode, targetNode, Stats(triggered, successful, failed))
    }

    constructor (config: Config)
      ensures Valid() && this.config == config && View() == INITIAL
    {
      this.config, databases, primary := config, map[], "";
      failoverInProgress, sourceNode, targetNode := false, "", "";
      triggered, successful, failed := 0, 0, 0;
    }

    method AddDatabase(node: DatabaseNode)
      requires Valid()
      modifies this, node
      ensures Valid() && databases == old(databases)[node.name := node]
      ensures View() == FailoverModel.AddDatabase(old(View()), node.name, old(node.isPrimary), old(node.failCount))
    {
      ghost var before := Nodes();
      node.isHealthy := true;
      databases := databases[node.name := node];
      if node.isPrimary {
        primary := node.name;
      }
      assert Nodes() == before[node.name := node.View()];
    }

    method RecordSuccess(nodeName: string)
      requires Valid()
      modifies databases.Values
      ensures View() == Record(config, old(View()), nodeName, Succeeded)
    {
      ghost var before := Nodes();
      if nodeName in databases {
        var node := databases[nodeName];
        node.failCount := 0;
        node.isHealthy := true;
        assert Nodes() == before[nodeName := node.View()];
      }
    }

    method RecordFailure(nodeName: string)
      requires Valid()
      modifies databases.Values
      ensures View() == Record(config, old(View()), nodeName, Failed)
    {
      ghost var before := Nodes();
      if nodeName in databases {
        var node := databases[nodeName];
        node.failCount := node.failCount + 1;
        if node.failCount >= config.failureThreshold {
          node.isHealthy := false;
        }
        assert Nodes() == before[nodeName := node.View()];
      }
    }

    method MustFailover() returns (needed: bool)
      ensures needed == ShouldFailover(config, View())
      ensures needed <==> && !failoverInProgress
                          && (primary !in databases ||
                              (!databases[primary].isHealthy &&
                               databases[primary].failCount >= config.failureThreshold))
    {
      if failoverInProgress {
        return false;
      }
      if primary !in databases {
        return true;
      }
      return !databases[primary].isHealthy && databases[primary].failCount >= config.failureThreshold;
    }

    /** The range over the nodes, stopping at the first healthy one that is not the primary. */
    method FindReplica() returns (target: string)
      ensures MayPick(View(), target)
      ensures target != "" ==> target in databases && target != primary && databases[target].isHealthy
      ensures target == "" && "" !in databases ==>
                forall n :: n in databases && n != primary ==> !databases[n].isHealthy
    {
      var rest := databases.Keys;
      while rest != {}
        invariant rest <= databases.Keys
        invariant forall n :: n in databases && n !in rest ==> n !in Candidates(View())
        decreases rest
      {
        var name :| name in rest;
        rest := rest - {name};
        if name != primary && databases[name].isHealthy {
          assert name in Candidates(View());
          return name;
        }
      }
      assert Candidates(View()) == {};
      return "";
    }

    method TriggerFailover()
      requires Valid()
      modifies this, databases.Values
      ensures Valid() && databases == old(databases)
      ensures exists target :: MayPick(old(View()), target) && View() == Failover(old(View()), target)
    {
      ghost var before := View();
      BeginFailover();
      var target := FindReplica();
      assert Candidates(Begin(before)) == Candidates(before);
      if target == "" {
        failed := failed + 1;
        failoverInProgress := false;
        assert Nodes() == before.databases;
      } else {
        SwitchTo(target);
      }
      assert View() == Failover(before, target);
    }

    method BeginFailover()
      modifies this`triggered, this`failoverInProgress, this`sourceNode
      ensures View() == Begin(old(View())) && failoverInProgress && sourceNode == primary
    {
      ghost var before := Nodes();
      triggered := triggered + 1;
      failoverInProgress := true;
      sourceNode := primary;
      assert Nodes() == before;
    }

    method SwitchTo(target: string)
      requires Valid() && target != ""
      modifies this, databases.Values
      ensures Valid() && databases == old(databases)
      ensures View() == Finish(old(View()), target)
    {
      ghost var before := Nodes();
      targetNode := target;
      primary := target;
      if target in databases {
        databases[target].isPrimary := true;
        assert Nodes() == before[target := databases[target].View()];
      } else {
        assert Nodes() == before;
      }
      successful := successful + 1;
      failoverInProgress := false;
    }

    method ProcessResponse(nodeName: string, outcome: Outcome)
      requires Valid()
      modifies this, databases.Values
      ensures Valid() && databases == old(databases)
      ensures Responds(config, old(View()), nodeName, outcome, View())
    {
      ghost var r := Record(config, View(), nodeName, outcome);
      if outcome.Failed? {
        RecordFailure(nodeName);
      } else if outcome.Succeeded? {
        RecordSuccess(nodeName);
      }
      assert View() == r;
      if config.autoFailover {
        var needed := MustFailover();
        if needed {
          TriggerFailover();
        }
      }
    }
  }
}
