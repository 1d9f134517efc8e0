/** Lineage engine: the graph as objects updated in place, and the recursive search over it. */
module LineageEngine {
  import opened Graphs
  import opened LineageModel
  import opened CascadeDepth

  method Contains(list: seq<string>, x: string) returns (found: bool)
    ensures found <==> x in list
  {
    for i := 0 to |list|
      invariant x !in list[..i]
    {
      if list[i] == x {
        return true;
      }
    }
    return false;
  }

  class TableNode {
    var readCount: nat
    var writeCount: nat
    var dependencies: seq<string>
    var dependents: seq<string>

    constructor ()
      ensures View() == Node(0, 0, [], [])
    {
      readCount, writeCount, dependencies, dependents := 0, 0, [], [];
    }

    ghost function View(): Node
      reads this
    {
      Node(readCount, writeCount, dependencies, dependents)
    }

    method Count(isWrite: bool)
      modifies this
      ensures View() == Counted(old(View()), isWrite)
    {
      if isWrite {
        writeCount := writeCount + 1;
      } else {
        readCount := readCount + 1;
      }
    }

    method AddDependency(t: string)
      modifies this
      ensures View() == old(View()).(dependencies := Append(old(dependencies), t))
    {
      var found := Contains(dependencies, t);
      if !found {
        dependencies := dependencies + [t];
      }
    }

    method AddDependent(t: string)
      modifies this
      ensures View() == old(View()).(dependents := Append(old(dependents), t))
    {
      var found := Contains(dependents, t);
      if !found {
        dependents := dependents + [t];
      }
    }
  }

  /** The visited map that all the calls of one search share. */
  class VisitedTables {
    var seen: set<string>

    constructor ()
      ensures seen == {}
    {
      seen := {};
    }
  }

  // ---- what the two loops of AddDependency have done after a prefix of the targets

  function WithDependencies(nodes: map<string, Node>, source: string, ts: seq<string>): map<string, Node>
    requires source in nodes
  {
    var n := nodes[source];
    nodes[source := n.(dependencies := AppendNew(n.dependencies, ts))]
  }

  function WithDependents(nodes: map<string, Node>, source: string, ts: seq<string>): map<string, Node> {
    map x | x in nodes ::
      var n := nodes[x]; n.(dependents := if x in ts then Append(n.dependents, source) else n.dependents)
  }

  lemma NextDependency(nodes: map<string, Node>, source: string, ts: seq<string>, i: nat)
    requires source in nodes && i < |ts|
    ensures var m := WithDependencies(nodes, source, ts[..i]);
            WithDependencies(nodes, source, ts[..i + 1]) ==
            m[source := m[source].(dependencies := Append(m[source].dependencies, ts[i]))]
  {
    assert ts[..i + 1][..i] == ts[..i];
  }

  lemma NextDependent(nodes: map<string, Node>, source: string, ts: seq<string>, i: nat)
    requires i < |ts|
    ensures var m := WithDependents(nodes, source, ts[..i]);
            WithDependents(nodes, source, ts[..i + 1]) ==
            if ts[i] in nodes then m[ts[i] := m[ts[i]].(dependents := Append(m[ts[i]].dependents, source))] else m
  {
  }

  lemma NextEdge(edges: Graph, source: string, ts: seq<string>, i: nat)
    requires i < |ts|
    ensures var e := LinkEdges(edges, source, ts[..i]);
            LinkEdges(edges, source, ts[..i + 1]) == e[source := Append(Succ(e, source), ts[i])]
  {
    assert ts[..i + 1][..i] == ts[..i];
  }

  lemma LinkIsBothLoops(g: Lineage, source: string, ts: seq<string>)
    ensures Link(g, source, ts).nodes ==
            WithDependents(if source in g.nodes then WithDependencies(g.nodes, source, ts) else g.nodes, source, ts)
  {
  }

  class LineageGraph {
    var nodes: map<string, TableNode>
    var edges: map<string, seq<string>>

    ghost predicate Valid()
      reads this
    {
      forall a, b :: a in nodes && b in nodes && a != b ==> nodes[a] != nodes[b]
    }

    ghost function Nodes(): map<string, Node>
      reads this, nodes.Values
    {
      map t | t in nodes :: nodes[t].View()
    }

    ghost function View(): Lineage
      reads this, nodes.Values
    {
      Lineage(Nodes(), edges)
    }

    constructor ()
      ensures Valid() && View() == EMPTY
    {
      nodes, edges := map[], map[];
    }

    /** Finds the table's node, creating one for a new table. */
    method Track(table: string) returns (node: TableNode)
      requires Valid()
      modifies this`nodes
      ensures Valid() && nodes == old(nodes)[table := node]
      ensures table in old(nodes) ==> node == old(nodes)[table]
      ensures table !in old(nodes) ==> fresh(node)
      ensures node.View() == if table in old(Nodes()) then old(Nodes())[table] else Node(0, 0, [], [])
    {
      if table in nodes {
        node := nodes[table];
      } else {
        node := new TableNode();
        nodes := nodes[table := node];
      }
    }

    method UpdateLineageGraph(table: string, isWrite: bool)
      requires Valid()
      modifies this`nodes, nodes.Values
      ensures Valid() && View() == Touch(old(View()), table, isWrite)
      ensures nodes.Keys == old(nodes).Keys + {table}
      ensures fresh(nodes.Values - old(nodes).Values)
    {
      ghost var before := Nodes();
      var node := Track(table);
      node.Count(isWrite);
      assert Nodes() == before[table := node.View()];
    }

    method AddDependencies(source: string, targets: seq<string>)
      requires Valid() && source in nodes
      modifies nodes[source]
      ensures Nodes() == WithDependencies(old(Nodes()), source, targets)
    {
      ghost var before := Nodes();
      for i := 0 to |targets|
        invariant Nodes() == WithDependencies(before, source, targets[..i])
      {
        NextDependency(before, source, targets, i);
        AddOneDependency(source, targets[i]);
      }
      assert targets[..|targets|] == targets;
    }

    method AddOneDependency(source: string, target: string)
      requires Valid() && source in nodes
      modifies nodes[source]
      ensures var n := old(Nodes())[source];
              Nodes() == old(Nodes())[source := n.(dependencies := Append(n.dependencies, target))]
    {
      ghost var before := Nodes();
      nodes[source].AddDependency(target);
      assert Nodes() == before[source := nodes[source].View()];
    }

    method AddEdge(source: string, target: string)
      modifies this`edges
      ensures edges == old(edges)[source := Append(Succ(old(edges), source), target)]
    {
      if source !in edges {
        edges := edges[source := []];
      }
      var found := Contains(edges[source], target);
      if !found {
        edges := edges[source := edges[source] + [target]];
      }
    }

    method AddOneDependent(source: string, target: string)
      requires Valid() && target in nodes
      modifies nodes[target]
      ensures var n := old(Nodes())[target];
              Nodes() == old(Nodes())[target := n.(dependents := Append(n.dependents, source))]
    {
      ghost var before := Nodes();
      nodes[target].AddDependent(source);
      assert Nodes() == before[target := nodes[target].View()];
    }

    method LinkTarget(source: string, target: string)
      requires Valid()
      modifies this`edges, nodes.Values
      ensures edges == old(edges)[source := Append(Succ(old(edges), source), target)]
      ensures Nodes() == if target !in nodes then old(Nodes()) else
                var n := old(Nodes())[target];
                old(Nodes())[target := n.(dependents := Append(n.dependents, source))]
    {
      AddEdge(source, target);
      if target in nodes {
        AddOneDependent(source, target);
      }
    }

    /** Target by target, the edge list and the target's own list. */
    method LinkTargets(source: string, targets: seq<string>)
      requires Valid()
      modifies this`edges, nodes.Values
      ensures edges == LinkEdges(old(edges), source, targets)
      ensures Nodes() == WithDependents(old(Nodes()), source, targets)
    {
      ghost var edges0, linked := edges, Nodes();
      for i := 0 to |targets|
        invariant edges == LinkEdges(edges0, source, targets[..i])
        invariant Nodes() == WithDependents(linked, source, targets[..i])
      {
        NextDependent(linked, source, targets, i);
        NextEdge(edges0, source, targets, i);
        LinkTarget(source, targets[i]);
      }
      assert targets[..|targets|] == targets;
    }

    method AddDependency(source: string, targets: seq<string>)
      requires Valid()
      modifies this`edges, nodes.Values
      ensures Valid() && View() == Link(old(View()), source, targets)
    {
      LinkIsBothLoops(View(), source, targets);
      if source in nodes {
        AddDependencies(source, targets);
      }
      LinkTargets(source, targets);
    }

    /** The table loop of one query. */
    method Process(tables: seq<string>, isWrite: bool, buildDependencyGraph: bool)
      requires Valid()
      modifies this, nodes.Values
      ensures Valid()
      ensures View() == LineageModel.Process(old(View()), Query(tables, isWrite), buildDependencyGraph)
    {
      ghost var g, q := View(), Query(tables, isWrite);
      for i := 0 to |tables|
        invariant Valid() && View() == Partial(g, q, buildDependencyGraph, i)
        invariant fresh(nodes.Values - old(nodes).Values)
      {
        UpdateLineageGraph(tables[i], isWrite);
        if buildDependencyGraph && isWrite {
          AddDependency(tables[0], tables[1..]);
        }
      }
    }

    /** The search proper: it marks the shared set and returns the deepest level reached. */
    method CalculateCascadeDepth(table: string, visited: VisitedTables, depth: int, ghost g: Graph)
      returns (deepest: int)
      requires Valid() && g == DependentsGraph(View())
      modifies visited
      ensures (visited.seen, deepest) == Visit(g, table, old(visited.seen), depth)
      decreases g.Keys - visited.seen
    {
      ghost var before := visited.seen;
      if table in visited.seen {
        return depth;
      }
      visited.seen := visited.seen + {table};
      if table !in nodes {
        return depth;
      }
      var dependents := nodes[table].dependents;
      assert dependents == g[table] && table in g.Keys - before;
      deepest := depth;
      for i := 0 to |dependents|
        invariant before + {table} <= visited.seen
        invariant VisitAll(g, dependents, before + {table}, depth, depth)
               == VisitAll(g, dependents[i..], visited.seen, depth, deepest)
      {
        assert dependents[i..][1..] == dependents[i + 1..];
        var d := CalculateCascadeDepth(dependents[i], visited, depth + 1, g);
        if d > deepest {
          deepest := d;
        }
      }
    }

    /** The cascade part of an impact analysis: on a table that is known, the depth found, and
        exactly the reachable tables searched. */
    method AnalyzeCascade(table: string) returns (cascadeDepth: int, ghost searched: set<string>)
      requires Valid()
      ensures table !in nodes ==> cascadeDepth == 0
      ensures table in nodes ==>
                && cascadeDepth == Visit(DependentsGraph(View()), table, {}, 0).1
                && (forall x :: x in searched <==> Reaches(DependentsGraph(View()), table, x))
                && cascadeDepth <= |searched|
                && (cascadeDepth > 0 <==> nodes[table].dependents != [])
    {
      cascadeDepth, searched := 0, {};
      if table in nodes {
        ghost var g := DependentsGraph(View());
        var visited := new VisitedTables();
        cascadeDepth := CalculateCascadeDepth(table, visited, 0, g);
        searched := visited.seen;
        forall x ensures x in searched <==> Reaches(g, table, x) {
          VisitsExactlyTheReachable(g, table, x);
        }
        DepthWithinVisited(g, table, {}, 0);
        DepthGrowsExactly(g, table, {}, 0);
        assert searched - {} == searched;
      }
    }
  }
}
