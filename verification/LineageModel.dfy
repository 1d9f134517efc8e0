/** Lineage graph: three redundant records of the same relation (edges, Dependencies, Dependents),
    and what a complete query does to them. */
module LineageModel {
  import opened Graphs

  datatype Node = Node(readCount: nat, writeCount: nat, dependencies: seq<string>, dependents: seq<string>)

  datatype Lineage = Lineage(nodes: map<string, Node>, edges: Graph)

  datatype Query = Query(tables: seq<string>, isWrite: bool)

  const EMPTY: Lineage := Lineage(map[], map[])

  function Append(xs: seq<string>, y: string): seq<string> {
    if y in xs then xs else xs + [y]
  }

  /** xs followed by those of ys it lacks, each once, in order. */
  function AppendNew(xs: seq<string>, ys: seq<string>): seq<string> {
    if ys == [] then xs else Append(AppendNew(xs, ys[..|ys| - 1]), ys[|ys| - 1])
  }

  function Counted(n: Node, isWrite: bool): Node {
    if isWrite then n.(writeCount := n.writeCount + 1) else n.(readCount := n.readCount + 1)
  }

  /** Counting an access, creating the table's node if needed. */
  function Touch(g: Lineage, t: string, isWrite: bool): Lineage {
    var n := if t in g.nodes then g.nodes[t] else Node(0, 0, [], []);
    g.(nodes := g.nodes[t := Counted(n, isWrite)])
  }

  function LinkNode(name: string, n: Node, source: string, targets: seq<string>): Node {
    n.(dependencies := if name == source then AppendNew(n.dependencies, targets) else n.dependencies,
       dependents := if name in targets then Append(n.dependents, source) else n.dependents)
  }

  function LinkEdges(edges: Graph, source: string, targets: seq<string>): Graph {
    if targets == [] then edges else edges[source := AppendNew(Succ(edges, source), targets)]
  }

  /** Recording that the source depends on all the targets. Tables without a node get no list. */
  function Link(g: Lineage, source: string, targets: seq<string>): Lineage {
    Lineage(map x | x in g.nodes :: LinkNode(x, g.nodes[x], source, targets),
            LinkEdges(g.edges, source, targets))
  }

  /** The loop over a query's tables, up to the first k: each table is touched, and each time a
      write query links its first table to all the others. */
  function Partial(g: Lineage, q: Query, build: bool, k: nat): Lineage
    requires k <= |q.tables|
  {
    if k == 0 then g
    else
      var touched := Touch(Partial(g, q, build, k - 1), q.tables[k - 1], q.isWrite);
      if build && q.isWrite then Link(touched, q.tables[0], q.tables[1..]) else touched
  }

  function Process(g: Lineage, q: Query, build: bool): Lineage {
    Partial(g, q, build, |q.tables|)
  }

  function TouchAll(g: Lineage, tables: seq<string>, isWrite: bool): Lineage {
    if tables == [] then g
    else Touch(TouchAll(g, tables[..|tables| - 1], isWrite), tables[|tables| - 1], isWrite)
  }

  // ---- appending

  lemma {:induction false} AppendNewMembers(xs: seq<string>, ys: seq<string>)
    ensures forall z :: z in AppendNew(xs, ys) <==> z in xs || z in ys
  {
    if ys != [] {
      AppendNewMembers(xs, ys[..|ys| - 1]);
      assert ys == ys[..|ys| - 1] + [ys[|ys| - 1]];
    }
  }

  lemma {:induction false} AppendNewOfMembers(xs: seq<string>, ys: seq<string>)
    requires forall y :: y in ys ==> y in xs
    ensures AppendNew(xs, ys) == xs
  {
    if ys != [] {
      assert forall y :: y in ys[..|ys| - 1] ==> y in ys;
      AppendNewOfMembers(xs, ys[..|ys| - 1]);
    }
  }

  lemma AppendNewTwice(xs: seq<string>, ys: seq<string>)
    ensures AppendNew(AppendNew(xs, ys), ys) == AppendNew(xs, ys)
  {
    AppendNewMembers(xs, ys);
    AppendNewOfMembers(AppendNew(xs, ys), ys);
  }

  lemma {:induction false} AppendNewNoRepeats(xs: seq<string>, ys: seq<string>)
    requires NoRepeats(xs)
    ensures NoRepeats(AppendNew(xs, ys))
  {
    if ys != [] {
      AppendNewNoRepeats(xs, ys[..|ys| - 1]);
    }
  }

  // ---- the repeated linking inside the loop

  lemma LinkTouchLinkNode(name: string, n: Node, source: string, targets: seq<string>)
    ensures LinkNode(name, LinkNode(name, n, source, targets), source, targets) == LinkNode(name, n, source, targets)
  {
    AppendNewTwice(n.dependencies, targets);
  }

  lemma LinkTouchLinkEdges(edges: Graph, source: string, targets: seq<string>)
    ensures LinkEdges(LinkEdges(edges, source, targets), source, targets) == LinkEdges(edges, source, targets)
  {
    AppendNewTwice(Succ(edges, source), targets);
  }

  lemma LinkTouchLinkNodes(g: Lineage, t: string, isWrite: bool, source: string, targets: seq<string>, x: string)
    requires x in g.nodes || x == t
    ensures Link(Touch(Link(g, source, targets), t, isWrite), source, targets).nodes[x]
         == Link(Touch(g, t, isWrite), source, targets).nodes[x]
  {
    if x in g.nodes {
      LinkTouchLinkNode(x, g.nodes[x], source, targets);
    }
  }

  /** Linking before a touch adds nothing to linking after it. */
  lemma LinkTouchLink(g: Lineage, t: string, isWrite: bool, source: string, targets: seq<string>)
    ensures Link(Touch(Link(g, source, targets), t, isWrite), source, targets)
         == Link(Touch(g, t, isWrite), source, targets)
  {
    var a := Link(Touch(Link(g, source, targets), t, isWrite), source, targets);
    var b := Link(Touch(g, t, isWrite), source, targets);
    LinkTouchLinkEdges(g.edges, source, targets);
    forall x | x in b.nodes ensures x in a.nodes && a.nodes[x] == b.nodes[x] {
      LinkTouchLinkNodes(g, t, isWrite, source, targets, x);
    }
    assert a.nodes == b.nodes;
  }

  /** The k-fold linking of the loop comes to touching k tables and linking once. */
  lemma {:induction false} PartialIsOneLink(g: Lineage, q: Query, k: nat)
    requires 0 < k <= |q.tables| && q.isWrite
    ensures Partial(g, q, true, k) == Link(TouchAll(g, q.tables[..k], true), q.tables[0], q.tables[1..])
  {
    assert q.tables[..k][..k - 1] == q.tables[..k - 1];
    if k > 1 {
      PartialIsOneLink(g, q, k - 1);
      LinkTouchLink(TouchAll(g, q.tables[..k - 1], true), q.tables[k - 1], true, q.tables[0], q.tables[1..]);
    }
  }

  lemma {:induction false} PartialIsTouches(g: Lineage, q: Query, build: bool, k: nat)
    requires k <= |q.tables| && (k == 0 || !(build && q.isWrite))
    ensures Partial(g, q, build, k) == TouchAll(g, q.tables[..k], q.isWrite)
  {
    if k > 0 {
      PartialIsTouches(g, q, build, k - 1);
      assert q.tables[..k][..k - 1] == q.tables[..k - 1];
    }
  }

  // ---- agreement of the three records

  ghost predicate ListsAgree(g: Lineage) {
    && (forall s :: s in g.edges ==> s in g.nodes)
    && (forall s :: s in g.nodes ==> Succ(g.edges, s) == g.nodes[s].dependencies)
    && (forall s, t :: s in g.nodes && t in g.nodes ==>
          (t in g.nodes[s].dependencies <==> s in g.nodes[t].dependents))
  }

  ghost predicate ListsClean(g: Lineage) {
    forall s :: s in g.nodes ==>
      && NoRepeats(g.nodes[s].dependencies) && NoRepeats(g.nodes[s].dependents)
      && s !in g.nodes[s].dependencies
  }

  ghost predicate EndsAreNodes(g: Lineage) {
    forall s, t :: s in g.nodes && (t in g.nodes[s].dependencies || t in g.nodes[s].dependents) ==> t in g.nodes
  }

  /** edges, Dependencies and Dependents record one loop-free relation between known tables. */
  ghost predicate Coherent(g: Lineage) {
    ListsAgree(g) && ListsClean(g) && EndsAreNodes(g)
  }

  lemma TouchKeepsCoherent(g: Lineage, t: string, isWrite: bool)
    requires Coherent(g)
    ensures Coherent(Touch(g, t, isWrite))
  {
  }

  lemma {:induction false} TouchAllKeepsCoherent(g: Lineage, tables: seq<string>, isWrite: bool)
    requires Coherent(g)
    ensures Coherent(TouchAll(g, tables, isWrite))
    ensures TouchAll(g, tables, isWrite).nodes.Keys == g.nodes.Keys + set t | t in tables
  {
    if tables != [] {
      var front, last := tables[..|tables| - 1], tables[|tables| - 1];
      TouchAllKeepsCoherent(g, front, isWrite);
      TouchKeepsCoherent(TouchAll(g, front, isWrite), last, isWrite);
      assert tables == front + [last];
    }
  }

  lemma LinkKeepsAgreement(g: Lineage, source: string, targets: seq<string>)
    requires ListsAgree(g) && source in g.nodes
    ensures ListsAgree(Link(g, source, targets))
  {
    var h := Link(g, source, targets);
    AppendNewMembers(g.nodes[source].dependencies, targets);
    assert targets == [] ==> AppendNew(Succ(g.edges, source), targets) == Succ(g.edges, source);
    forall s, t | s in h.nodes && t in h.nodes
      ensures t in h.nodes[s].dependencies <==> s in h.nodes[t].dependents
    {
      assert t in g.nodes[s].dependencies <==> s in g.nodes[t].dependents;
    }
    forall s | s in h.nodes ensures Succ(h.edges, s) == h.nodes[s].dependencies {
      assert Succ(g.edges, s) == g.nodes[s].dependencies;
    }
  }

  lemma LinkKeepsClean(g: Lineage, source: string, targets: seq<string>)
    requires ListsClean(g) && source in g.nodes && source !in targets
    ensures ListsClean(Link(g, source, targets))
  {
    AppendNewMembers(g.nodes[source].dependencies, targets);
    AppendNewNoRepeats(g.nodes[source].dependencies, targets);
  }

  lemma LinkEndsExactly(g: Lineage, source: string, targets: seq<string>)
    requires EndsAreNodes(g) && source in g.nodes
    ensures EndsAreNodes(Link(g, source, targets)) <==> forall t :: t in targets ==> t in g.nodes
  {
    var h := Link(g, source, targets);
    AppendNewMembers(g.nodes[source].dependencies, targets);
    if EndsAreNodes(h) {
      forall t | t in targets ensures t in g.nodes {
        assert source in h.nodes && t in h.nodes[source].dependencies;
        assert t in h.nodes;
      }
    } else {
      var s, t :| s in h.nodes && (t in h.nodes[s].dependencies || t in h.nodes[s].dependents) && t !in h.nodes;
      assert t in targets;
    }
  }

  /** A write query's own tables, its first k touched: known are those and the old ones. */
  lemma TouchedTables(g: Lineage, q: Query, k: nat)
    requires Coherent(g) && 0 < k <= |q.tables|
    ensures var touched := TouchAll(g, q.tables[..k], true);
            && Coherent(touched) && q.tables[0] in touched.nodes
            && forall i :: 0 <= i < |q.tables| && i < k ==> q.tables[i] in touched.nodes
    ensures var touched := TouchAll(g, q.tables[..k], true);
            forall t :: t in touched.nodes <==> t in g.nodes || t in q.tables[..k]
  {
    TouchAllKeepsCoherent(g, q.tables[..k], true);
    forall i | 0 <= i < k ensures q.tables[i] in TouchAll(g, q.tables[..k], true).nodes {
      assert q.tables[..k][i] == q.tables[i];
    }
  }

  /** The tables after the first are all known once k are touched iff the ones from k on were before. */
  lemma TargetsKnownExactly(known: set<string>, tables: seq<string>, k: nat)
    requires NoRepeats(tables) && 0 < k <= |tables|
    ensures (forall t :: t in tables[1..] ==> t in known || t in tables[..k])
            <==> (forall i :: k <= i < |tables| ==> tables[i] in known)
  {
  }

  /** Inside the loop of a write query the three records agree exactly when every table still to
      come is known already. */
  lemma AgreementInsideTheLoop(g: Lineage, q: Query, k: nat)
    requires Coherent(g) && NoRepeats(q.tables) && q.isWrite && 0 < k <= |q.tables|
    ensures Coherent(Partial(g, q, true, k)) <==> forall i :: k <= i < |q.tables| ==> q.tables[i] in g.nodes
  {
    var source, targets := q.tables[0], q.tables[1..];
    var touched := TouchAll(g, q.tables[..k], true);
    PartialIsOneLink(g, q, k);
    TouchedTables(g, q, k);
    LinkKeepsAgreement(touched, source, targets);
    LinkKeepsClean(touched, source, targets);
    LinkEndsExactly(touched, source, targets);
    TargetsKnownExactly(g.nodes.Keys, q.tables, k);
  }

  /** MAIN RESULT. Every complete query keeps the three records in agreement. */
  lemma ProcessKeepsCoherent(g: Lineage, q: Query, build: bool)
    requires Coherent(g) && NoRepeats(q.tables)
    ensures Coherent(Process(g, q, build))
  {
    if q.tables != [] && build && q.isWrite {
      AgreementInsideTheLoop(g, q, |q.tables|);
    } else {
      PartialIsTouches(g, q, build, |q.tables|);
      TouchAllKeepsCoherent(g, q.tables[..|q.tables|], q.isWrite);
    }
  }

  // ---- whole runs

  function Run(queries: seq<Query>): Lineage {
    if queries == [] then EMPTY else Process(Run(queries[..|queries| - 1]), queries[|queries| - 1], true)
  }

  ghost predicate DependsBy(q: Query, s: string, t: string) {
    q.isWrite && |q.tables| > 0 && q.tables[0] == s && t in q.tables[1..]
  }

  lemma {:induction false} TouchAllKeepsLists(g: Lineage, tables: seq<string>, isWrite: bool)
    ensures var h := TouchAll(g, tables, isWrite);
      && h.edges == g.edges
      && (forall x :: x in g.nodes ==> x in h.nodes && h.nodes[x].dependencies == g.nodes[x].dependencies)
  {
    if tables != [] {
      TouchAllKeepsLists(g, tables[..|tables| - 1], isWrite);
    }
  }

  lemma ProcessEdges(g: Lineage, q: Query, s: string, t: string)
    ensures t in Succ(Process(g, q, true).edges, s) <==> t in Succ(g.edges, s) || DependsBy(q, s, t)
  {
    var n := |q.tables|;
    if q.tables != [] && q.isWrite {
      PartialIsOneLink(g, q, n);
      TouchAllKeepsLists(g, q.tables[..n], true);
      AppendNewMembers(Succ(g.edges, q.tables[0]), q.tables[1..]);
    } else {
      PartialIsTouches(g, q, true, n);
      TouchAllKeepsLists(g, q.tables[..n], q.isWrite);
    }
  }

  /** MAIN RESULT. After any sequence of queries the three records agree ... */
  lemma {:induction false} RunIsCoherent(queries: seq<Query>)
    requires forall i :: 0 <= i < |queries| ==> NoRepeats(queries[i].tables)
    ensures Coherent(Run(queries))
  {
    if queries != [] {
      RunIsCoherent(queries[..|queries| - 1]);
      ProcessKeepsCoherent(Run(queries[..|queries| - 1]), queries[|queries| - 1], true);
    }
  }

  /** ... and a table depends on another exactly when some write query listed it first and the
      other after it. */
  lemma {:induction false} RunIsExactHistory(queries: seq<Query>, s: string, t: string)
    ensures t in Succ(Run(queries).edges, s) <==> exists i :: 0 <= i < |queries| && DependsBy(queries[i], s, t)
  {
    if queries != [] {
      var front, q := queries[..|queries| - 1], queries[|queries| - 1];
      RunIsExactHistory(front, s, t);
      ProcessEdges(Run(front), q, s, t);
      assert forall i :: 0 <= i < |front| ==> front[i] == queries[i];
    }
  }

  // ---- what is counted, and in which order lists grow

  /** How often the reading, or the writing, queries list the table. */
  function Uses(queries: seq<Query>, t: string, writing: bool): nat {
    if queries == [] then 0
    else
      var q := queries[|queries| - 1];
      Uses(queries[..|queries| - 1], t, writing) + if q.isWrite == writing then multiset(q.tables)[t] else 0
  }

  function CountOf(g: Lineage, t: string, writing: bool): nat {
    if t !in g.nodes then 0 else if writing then g.nodes[t].writeCount else g.nodes[t].readCount
  }

  lemma {:induction false} TouchAllCounts(g: Lineage, tables: seq<string>, isWrite: bool, t: string, writing: bool)
    ensures CountOf(TouchAll(g, tables, isWrite), t, writing) ==
            CountOf(g, t, writing) + if isWrite == writing then multiset(tables)[t] else 0
    ensures t in TouchAll(g, tables, isWrite).nodes <==> t in g.nodes || t in tables
  {
    if tables != [] {
      TouchAllCounts(g, tables[..|tables| - 1], isWrite, t, writing);
      assert tables == tables[..|tables| - 1] + [tables[|tables| - 1]];
    }
  }

  lemma ProcessCounts(g: Lineage, q: Query, t: string, writing: bool)
    ensures CountOf(Process(g, q, true), t, writing) ==
            CountOf(g, t, writing) + if q.isWrite == writing then multiset(q.tables)[t] else 0
    ensures t in Process(g, q, true).nodes <==> t in g.nodes || t in q.tables
  {
    var n := |q.tables|;
    assert q.tables[..n] == q.tables;
    TouchAllCounts(g, q.tables, q.isWrite, t, writing);
    if q.tables != [] && q.isWrite {
      PartialIsOneLink(g, q, n);
    } else {
      PartialIsTouches(g, q, true, n);
    }
  }

  /** MAIN RESULT. After any sequence of queries each table's counts are how often reading and writing
      queries listed it, and known are exactly the tables some query listed. */
  lemma {:induction false} RunCountsExactly(queries: seq<Query>, t: string, writing: bool)
    ensures CountOf(Run(queries), t, writing) == Uses(queries, t, writing)
    ensures t in Run(queries).nodes <==> exists i :: 0 <= i < |queries| && t in queries[i].tables
  {
    if queries != [] {
      var front, q := queries[..|queries| - 1], queries[|queries| - 1];
      RunCountsExactly(front, t, writing);
      ProcessCounts(Run(front), q, t, writing);
      assert forall i :: 0 <= i < |front| ==> front[i] == queries[i];
      assert t in q.tables ==> t in queries[|front|].tables;
    }
  }

  /** Where a name first stands in a list, or the list's length. */
  function FirstAt(ys: seq<string>, y: string): nat {
    if ys == [] || ys[0] == y then 0 else 1 + FirstAt(ys[1..], y)
  }

  /** The list holds each name of the other once, in the order of first mention. */
  ghost predicate InOrderOfMention(xs: seq<string>, ys: seq<string>) {
    && (forall z :: z in xs <==> z in ys)
    && forall i, j :: 0 <= i < j < |xs| ==> FirstAt(ys, xs[i]) < FirstAt(ys, xs[j])
  }

  lemma {:induction false} FirstAtAppend(ys: seq<string>, last: string, y: string)
    ensures y in ys ==> FirstAt(ys, y) < |ys| && FirstAt(ys + [last], y) == FirstAt(ys, y)
    ensures y !in ys ==> FirstAt(ys, y) == |ys| && (y == last ==> FirstAt(ys + [last], y) == |ys|)
  {
    if ys != [] {
      assert (ys + [last])[1..] == ys[1..] + [last];
      FirstAtAppend(ys[1..], last, y);
    }
  }

  lemma {:induction false} AppendNewInOrder(ys: seq<string>)
    ensures InOrderOfMention(AppendNew([], ys), ys)
  {
    AppendNewMembers([], ys);
    if ys != [] {
      var front, last := ys[..|ys| - 1], ys[|ys| - 1];
      var xs := AppendNew([], front);
      AppendNewInOrder(front);
      AppendNewMembers([], front);
      assert ys == front + [last];
      forall y ensures (y in front ==> FirstAt(front, y) < |front| && FirstAt(ys, y) == FirstAt(front, y)) &&
                       (y !in front && y == last ==> FirstAt(ys, y) == |front|)
      {
        FirstAtAppend(front, last, y);
      }
    }
  }

  lemma {:induction false} AppendNewBoth(xs: seq<string>, ys: seq<string>, zs: seq<string>)
    ensures AppendNew(xs, ys + zs) == AppendNew(AppendNew(xs, ys), zs)
  {
    if zs == [] {
      assert ys + zs == ys;
    } else {
      var front, last := zs[..|zs| - 1], zs[|zs| - 1];
      AppendNewBoth(xs, ys, front);
      assert ys + zs == (ys + front) + [last];
      assert (ys + zs)[..|ys + zs| - 1] == ys + front;
    }
  }

  /** All tables that write queries list after the given one, query after query. */
  function Mentioned(queries: seq<Query>, s: string): seq<string> {
    if queries == [] then []
    else
      var q := queries[|queries| - 1];
      Mentioned(queries[..|queries| - 1], s) +
      if q.isWrite && |q.tables| > 0 && q.tables[0] == s then q.tables[1..] else []
  }

  /** All tables whose write queries list the given one after them, query after query. */
  function Mentioners(queries: seq<Query>, t: string): seq<string> {
    if queries == [] then []
    else
      var q := queries[|queries| - 1];
      Mentioners(queries[..|queries| - 1], t) +
      if q.isWrite && |q.tables| > 0 && t in q.tables[1..] then [q.tables[0]] else []
  }

  function DependentsOf(g: Lineage, t: string): seq<string> {
    if t in g.nodes then g.nodes[t].dependents else []
  }

  lemma {:induction false} TouchAllKeepsDependents(g: Lineage, tables: seq<string>, isWrite: bool, t: string)
    ensures DependentsOf(TouchAll(g, tables, isWrite), t) == DependentsOf(g, t)
  {
    if tables != [] {
      TouchAllKeepsDependents(g, tables[..|tables| - 1], isWrite, t);
    }
  }

  lemma ProcessLists(g: Lineage, q: Query, x: string)
    ensures var h, links := Process(g, q, true), q.isWrite && |q.tables| > 0;
            && Succ(h.edges, x) == AppendNew(Succ(g.edges, x), if links && q.tables[0] == x then q.tables[1..] else [])
            && DependentsOf(h, x) ==
                 AppendNew(DependentsOf(g, x), if links && x in q.tables[1..] then [q.tables[0]] else [])
            && (x in h.edges <==> x in g.edges || (links && q.tables[0] == x && q.tables[1..] != []))
  {
    var n := |q.tables|;
    assert q.tables[..n] == q.tables;
    TouchAllKeepsLists(g, q.tables, q.isWrite);
    TouchAllKeepsDependents(g, q.tables, q.isWrite, x);
    TouchAllCounts(g, q.tables, q.isWrite, x, true);
    if q.tables != [] && q.isWrite {
      PartialIsOneLink(g, q, n);
      assert [q.tables[0]][..0] == [];
      assert AppendNew(DependentsOf(g, x), [q.tables[0]]) == Append(DependentsOf(g, x), q.tables[0]);
    } else {
      PartialIsTouches(g, q, true, n);
    }
  }

  lemma {:induction false} RunLists(queries: seq<Query>, x: string)
    ensures Succ(Run(queries).edges, x) == AppendNew([], Mentioned(queries, x))
    ensures DependentsOf(Run(queries), x) == AppendNew([], Mentioners(queries, x))
    ensures x in Run(queries).edges <==> Mentioned(queries, x) != []
  {
    if queries != [] {
      var front, q := queries[..|queries| - 1], queries[|queries| - 1];
      RunLists(front, x);
      ProcessLists(Run(front), q, x);
      var links := q.isWrite && |q.tables| > 0;
      AppendNewBoth([], Mentioned(front, x), if links && q.tables[0] == x then q.tables[1..] else []);
      AppendNewBoth([], Mentioners(front, x), if links && x in q.tables[1..] then [q.tables[0]] else []);
    }
  }

  /** MAIN RESULT. After any sequence of queries each table's dependencies, and its dependents, stand
      in the order in which write queries first mentioned them; a table has an edge list exactly if
      it is not empty. */
  lemma RunListsInOrder(queries: seq<Query>, x: string)
    ensures InOrderOfMention(Succ(Run(queries).edges, x), Mentioned(queries, x))
    ensures InOrderOfMention(DependentsOf(Run(queries), x), Mentioners(queries, x))
    ensures x in Run(queries).edges <==> Succ(Run(queries).edges, x) != []
  {
    AppendNewMembers([], Mentioned(queries, x));
    RunLists(queries, x);
    AppendNewInOrder(Mentioned(queries, x));
    AppendNewInOrder(Mentioners(queries, x));
  }

  // ---- impact analysis reads the relation from the other side

  /** The graph the cascade search walks: each known table with its dependents. */
  function DependentsGraph(g: Lineage): Graph {
    map t | t in g.nodes :: g.nodes[t].dependents
  }

  /** A table is in the impact cone of another exactly when its dependencies lead back to it. */
  lemma ImpactConeIsDependencyClosure(g: Lineage, a: string, b: string)
    requires Coherent(g)
    ensures Reaches(DependentsGraph(g), a, b) <==> Reaches(g.edges, b, a)
  {
    var d := DependentsGraph(g);
    forall x, y ensures y in Succ(d, x) <==> x in Succ(g.edges, y) {
      if x in g.nodes && y in g.nodes {
        assert x in g.nodes[y].dependencies <==> y in g.nodes[x].dependents;
      }
    }
    MirrorReaches(d, g.edges, a, b);
  }
}
