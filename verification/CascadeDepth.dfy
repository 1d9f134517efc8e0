/** Lineage impact analysis: the depth-first search whose visited set is shared between siblings. */
module CascadeDepth {
  import opened Graphs
  import opened SetFacts

  /** One call on a table: the visited set afterwards, and the depth returned. */
  function Visit(g: Graph, t: string, visited: set<string>, depth: int): (r: (set<string>, int))
    ensures visited <= r.0
    decreases g.Keys - visited, 0
  {
    if t in visited then (visited, depth)
    else if t !in g then (visited + {t}, depth)
    else
      assert g.Keys - (visited + {t}) < g.Keys - visited by {
        assert t in g.Keys - visited;
      }
      VisitAll(g, g[t], visited + {t}, depth, depth)
  }

  /** The loop over a table's dependents, `best` being the deepest result so far. */
  function VisitAll(g: Graph, ts: seq<string>, visited: set<string>, depth: int, best: int): (r: (set<string>, int))
    ensures visited <= r.0
    decreases g.Keys - visited, |ts| + 1
  {
    if ts == [] then (visited, best)
    else
      var (seen, d) := Visit(g, ts[0], visited, depth + 1);
      assert seen != visited ==> visited < seen;
      VisitAll(g, ts[1..], seen, depth, if d > best then d else best)
  }

  /** Everything visited was visited before or is reachable. */
  lemma {:induction false} VisitSound(g: Graph, t: string, visited: set<string>, depth: int, x: string)
    requires x in Visit(g, t, visited, depth).0
    ensures x in visited || Reaches(g, t, x)
    decreases g.Keys - visited, 0
  {
    ReachesSelf(g, t);
    if t !in visited && t in g {
      assert t in g.Keys - visited;
      VisitAllSound(g, g[t], visited + {t}, depth, depth, x);
      if x !in visited && x != t {
        var c :| c in g[t] && Reaches(g, c, x);
        ReachesStep(g, t, c, x);
      }
    }
  }

  lemma {:induction false} VisitAllSound(g: Graph, ts: seq<string>, visited: set<string>, depth: int, best: int,
                                         x: string)
    requires x in VisitAll(g, ts, visited, depth, best).0
    ensures x in visited || exists c :: c in ts && Reaches(g, c, x)
    decreases g.Keys - visited, |ts| + 1
  {
    if ts != [] {
      var (seen, d) := Visit(g, ts[0], visited, depth + 1);
      VisitAllSound(g, ts[1..], seen, depth, if d > best then d else best, x);
      if x in seen {
        VisitSound(g, ts[0], visited, depth + 1, x);
      }
    }
  }

  /** Nothing newly visited has an unvisited dependent when the call returns. */
  lemma {:induction false} VisitCloses(g: Graph, t: string, visited: set<string>, depth: int, x: string, y: string)
    requires x in Visit(g, t, visited, depth).0 - visited && y in Succ(g, x)
    ensures y in Visit(g, t, visited, depth).0
    decreases g.Keys - visited, 0
  {
    if t !in visited && t in g {
      assert t in g.Keys - visited;
      VisitAllCovers(g, g[t], visited + {t}, depth, depth);
      if x != t {
        VisitAllCloses(g, g[t], visited + {t}, depth, depth, x, y);
      }
    }
  }

  lemma {:induction false} VisitAllCovers(g: Graph, ts: seq<string>, visited: set<string>, depth: int, best: int)
    ensures forall c :: c in ts ==> c in VisitAll(g, ts, visited, depth, best).0
    decreases |ts|
  {
    if ts != [] {
      var (seen, d) := Visit(g, ts[0], visited, depth + 1);
      VisitAllCovers(g, ts[1..], seen, depth, if d > best then d else best);
      assert ts[0] in seen;
    }
  }

  lemma {:induction false} VisitAllCloses(g: Graph, ts: seq<string>, visited: set<string>, depth: int, best: int,
                                          x: string, y: string)
    requires x in VisitAll(g, ts, visited, depth, best).0 - visited && y in Succ(g, x)
    ensures y in VisitAll(g, ts, visited, depth, best).0
    decreases g.Keys - visited, |ts| + 1
  {
    if ts != [] {
      var (seen, d) := Visit(g, ts[0], visited, depth + 1);
      if x in seen {
        VisitCloses(g, ts[0], visited, depth + 1, x, y);
      } else {
        VisitAllCloses(g, ts[1..], seen, depth, if d > best then d else best, x, y);
      }
    }
  }

  /** MAIN RESULT. On every graph, cyclic ones included, a search started with nothing visited
      ends having visited exactly the tables reachable from its start. */
  lemma VisitsExactlyTheReachable(g: Graph, start: string, x: string)
    ensures x in Visit(g, start, {}, 0).0 <==> Reaches(g, start, x)
  {
    var seen := Visit(g, start, {}, 0).0;
    if x in seen {
      VisitSound(g, start, {}, 0, x);
    }
    if Reaches(g, start, x) {
      var w :| WalkBetween(g, start, x, w);
      forall a, b | a in seen && b in Succ(g, a) ensures b in seen {
        VisitCloses(g, start, {}, 0, a, b);
      }
      if start in g {
        assert start in {} + {start};
      }
      ClosedHoldsWalks(g, seen, w);
    }
  }

  /** The result is positive above the starting depth exactly for a fresh table with a dependent. */
  lemma {:induction false} DepthGrowsExactly(g: Graph, t: string, visited: set<string>, depth: int)
    ensures Visit(g, t, visited, depth).1 >= depth
    ensures Visit(g, t, visited, depth).1 >= depth + 1 <==> t !in visited && t in g && g[t] != []
    decreases g.Keys - visited, 0
  {
    if t !in visited && t in g && g[t] != [] {
      assert t in g.Keys - visited;
      BestGrows(g, g[t], visited + {t}, depth, depth);
    }
  }

  lemma {:induction false} BestGrows(g: Graph, ts: seq<string>, visited: set<string>, depth: int, best: int)
    ensures VisitAll(g, ts, visited, depth, best).1 >= best
    ensures ts != [] ==> VisitAll(g, ts, visited, depth, best).1 >= depth + 1
    decreases g.Keys - visited, |ts| + 1
  {
    if ts != [] {
      var (seen, d) := Visit(g, ts[0], visited, depth + 1);
      DepthGrowsExactly(g, ts[0], visited, depth + 1);
      BestGrows(g, ts[1..], seen, depth, if d > best then d else best);
    }
  }

  /** The result is at most the starting depth plus the number of newly visited tables. */
  lemma {:induction false} DepthWithinVisited(g: Graph, t: string, visited: set<string>, depth: int)
    ensures Visit(g, t, visited, depth).1 <= depth + |Visit(g, t, visited, depth).0 - visited|
    decreases g.Keys - visited, 0
  {
    if t !in visited && t in g {
      assert t in g.Keys - visited;
      BestWithinVisited(g, g[t], visited + {t}, depth, depth);
      var seen := Visit(g, t, visited, depth).0;
      assert seen - visited == (seen - (visited + {t})) + {t};
    }
  }

  lemma {:induction false} BestWithinVisited(g: Graph, ts: seq<string>, visited: set<string>, depth: int, best: int)
    ensures var r := VisitAll(g, ts, visited, depth, best);
            r.1 <= best || r.1 <= depth + 1 + |r.0 - visited|
    decreases g.Keys - visited, |ts| + 1
  {
    if ts != [] {
      var (seen, d) := Visit(g, ts[0], visited, depth + 1);
      DepthWithinVisited(g, ts[0], visited, depth + 1);
      BestWithinVisited(g, ts[1..], seen, depth, if d > best then d else best);
      var all := VisitAll(g, ts, visited, depth, best).0;
      SubsetSize(seen - visited, all - visited);
      SubsetSize(all - seen, all - visited);
    }
  }

  /** All tables of the walk but the last are different, and none of them is in the set. */
  ghost predicate FrontIsNew(w: seq<string>, visited: set<string>)
    requires w != []
  {
    NoRepeats(w[..|w| - 1]) && forall i :: 0 <= i < |w| - 1 ==> w[i] !in visited
  }

  lemma FrontOfPrepended(t: string, tail: seq<string>, visited: set<string>)
    requires tail != [] && FrontIsNew(tail, visited + {t}) && t !in visited
    ensures FrontIsNew([t] + tail, visited)
  {
    var w, front := [t] + tail, tail[..|tail| - 1];
    assert w[..|w| - 1] == [t] + front;
    assert forall i :: 0 <= i < |front| ==> front[i] == tail[i];
  }

  /** The result is the length of some actual chain of dependents, which repeats no table except
      that it may end in one visited before. */
  lemma {:induction false} DepthIsAWalk(g: Graph, t: string, visited: set<string>, depth: int) returns (w: seq<string>)
    ensures WalkFrom(g, t, w) && |w| - 1 == Visit(g, t, visited, depth).1 - depth
    ensures FrontIsNew(w, visited)
    decreases g.Keys - visited, 0
  {
    w := [t];
    if t !in visited && t in g {
      assert t in g.Keys - visited;
      var tail := BestIsAWalk(g, g[t], visited + {t}, depth, depth);
      if tail != [] {
        PrependWalk(g, t, tail[0], tail);
        FrontOfPrepended(t, tail, visited);
        w := [t] + tail;
      }
    }
  }

  lemma {:induction false} BestIsAWalk(g: Graph, ts: seq<string>, visited: set<string>, depth: int, best: int)
    returns (w: seq<string>)
    ensures var r := VisitAll(g, ts, visited, depth, best).1;
            if w == [] then r == best else IsWalk(g, w) && w[0] in ts && |w| == r - depth
    ensures w != [] ==> FrontIsNew(w, visited)
    decreases g.Keys - visited, |ts| + 1
  {
    w := [];
    if ts != [] {
      var (seen, d) := Visit(g, ts[0], visited, depth + 1);
      w := BestIsAWalk(g, ts[1..], seen, depth, if d > best then d else best);
      if w == [] && d > best {
        w := DepthIsAWalk(g, ts[0], visited, depth + 1);
      }
    }
  }

  ghost predicate Bounds(g: Graph, t: string, length: int) {
    forall w :: WalkFrom(g, t, w) ==> |w| - 1 <= length
  }

  /** The reachable tables that have dependents fall into levels, each one level after what it
      depends on: however such a table is reached, it is in the same number of steps. */
  ghost predicate Levelled(g: Graph, start: string, level: string -> int) {
    forall x, y :: Reaches(g, start, x) && y in Succ(g, x) && Succ(g, y) != [] ==> level(y) == level(x) + 1
  }

  lemma LevelledOnward(g: Graph, start: string, t: string, level: string -> int)
    requires Levelled(g, start, level) && t in Succ(g, start)
    ensures Levelled(g, t, level) && (Succ(g, t) != [] ==> level(t) == level(start) + 1)
  {
    ReachesSelf(g, start);
    forall x, y | Reaches(g, t, x) && y in Succ(g, x) && Succ(g, y) != [] ensures level(y) == level(x) + 1 {
      ReachesStep(g, start, t, x);
    }
  }

  lemma LeafVisitsItself(g: Graph, t: string, visited: set<string>, depth: int)
    requires Succ(g, t) == []
    ensures Visit(g, t, visited, depth).0 == visited + {t}
  {
  }

  /** On levelled tables the result goes beyond the level of every visited table with dependents. */
  lemma {:induction false} DepthCoversLevels(g: Graph, t: string, visited: set<string>, depth: int,
                                             level: string -> int, x: string)
    requires Levelled(g, t, level) && depth == level(t)
    requires x in Visit(g, t, visited, depth).0 - visited && Succ(g, x) != []
    ensures level(x) + 1 <= Visit(g, t, visited, depth).1
    decreases g.Keys - visited, 0
  {
    if t !in visited && t in g {
      assert t in g.Keys - visited;
      if x == t {
        BestGrows(g, g[t], visited + {t}, depth, depth);
      } else {
        forall c | c in g[t] ensures Levelled(g, c, level) && (Succ(g, c) != [] ==> level(c) == depth + 1) {
          LevelledOnward(g, t, c, level);
        }
        BestCoversLevels(g, g[t], visited + {t}, depth, depth, level, x);
      }
    }
  }

  lemma {:induction false} BestCoversLevels(g: Graph, ts: seq<string>, visited: set<string>, depth: int, best: int,
                                            level: string -> int, x: string)
    requires forall c :: c in ts ==> Levelled(g, c, level) && (Succ(g, c) != [] ==> level(c) == depth + 1)
    requires x in VisitAll(g, ts, visited, depth, best).0 - visited && Succ(g, x) != []
    ensures level(x) + 1 <= VisitAll(g, ts, visited, depth, best).1
    decreases g.Keys - visited, |ts| + 1
  {
    var (seen, d) := Visit(g, ts[0], visited, depth + 1);
    var best' := if d > best then d else best;
    assert ts[0] in ts;
    if Succ(g, ts[0]) == [] {
      LeafVisitsItself(g, ts[0], visited, depth + 1);
    }
    if x in seen {
      DepthCoversLevels(g, ts[0], visited, depth + 1, level, x);
      BestGrows(g, ts[1..], seen, depth, best');
    } else {
      assert forall c :: c in ts[1..] ==> c in ts;
      BestCoversLevels(g, ts[1..], seen, depth, best', level, x);
    }
  }

  /** A walk climbs one level per step up to a table with dependents. */
  lemma {:induction false} WalkClimbs(g: Graph, start: string, level: string -> int, w: seq<string>)
    requires Levelled(g, start, level) && WalkFrom(g, start, w) && Succ(g, w[|w| - 1]) != []
    ensures level(w[|w| - 1]) == level(start) + |w| - 1
    decreases |w|
  {
    if |w| > 1 {
      TailOfWalk(g, w);
      LevelledOnward(g, start, w[1], level);
      WalkClimbs(g, w[1], level, w[1..]);
      assert |w| > 2 ==> w[1..][1] in Succ(g, w[1]);
    }
  }

  lemma LevelledDepthBounds(g: Graph, start: string, level: string -> int)
    requires Levelled(g, start, level) && level(start) == 0
    ensures Bounds(g, start, Visit(g, start, {}, 0).1)
  {
    DepthGrowsExactly(g, start, {}, 0);
    forall w | WalkFrom(g, start, w) ensures |w| - 1 <= Visit(g, start, {}, 0).1 {
      if |w| > 1 {
        var x, front := w[|w| - 2], w[..|w| - 1];
        assert w[(|w| - 2) + 1] in Succ(g, x);
        assert WalkBetween(g, start, x, front);
        WalkClimbs(g, start, level, front);
        VisitsExactlyTheReachable(g, start, x);
        DepthCoversLevels(g, start, {}, 0, level, x);
      }
    }
  }

  /** MAIN RESULT. When the reachable tables with dependents fall into levels, the reported depth is
      the height: some chain of dependents is that long and none is longer. */
  lemma DepthIsTheHeight(g: Graph, start: string, level: string -> int)
    requires Levelled(g, start, level)
    ensures Bounds(g, start, Visit(g, start, {}, 0).1)
    ensures exists w :: WalkFrom(g, start, w) && |w| - 1 == Visit(g, start, {}, 0).1
  {
    var shifted := (x: string) => level(x) - level(start);
    assert Levelled(g, start, shifted);
    LevelledDepthBounds(g, start, shifted);
    var w := DepthIsAWalk(g, start, {}, 0);
  }

  /** A table without dependents may be reached in different numbers of steps. */
  lemma ShortcutToLeaf()
    ensures var g: Graph := map["a" := ["c", "b"], "b" := ["c"]];
            Bounds(g, "a", Visit(g, "a", {}, 0).1) && WalkFrom(g, "a", ["a", "c"]) && WalkFrom(g, "a", ["a", "b", "c"])
  {
    var g: Graph := map["a" := ["c", "b"], "b" := ["c"]];
    var level := (x: string) => if x == "a" then 0 else 1;
    forall x, y | Reaches(g, "a", x) && y in Succ(g, x) && Succ(g, y) != [] ensures level(y) == level(x) + 1 {
      assert y == "b" && x == "a";
    }
    DepthIsTheHeight(g, "a", level);
  }

  /** Some walk leads from one table to the other in at most n steps. */
  ghost predicate Within(g: Graph, a: string, b: string, n: int) {
    exists w :: WalkBetween(g, a, b, w) && |w| - 1 <= n
  }

  ghost predicate AnyWithin(g: Graph, ts: seq<string>, x: string, n: int) {
    exists i :: 0 <= i < |ts| && Within(g, ts[i], x, n)
  }

  lemma WithinNext(g: Graph, t: string, x: string, n: int)
    requires AnyWithin(g, Succ(g, t), x, n - 1)
    ensures Within(g, t, x, n)
  {
    var i :| 0 <= i < |Succ(g, t)| && Within(g, Succ(g, t)[i], x, n - 1);
    var w :| WalkBetween(g, Succ(g, t)[i], x, w) && |w| - 1 <= n - 1;
    PrependWalk(g, t, Succ(g, t)[i], w);
    assert WalkBetween(g, t, x, [t] + w);
  }

  /** Every newly visited table is within the reported depth of the start. */
  lemma {:induction false} VisitedAreNear(g: Graph, t: string, visited: set<string>, depth: int, x: string)
    requires x in Visit(g, t, visited, depth).0 - visited
    ensures Within(g, t, x, Visit(g, t, visited, depth).1 - depth)
    decreases g.Keys - visited, 0
  {
    DepthGrowsExactly(g, t, visited, depth);
    if x == t {
      assert WalkBetween(g, t, t, [t]);
    } else {
      assert t in g.Keys - visited;
      AllVisitedAreNear(g, g[t], visited + {t}, depth, depth, x);
      WithinNext(g, t, x, Visit(g, t, visited, depth).1 - depth);
    }
  }

  lemma {:induction false} AllVisitedAreNear(g: Graph, ts: seq<string>, visited: set<string>, depth: int, best: int,
                                             x: string)
    requires x in VisitAll(g, ts, visited, depth, best).0 - visited
    ensures AnyWithin(g, ts, x, VisitAll(g, ts, visited, depth, best).1 - depth - 1)
    decreases g.Keys - visited, |ts| + 1
  {
    var (seen, d) := Visit(g, ts[0], visited, depth + 1);
    var best' := if d > best then d else best;
    var n := VisitAll(g, ts, visited, depth, best).1 - depth - 1;
    if x in seen {
      VisitedAreNear(g, ts[0], visited, depth + 1, x);
      BestGrows(g, ts[1..], seen, depth, best');
      var w :| WalkBetween(g, ts[0], x, w) && |w| - 1 <= d - depth - 1;
      assert Within(g, ts[0], x, n);
    } else {
      AllVisitedAreNear(g, ts[1..], seen, depth, best', x);
      var i :| 0 <= i < |ts[1..]| && Within(g, ts[1..][i], x, n);
      assert Within(g, ts[i + 1], x, n);
    }
  }

  /** On every graph the depth is at least the distance of every reachable table: some chain no
      longer than it leads there. */
  lemma DepthCoversDistances(g: Graph, start: string, x: string)
    requires Reaches(g, start, x)
    ensures Within(g, start, x, Visit(g, start, {}, 0).1)
  {
    VisitsExactlyTheReachable(g, start, x);
    VisitedAreNear(g, start, {}, 0, x);
  }

  /** No two different walks from the root end in the same table. */
  ghost predicate UniqueWalks(g: Graph, root: string) {
    forall v, w :: WalkFrom(g, root, v) && WalkFrom(g, root, w) && v[|v| - 1] == w[|w| - 1] ==> v == w
  }

  ghost function StepsTo(g: Graph, root: string, x: string): int {
    if w :| WalkBetween(g, root, x, w) then |w| - 1 else 0
  }

  /** In particular the depth is the height when every table is reached by one chain only. */
  lemma UniqueWalksGiveHeight(g: Graph, root: string)
    requires UniqueWalks(g, root)
    ensures Bounds(g, root, Visit(g, root, {}, 0).1)
    ensures exists w :: WalkFrom(g, root, w) && |w| - 1 == Visit(g, root, {}, 0).1
  {
    var level := (x: string) => StepsTo(g, root, x);
    forall x, y | Reaches(g, root, x) && y in Succ(g, x) ensures level(y) == level(x) + 1 {
      var w :| WalkBetween(g, root, x, w);
      AppendWalk(g, root, w, y);
      assert WalkBetween(g, root, y, w + [y]);
    }
    DepthIsTheHeight(g, root, level);
  }

  ghost predicate ReachesByMore(g: Graph, a: string, b: string, n: nat) {
    exists w :: WalkBetween(g, a, b, w) && |w| > n
  }

  /** A chain that can come back to where it was has no longest one, so no depth is its height. */
  lemma {:induction false} CycleHasNoHeight(g: Graph, start: string, x: string, c: string, n: nat)
    requires Reaches(g, start, x) && c in Succ(g, x) && Reaches(g, c, x)
    ensures ReachesByMore(g, start, x, n)
  {
    if n == 0 {
      var w :| WalkBetween(g, start, x, w);
    } else {
      CycleHasNoHeight(g, start, x, c, n - 1);
      var shorter :| WalkBetween(g, start, x, shorter) && |shorter| > n - 1;
      var round :| WalkBetween(g, c, x, round);
      JoinWalks(g, start, shorter, c, round);
      assert WalkBetween(g, start, x, shorter + round);
    }
  }

  /** Without levels, the shared visited set can hide the longest chain: here it has three steps,
      yet the search reports two ... */
  lemma DepthMissesLongestChain()
    ensures var g: Graph := map["a" := ["c", "b"], "b" := ["c"], "c" := ["d"]];
            Visit(g, "a", {}, 0).1 == 2 && WalkFrom(g, "a", ["a", "b", "c", "d"])
  {
    var g: Graph := map["a" := ["c", "b"], "b" := ["c"], "c" := ["d"]];
    var (seen, d) := Visit(g, "c", {"a"}, 1);
    SingleDependent(g, "c", "d", {"a"}, 1);
    SingleDependent(g, "b", "c", seen, 1);
    VisitPair(g, "a", "c", "b");
  }

  /** ... while the same dependents listed the other way round give three. */
  lemma DepthDependsOnListOrder()
    ensures var g: Graph := map["a" := ["b", "c"], "b" := ["c"], "c" := ["d"]];
            Visit(g, "a", {}, 0).1 == 3
  {
    var g: Graph := map["a" := ["b", "c"], "b" := ["c"], "c" := ["d"]];
    SingleDependent(g, "b", "c", {"a"}, 1);
    SingleDependent(g, "c", "d", {"a"} + {"b"}, 2);
    VisitPair(g, "a", "b", "c");
  }

  lemma SingleDependent(g: Graph, t: string, u: string, visited: set<string>, depth: int)
    requires t !in visited && t in g && g[t] == [u]
    ensures Visit(g, t, visited, depth) == Visit(g, u, visited + {t}, depth + 1)
  {
    DepthGrowsExactly(g, u, visited + {t}, depth + 1);
    var (seen, d) := Visit(g, u, visited + {t}, depth + 1);
    assert g[t][1..] == [];
    assert VisitAll(g, [], seen, depth, d) == (seen, d);
  }

  lemma VisitPair(g: Graph, t: string, u: string, v: string)
    requires t in g && g[t] == [u, v]
    ensures var (seen, d) := Visit(g, u, {t}, 1); var e := Visit(g, v, seen, 1).1;
            Visit(g, t, {}, 0).1 == if e > d then e else d
  {
    var (seen, d) := Visit(g, u, {t}, 1);
    DepthGrowsExactly(g, u, {t}, 1);
    var (all, e) := Visit(g, v, seen, 1);
    assert {} + {t} == {t};
    assert g[t][1..] == [v] && [v][1..] == [];
    assert VisitAll(g, [], all, 0, if e > d then e else d).1 == if e > d then e else d;
    assert VisitAll(g, [v], seen, 0, d).1 == if e > d then e else d;
  }
}
