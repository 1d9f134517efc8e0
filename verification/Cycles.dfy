/** When a graph leads into no cycle: the same as having a measure that goes down along its edges. */
module Cycles {
  import opened Graphs
  import opened CascadeDepth
  import opened SetFacts

  /** Something reachable from the start lies on a cycle. */
  ghost predicate CycleAhead(g: Graph, start: string) {
    exists x, y :: Reaches(g, start, x) && y in Succ(g, x) && Reaches(g, y, x)
  }

  ghost predicate Acyclic(g: Graph) {
    forall x, y :: y in Succ(g, x) ==> !Reaches(g, y, x)
  }

  /** A measure that goes down along the edges from everything reachable from the start. */
  ghost predicate RankedFrom(g: Graph, start: string, rank: string -> nat) {
    forall x, y :: Reaches(g, start, x) && y in Succ(g, x) ==> rank(y) < rank(x)
  }

  ghost predicate Ranked(g: Graph, rank: string -> nat) {
    forall x, y :: y in Succ(g, x) ==> rank(y) < rank(x)
  }

  lemma RankedOnward(g: Graph, start: string, y: string, rank: string -> nat)
    requires RankedFrom(g, start, rank) && y in Succ(g, start)
    ensures RankedFrom(g, y, rank) && rank(y) < rank(start)
  {
    ReachesSelf(g, start);
    forall x, z | Reaches(g, y, x) && z in Succ(g, x) ensures rank(z) < rank(x) {
      ReachesStep(g, start, y, x);
    }
  }

  lemma {:induction false} RankFalls(g: Graph, w: seq<string>, rank: string -> nat)
    requires IsWalk(g, w) && RankedFrom(g, w[0], rank)
    ensures rank(w[|w| - 1]) <= rank(w[0])
    decreases |w|
  {
    if |w| > 1 {
      TailOfWalk(g, w);
      RankedOnward(g, w[0], w[1], rank);
      RankFalls(g, w[1..], rank);
    }
  }

  lemma ReachesThrough(g: Graph, a: string, b: string, c: string, d: string)
    requires Reaches(g, a, b) && c in Succ(g, b) && Reaches(g, c, d)
    ensures Reaches(g, a, d)
  {
    var v :| WalkBetween(g, a, b, v);
    var w :| WalkBetween(g, c, d, w);
    JoinWalks(g, a, v, c, w);
  }

  /** How many nodes are reachable from one. */
  function Ahead(g: Graph, x: string): nat {
    |Visit(g, x, {}, 0).0|
  }

  /** An edge on no cycle leads to a node with less ahead of it. */
  lemma AheadShrinks(g: Graph, x: string, y: string)
    requires y in Succ(g, x) && !Reaches(g, y, x)
    ensures Ahead(g, y) < Ahead(g, x)
  {
    var inner, outer := Visit(g, y, {}, 0).0, Visit(g, x, {}, 0).0;
    forall z | z in inner ensures z in outer {
      VisitsExactlyTheReachable(g, y, z);
      ReachesStep(g, x, y, z);
      VisitsExactlyTheReachable(g, x, z);
    }
    VisitsExactlyTheReachable(g, y, x);
    ReachesSelf(g, x);
    VisitsExactlyTheReachable(g, x, x);
    ProperSubsetSize(inner, outer);
  }

  /** MAIN RESULT. On every graph a start has a decreasing measure exactly when no cycle is ahead. */
  lemma RankedExactly(g: Graph, start: string)
    ensures (exists rank :: RankedFrom(g, start, rank)) <==> !CycleAhead(g, start)
  {
    if rank :| RankedFrom(g, start, rank) {
      forall x, y | Reaches(g, start, x) && y in Succ(g, x) ensures !Reaches(g, y, x) {
        if Reaches(g, y, x) {
          var w :| WalkBetween(g, y, x, w);
          forall a, b | Reaches(g, y, a) && b in Succ(g, a) ensures rank(b) < rank(a) {
            ReachesThrough(g, start, x, y, a);
          }
          RankFalls(g, w, rank);
        }
      }
    }
    if !CycleAhead(g, start) {
      var rank := (x: string) => Ahead(g, x);
      forall x, y | Reaches(g, start, x) && y in Succ(g, x) ensures rank(y) < rank(x) {
        AheadShrinks(g, x, y);
      }
      assert RankedFrom(g, start, rank);
    }
  }

  /** The same for the whole graph. */
  lemma AcyclicExactly(g: Graph)
    ensures (exists rank :: Ranked(g, rank)) <==> Acyclic(g)
  {
    if rank :| Ranked(g, rank) {
      forall x, y | y in Succ(g, x) ensures !Reaches(g, y, x) {
        assert RankedFrom(g, y, rank);
        if Reaches(g, y, x) {
          var w :| WalkBetween(g, y, x, w);
          RankFalls(g, w, rank);
        }
      }
    }
    if Acyclic(g) {
      var rank := (x: string) => Ahead(g, x);
      forall x, y | y in Succ(g, x) ensures rank(y) < rank(x) {
        AheadShrinks(g, x, y);
      }
      assert Ranked(g, rank);
    }
  }
}
