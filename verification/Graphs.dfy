/** Finite directed graphs as adjacency lists, walks and reachability. A name without a list has
    no successors. */
module Graphs {
  type Graph = map<string, seq<string>>

  function Succ(g: Graph, x: string): seq<string> {
    if x in g then g[x] else []
  }

  ghost predicate NoRepeats(s: seq<string>) {
    forall i, j :: 0 <= i < j < |s| ==> s[i] != s[j]
  }

  ghost predicate IsWalk(g: Graph, w: seq<string>) {
    |w| > 0 && forall i :: 0 <= i < |w| - 1 ==> w[i + 1] in Succ(g, w[i])
  }

  ghost predicate WalkFrom(g: Graph, a: string, w: seq<string>) {
    IsWalk(g, w) && w[0] == a
  }

  ghost predicate WalkBetween(g: Graph, a: string, b: string, w: seq<string>) {
    WalkFrom(g, a, w) && w[|w| - 1] == b
  }

  ghost predicate Reaches(g: Graph, a: string, b: string) {
    exists w :: WalkBetween(g, a, b, w)
  }

  lemma ReachesSelf(g: Graph, a: string)
    ensures Reaches(g, a, a)
  {
    assert WalkBetween(g, a, a, [a]);
  }

  lemma PrependWalk(g: Graph, a: string, b: string, w: seq<string>)
    requires b in Succ(g, a) && WalkFrom(g, b, w)
    ensures WalkFrom(g, a, [a] + w) && ([a] + w)[|w|] == w[|w| - 1]
  {
  }

  lemma AppendWalk(g: Graph, a: string, w: seq<string>, b: string)
    requires WalkFrom(g, a, w) && b in Succ(g, w[|w| - 1])
    ensures WalkBetween(g, a, b, w + [b])
  {
  }

  lemma JoinWalks(g: Graph, a: string, v: seq<string>, b: string, w: seq<string>)
    requires WalkFrom(g, a, v) && WalkFrom(g, b, w) && b in Succ(g, v[|v| - 1])
    ensures WalkBetween(g, a, w[|w| - 1], v + w)
  {
  }

  lemma ReachesStep(g: Graph, a: string, b: string, c: string)
    requires b in Succ(g, a) && Reaches(g, b, c)
    ensures Reaches(g, a, c)
  {
    var w :| WalkBetween(g, b, c, w);
    PrependWalk(g, a, b, w);
    assert WalkBetween(g, a, c, [a] + w);
  }

  lemma TailOfWalk(g: Graph, w: seq<string>)
    requires IsWalk(g, w) && |w| > 1
    ensures WalkFrom(g, w[1], w[1..]) && w[1] in Succ(g, w[0])
  {
  }

  lemma WalkUnfold(g: Graph, w: seq<string>)
    requires |w| > 1
    ensures IsWalk(g, w) <==> w[1] in Succ(g, w[0]) && IsWalk(g, w[1..])
  {
  }

  /** Reaching is being there already, or reaching from a successor. */
  lemma ReachesUnfold(g: Graph, a: string, b: string)
    requires Reaches(g, a, b) && a != b
    ensures exists c :: c in Succ(g, a) && Reaches(g, c, b)
  {
    var w :| WalkBetween(g, a, b, w);
    TailOfWalk(g, w);
    assert WalkBetween(g, w[1], b, w[1..]);
  }

  ghost predicate Closed(g: Graph, s: set<string>) {
    forall x, y :: x in s && y in Succ(g, x) ==> y in s
  }

  /** A closed set holds every end of a walk that starts in it. */
  lemma {:induction false} ClosedHoldsWalks(g: Graph, s: set<string>, w: seq<string>)
    requires Closed(g, s) && IsWalk(g, w) && w[0] in s
    ensures w[|w| - 1] in s
    decreases |w|
  {
    if |w| > 1 {
      TailOfWalk(g, w);
      ClosedHoldsWalks(g, s, w[1..]);
    }
  }

  /** Turning every edge around turns walks around. */
  ghost predicate Mirrors(g: Graph, h: Graph) {
    forall x, y :: y in Succ(g, x) <==> x in Succ(h, y)
  }

  lemma {:induction false} MirrorWalk(g: Graph, h: Graph, a: string, b: string, w: seq<string>)
    requires Mirrors(g, h) && WalkBetween(g, a, b, w)
    ensures Reaches(h, b, a)
    decreases |w|
  {
    if |w| == 1 {
      ReachesSelf(h, a);
    } else {
      TailOfWalk(g, w);
      MirrorWalk(g, h, w[1], b, w[1..]);
      var back :| WalkBetween(h, b, w[1], back);
      AppendWalk(h, b, back, a);
    }
  }

  lemma MirrorReaches(g: Graph, h: Graph, a: string, b: string)
    requires Mirrors(g, h)
    ensures Reaches(g, a, b) <==> Reaches(h, b, a)
  {
    if Reaches(g, a, b) {
      var w :| WalkBetween(g, a, b, w);
      MirrorWalk(g, h, a, b, w);
    }
    if Reaches(h, b, a) {
      var w :| WalkBetween(h, b, a, w);
      MirrorWalk(h, g, b, a, w);
    }
  }
}
