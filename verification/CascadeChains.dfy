/** Lineage impact analysis: which chains of dependents the depth-first search follows, and when the
    depth it reports is the length of the longest one. */
module CascadeChains {
  import opened Graphs
  import opened CascadeDepth

  // ---- what a search visits around what was visited before

  ghost predicate Avoids(w: seq<string>, s: set<string>) {
    forall i :: 0 <= i < |w| ==> w[i] !in s
  }

  ghost predicate ReachesOutside(g: Graph, s: set<string>, a: string, b: string) {
    exists w :: WalkBetween(g, a, b, w) && Avoids(w, s)
  }

  ghost predicate AnyReachesOutside(g: Graph, s: set<string>, ts: seq<string>, x: string) {
    exists i :: 0 <= i < |ts| && ReachesOutside(g, s, ts[i], x)
  }

  lemma {:induction false} VisitKeepsOutside(g: Graph, t: string, visited: set<string>, depth: int, x: string)
    requires x in Visit(g, t, visited, depth).0 - visited
    ensures ReachesOutside(g, visited, t, x)
    decreases g.Keys - visited, 0
  {
    if x == t {
      assert WalkBetween(g, t, t, [t]) && Avoids([t], visited);
    } else {
      assert t in g.Keys - visited;
      var c := VisitAllKeepsOutside(g, g[t], visited + {t}, depth, depth, x);
      var w :| WalkBetween(g, c, x, w) && Avoids(w, visited + {t});
      PrependWalk(g, t, c, w);
      assert WalkBetween(g, t, x, [t] + w) && Avoids([t] + w, visited);
    }
  }

  lemma {:induction false} VisitAllKeepsOutside(g: Graph, ts: seq<string>, visited: set<string>, depth: int,
                                                best: int, x: string) returns (c: string)
    requires x in VisitAll(g, ts, visited, depth, best).0 - visited
    ensures c in ts && ReachesOutside(g, visited, c, x)
    decreases g.Keys - visited, |ts| + 1
  {
    var (seen, d) := Visit(g, ts[0], visited, depth + 1);
    if x in seen {
      c := ts[0];
      VisitKeepsOutside(g, c, visited, depth + 1, x);
    } else {
      c := VisitAllKeepsOutside(g, ts[1..], seen, depth, if d > best then d else best, x);
      var w :| WalkBetween(g, c, x, w) && Avoids(w, seen);
      assert Avoids(w, visited);
    }
  }

  /** Whatever is in the larger set and not in the smaller has its dependents in the larger. */
  ghost predicate Sealed(g: Graph, inner: set<string>, s: set<string>) {
    forall x, y :: x in s - inner && y in Succ(g, x) ==> y in s
  }

  /** A walk that starts in a sealed set leaves it only through the inner set. */
  lemma {:induction false} SealedHoldsWalks(g: Graph, inner: set<string>, s: set<string>, w: seq<string>, i: nat)
    requires Sealed(g, inner, s) && IsWalk(g, w) && Avoids(w, inner) && i < |w| && w[i] in s
    ensures w[|w| - 1] in s
    decreases |w| - i
  {
    if i + 1 < |w| {
      assert w[i + 1] in Succ(g, w[i]);
      SealedHoldsWalks(g, inner, s, w, i + 1);
    }
  }

  lemma VisitAllSeals(g: Graph, ts: seq<string>, visited: set<string>, depth: int, best: int)
    ensures Sealed(g, visited, VisitAll(g, ts, visited, depth, best).0)
  {
    var seen := VisitAll(g, ts, visited, depth, best).0;
    forall x, y | x in seen - visited && y in Succ(g, x) ensures y in seen {
      VisitAllCloses(g, ts, visited, depth, best, x, y);
    }
  }

  /** MAIN RESULT. A search over a list of tables, started with some tables visited, visits besides
      them exactly what the list reaches around them, whatever the depths. */
  lemma VisitsExactlyOutside(g: Graph, ts: seq<string>, visited: set<string>, depth: int, best: int, x: string)
    ensures x in VisitAll(g, ts, visited, depth, best).0 <==> x in visited || AnyReachesOutside(g, visited, ts, x)
  {
    var seen := VisitAll(g, ts, visited, depth, best).0;
    if x in seen && x !in visited {
      var c := VisitAllKeepsOutside(g, ts, visited, depth, best, x);
    }
    if AnyReachesOutside(g, visited, ts, x) {
      var i :| 0 <= i < |ts| && ReachesOutside(g, visited, ts[i], x);
      var w :| WalkBetween(g, ts[i], x, w) && Avoids(w, visited);
      VisitAllCovers(g, ts, visited, depth, best);
      VisitAllSeals(g, ts, visited, depth, best);
      SealedHoldsWalks(g, visited, seen, w, 0);
    }
  }

  // ---- the chains the search goes down

  /** What is visited after a list of tables, the depths left aside. */
  function Seen(g: Graph, ts: seq<string>, visited: set<string>): (r: set<string>)
    ensures visited <= r
  {
    VisitAll(g, ts, visited, 0, 0).0
  }

  lemma SeenAnyDepth(g: Graph, ts: seq<string>, visited: set<string>, depth: int, best: int)
    ensures VisitAll(g, ts, visited, depth, best).0 == Seen(g, ts, visited)
  {
    forall x ensures x in VisitAll(g, ts, visited, depth, best).0 <==> x in Seen(g, ts, visited) {
      VisitsExactlyOutside(g, ts, visited, depth, best, x);
      VisitsExactlyOutside(g, ts, visited, 0, 0, x);
    }
  }

  lemma SeenOne(g: Graph, t: string, visited: set<string>, depth: int)
    ensures Seen(g, [t], visited) == Visit(g, t, visited, depth).0
  {
    SeenAnyDepth(g, [t], visited, depth - 1, 0);
    var (seen, d) := Visit(g, t, visited, depth - 1 + 1);
    assert [t][1..] == [];
    assert VisitAll(g, [t], visited, depth - 1, 0).0 == VisitAll(g, [], seen, depth - 1, if d > 0 then d else 0).0;
  }

  lemma SeenFirst(g: Graph, ts: seq<string>, visited: set<string>, depth: int)
    requires ts != []
    ensures Seen(g, ts, visited) == Seen(g, ts[1..], Visit(g, ts[0], visited, depth).0)
  {
    var (seen, d) := Visit(g, ts[0], visited, 0 + 1);
    SeenOne(g, ts[0], visited, depth);
    SeenOne(g, ts[0], visited, 1);
    SeenAnyDepth(g, ts[1..], seen, 0, if d > 0 then d else 0);
  }

  /** The depth found below a list of tables is that below one of them, and no less than any. */
  lemma {:induction false} BestIsSome(g: Graph, ts: seq<string>, visited: set<string>, depth: int, best: int)
    returns (k: nat)
    requires VisitAll(g, ts, visited, depth, best).1 > best
    ensures k < |ts|
    ensures Visit(g, ts[k], Seen(g, ts[..k], visited), depth + 1).1 == VisitAll(g, ts, visited, depth, best).1
    decreases |ts|
  {
    var (seen, d) := Visit(g, ts[0], visited, depth + 1);
    var best' := if d > best then d else best;
    if VisitAll(g, ts[1..], seen, depth, best').1 > best' {
      var j := BestIsSome(g, ts[1..], seen, depth, best');
      k := j + 1;
      SeenFirst(g, ts[..k], visited, depth + 1);
      assert ts[..k][1..] == ts[1..][..j];
    } else {
      k := 0;
      BestGrows(g, ts[1..], seen, depth, best');
      assert ts[..0] == [] && Seen(g, [], visited) == visited;
    }
  }

  lemma {:induction false} BestIsMost(g: Graph, ts: seq<string>, visited: set<string>, depth: int, best: int, k: nat)
    requires k < |ts|
    ensures Visit(g, ts[k], Seen(g, ts[..k], visited), depth + 1).1 <= VisitAll(g, ts, visited, depth, best).1
    decreases |ts|
  {
    var (seen, d) := Visit(g, ts[0], visited, depth + 1);
    var best' := if d > best then d else best;
    BestGrows(g, ts[1..], seen, depth, best');
    if k > 0 {
      SeenFirst(g, ts[..k], visited, depth + 1);
      assert ts[..k][1..] == ts[1..][..k - 1];
      BestIsMost(g, ts[1..], seen, depth, best', k - 1);
    } else {
      assert ts[..0] == [] && Seen(g, [], visited) == visited;
    }
  }

  /** A chain along which every table is first visited from the one before it. */
  ghost predicate Fresh(g: Graph, w: seq<string>, visited: set<string>)
    decreases |w|
  {
    && w != [] && w[0] !in visited
    && (|w| > 1 ==> exists k :: FreshStep(g, w, visited, k))
  }

  ghost predicate FreshStep(g: Graph, w: seq<string>, visited: set<string>, k: int)
    requires |w| > 1
    decreases |w|, 0
  {
    var ts := Succ(g, w[0]);
    0 <= k < |ts| && ts[k] == w[1] && Fresh(g, w[1..], Seen(g, ts[..k], visited + {w[0]}))
  }

  lemma {:induction false} DepthHasChain(g: Graph, t: string, visited: set<string>, depth: int, n: int)
    returns (w: seq<string>)
    requires 1 <= n <= Visit(g, t, visited, depth).1 - depth
    ensures Fresh(g, w, visited) && w[0] == t && |w| == n && Succ(g, w[n - 1]) != []
    decreases n
  {
    DepthGrowsExactly(g, t, visited, depth);
    w := [t];
    if n > 1 {
      var k := BestIsSome(g, g[t], visited + {t}, depth, depth);
      var seen := Seen(g, g[t][..k], visited + {t});
      var tail := DepthHasChain(g, g[t][k], seen, depth + 1, n - 1);
      w := [t] + tail;
      assert w[1..] == tail;
      assert FreshStep(g, w, visited, k);
    }
  }

  lemma {:induction false} ChainHasDepth(g: Graph, w: seq<string>, visited: set<string>, depth: int)
    requires Fresh(g, w, visited) && Succ(g, w[|w| - 1]) != []
    ensures Visit(g, w[0], visited, depth).1 >= depth + |w|
    decreases |w|
  {
    DepthGrowsExactly(g, w[0], visited, depth);
    if |w| > 1 {
      var k :| FreshStep(g, w, visited, k);
      var ts := Succ(g, w[0]);
      ChainHasDepth(g, w[1..], Seen(g, ts[..k], visited + {w[0]}), depth + 1);
      BestIsMost(g, ts, visited + {w[0]}, depth, depth, k);
    }
  }

  // ---- the same chains, told without the search

  /** No earlier entry of the list leads around the chain so far to anything later on the chain. */
  ghost predicate ClearStep(g: Graph, w: seq<string>, i: nat)
    requires i + 1 < |w|
  {
    exists k :: ClearEntry(g, w, i, k)
  }

  ghost predicate ClearEntry(g: Graph, w: seq<string>, i: nat, k: int)
    requires i + 1 < |w|
  {
    var ts := Succ(g, w[i]);
    && 0 <= k < |ts| && ts[k] == w[i + 1]
    && forall j :: i < j < |w| ==> !AnyReachesOutside(g, Members(w[..i + 1]), ts[..k], w[j])
  }

  function Members(w: seq<string>): set<string> {
    set x | x in w
  }

  /** A chain without repeats that no detour by earlier list entries cuts short. */
  ghost predicate Clear(g: Graph, w: seq<string>) {
    w != [] && NoRepeats(w) && forall i :: 0 <= i < |w| - 1 ==> ClearStep(g, w, i)
  }

  /** Around a sealed set or only around its inner part, the same is reached outside it. */
  lemma SealedOutside(g: Graph, inner: set<string>, s: set<string>, ts: seq<string>, x: string)
    requires inner <= s && Sealed(g, inner, s) && x !in s
    ensures AnyReachesOutside(g, s, ts, x) <==> AnyReachesOutside(g, inner, ts, x)
  {
    forall i | 0 <= i < |ts| ensures ReachesOutside(g, s, ts[i], x) <==> ReachesOutside(g, inner, ts[i], x) {
      if ReachesOutside(g, s, ts[i], x) {
        var w :| WalkBetween(g, ts[i], x, w) && Avoids(w, s);
        assert Avoids(w, inner);
      }
      if ReachesOutside(g, inner, ts[i], x) {
        var w :| WalkBetween(g, ts[i], x, w) && Avoids(w, inner);
        forall j | 0 <= j < |w| ensures w[j] !in s {
          if w[j] in s {
            SealedHoldsWalks(g, inner, s, w, j);
          }
        }
      }
    }
  }

  /** The search's state when it has gone down the chain to its i-th table. */
  ghost predicate Along(g: Graph, w: seq<string>, i: nat, visited: set<string>)
    requires i <= |w|
  {
    Members(w[..i]) <= visited && Sealed(g, Members(w[..i]), visited)
  }

  lemma AlongNext(g: Graph, w: seq<string>, i: nat, visited: set<string>, k: nat)
    requires i < |w| && Along(g, w, i, visited) && k <= |Succ(g, w[i])|
    ensures var seen := Seen(g, Succ(g, w[i])[..k], visited + {w[i]});
            Along(g, w, i + 1, seen) && Along(g, w, i + 1, visited + {w[i]})
  {
    var ts := Succ(g, w[i])[..k];
    assert w[..i + 1] == w[..i] + [w[i]];
    VisitAllSeals(g, ts, visited + {w[i]}, 0, 0);
  }

  /** What an entry leaves unvisited of the rest of the chain, in both tellings. */
  lemma EntryAgrees(g: Graph, w: seq<string>, i: nat, visited: set<string>, k: nat, x: string)
    requires i < |w| && Along(g, w, i, visited) && k <= |Succ(g, w[i])| && x !in visited + {w[i]}
    ensures x in Seen(g, Succ(g, w[i])[..k], visited + {w[i]})
            <==> AnyReachesOutside(g, Members(w[..i + 1]), Succ(g, w[i])[..k], x)
  {
    var ts := Succ(g, w[i])[..k];
    AlongNext(g, w, i, visited, k);
    VisitsExactlyOutside(g, ts, visited + {w[i]}, 0, 0, x);
    SealedOutside(g, Members(w[..i + 1]), visited + {w[i]}, ts, x);
  }

  /** The rest of the chain is clear and nothing on it has been visited. */
  ghost predicate ClearFrom(g: Graph, w: seq<string>, i: nat, visited: set<string>)
    requires i <= |w|
  {
    && Avoids(w[i..], visited) && NoRepeats(w[i..])
    && forall j :: i <= j < |w| - 1 ==> ClearStep(g, w, j)
  }

  lemma {:induction false} FreshIsClear(g: Graph, w: seq<string>, i: nat, visited: set<string>)
    requires i < |w| && Along(g, w, i, visited)
    ensures Fresh(g, w[i..], visited) <==> ClearFrom(g, w, i, visited)
    decreases |w| - i, 1
  {
    var rest := w[i..];
    assert rest[0] == w[i];
    if i + 1 < |w| && w[i] !in visited {
      forall k | 0 <= k < |Succ(g, w[i])|
        ensures FreshStep(g, rest, visited, k) <==> ClearEntry(g, w, i, k) && ClearFrom(g, w, i, visited)
      {
        StepIsClear(g, w, i, visited, k);
      }
      if ClearFrom(g, w, i, visited) {
        assert ClearStep(g, w, i);
        var k :| ClearEntry(g, w, i, k);
        assert FreshStep(g, rest, visited, k);
      }
    }
  }

  lemma {:induction false} StepIsClear(g: Graph, w: seq<string>, i: nat, visited: set<string>, k: nat)
    requires i + 1 < |w| && Along(g, w, i, visited) && k < |Succ(g, w[i])| && w[i] !in visited
    ensures FreshStep(g, w[i..], visited, k) <==> ClearEntry(g, w, i, k) && ClearFrom(g, w, i, visited)
    decreases |w| - i, 0
  {
    var ts, rest := Succ(g, w[i]), w[i..];
    var seen := Seen(g, ts[..k], visited + {w[i]});
    assert rest[0] == w[i] && rest[1] == w[i + 1] && rest[1..] == w[i + 1..];
    AlongNext(g, w, i, visited, k);
    FreshIsClear(g, w, i + 1, seen);
    forall j | i < j < |w|
      ensures w[j] !in seen <==>
              w[j] !in visited && w[j] != w[i] && !AnyReachesOutside(g, Members(w[..i + 1]), ts[..k], w[j])
    {
      if w[j] !in visited + {w[i]} {
        EntryAgrees(g, w, i, visited, k, w[j]);
      }
    }
    AvoidsTail(w, i, visited);
    AvoidsTail(w, i + 1, seen);
    if ClearEntry(g, w, i, k) {
      assert ClearStep(g, w, i);
    }
    NoRepeatsTail(w, i);
  }

  lemma AvoidsTail(w: seq<string>, i: nat, s: set<string>)
    requires i <= |w|
    ensures Avoids(w[i..], s) <==> forall j :: i <= j < |w| ==> w[j] !in s
  {
    forall j | i <= j < |w| ensures w[j] == w[i..][j - i] {
    }
  }

  lemma NoRepeatsTail(w: seq<string>, i: nat)
    requires i < |w|
    ensures NoRepeats(w[i..]) <==> NoRepeats(w[i + 1..]) && forall j :: i < j < |w| ==> w[j] != w[i]
  {
    var all, rest := w[i..], w[i + 1..];
    assert all == [w[i]] + rest;
    if NoRepeats(rest) && forall j :: i < j < |w| ==> w[j] != w[i] {
      forall a, b | 0 <= a < b < |all| ensures all[a] != all[b] {
        assert all[b] == w[i + b];
        assert a > 0 ==> all[a] == rest[a - 1] && all[b] == rest[b - 1];
      }
    }
    if NoRepeats(all) {
      forall a, b | 0 <= a < b < |rest| ensures rest[a] != rest[b] {
        assert rest[a] == all[a + 1] && rest[b] == all[b + 1];
      }
      forall j | i < j < |w| ensures w[j] != w[i] {
        assert w[j] == all[j - i];
      }
    }
  }

  lemma FreshFromNothing(g: Graph, w: seq<string>)
    requires w != []
    ensures Fresh(g, w, {}) <==> Clear(g, w)
  {
    assert w[..0] == [] && w[0..] == w;
    assert Along(g, w, 0, {});
    FreshIsClear(g, w, 0, {});
  }

  // ---- what the depth is

  /** A clear chain from the table whose last one has dependents itself. */
  ghost predicate ClearChain(g: Graph, start: string, w: seq<string>) {
    Clear(g, w) && w[0] == start && Succ(g, w[|w| - 1]) != []
  }

  /** MAIN RESULT. On every graph the reported depth is at least n exactly when some clear chain of
      at least n tables leads to one that has dependents. */
  lemma DepthExactly(g: Graph, start: string, n: int)
    requires n >= 1
    ensures Visit(g, start, {}, 0).1 >= n <==> exists w :: ClearChain(g, start, w) && |w| >= n
  {
    if Visit(g, start, {}, 0).1 >= n {
      var w := DepthHasChain(g, start, {}, 0, n);
      FreshFromNothing(g, w);
      assert ClearChain(g, start, w);
    }
    if w :| ClearChain(g, start, w) && |w| >= n {
      FreshFromNothing(g, w);
      ChainHasDepth(g, w, {}, 0);
    }
  }

  /** MAIN RESULT. So the depth is the length of the longest chain of dependents exactly when there
      are no dependents, or some clear chain is only one step short of the longest. */
  lemma HeightExactly(g: Graph, start: string)
    ensures Bounds(g, start, Visit(g, start, {}, 0).1)
            <==> Succ(g, start) == [] || exists w :: ClearChain(g, start, w) && Bounds(g, start, |w|)
  {
    var depth := Visit(g, start, {}, 0).1;
    DepthGrowsExactly(g, start, {}, 0);
    if Succ(g, start) == [] {
      forall w | WalkFrom(g, start, w) ensures |w| == 1 {
        if |w| > 1 {
          TailOfWalk(g, w);
          assert false;
        }
      }
    } else {
      DepthExactly(g, start, depth);
      if w :| ClearChain(g, start, w) && Bounds(g, start, |w|) {
        DepthExactly(g, start, |w|);
      }
    }
  }
}
