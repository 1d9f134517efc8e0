/** The loop that looks for a node of least value, the empty name standing for "none yet", over nodes
    that come in any order. */
module NodeSearch {
  /** What the loop ends with when the nodes come in this order. */
  function Search(value: string -> int, order: seq<string>): string {
    if order == [] then ""
    else
      var best, n := Search(value, order[..|order| - 1]), order[|order| - 1];
      if best == "" || value(n) < value(best) then n else best
  }

  /** The list is of exactly these nodes, each once. */
  ghost predicate Lists(order: seq<string>, nodes: set<string>) {
    && (forall n :: n in order <==> n in nodes)
    && forall i, j :: 0 <= i < j < |order| ==> order[i] != order[j]
  }

  /** What it may hold after these nodes: none that a named one beats, unless the nameless node came in
      between and beat that one. */
  ghost predicate Holds(value: string -> int, seen: set<string>, best: string) {
    if best == "" then
      seen == {} || ("" in seen && forall n :: n in seen && n != "" ==> value("") < value(n))
    else
      best in seen && forall n :: n in seen && n != "" && value(n) < value(best) ==> "" in seen && value("") < value(n)
  }

  lemma HoldsNext(value: string -> int, seen: set<string>, best: string, n: string)
    requires Holds(value, seen, best) && n !in seen
    ensures Holds(value, seen + {n}, if best == "" || value(n) < value(best) then n else best)
  {
  }

  lemma {:induction false} SearchHolds(value: string -> int, order: seq<string>, nodes: set<string>)
    requires Lists(order, nodes)
    ensures Holds(value, nodes, Search(value, order))
  {
    if order != [] {
      var front, n := order[..|order| - 1], order[|order| - 1];
      assert order == front + [n];
      SearchHolds(value, front, nodes - {n});
      HoldsNext(value, nodes - {n}, Search(value, front), n);
      assert (nodes - {n}) + {n} == nodes;
    }
  }

  lemma SearchNext(value: string -> int, order: seq<string>, n: string)
    ensures var best := Search(value, order);
            Search(value, order + [n]) == if best == "" || value(n) < value(best) then n else best
  {
  }

  /** Nodes that do not beat what is held leave it held. */
  lemma {:induction false} SearchStays(value: string -> int, order: seq<string>, best: string, rest: seq<string>)
    requires Search(value, order) == best && best != "" && forall n :: n in rest ==> value(n) >= value(best)
    ensures Search(value, order + rest) == best
  {
    if rest == [] {
      assert order + rest == order;
    } else {
      var front, n := rest[..|rest| - 1], rest[|rest| - 1];
      assert forall x :: x in front ==> x in rest;
      SearchStays(value, order, best, front);
      SearchNext(value, order + front, n);
      assert order + rest == (order + front) + [n];
    }
  }

  lemma {:induction false} SearchNamed(value: string -> int, order: seq<string>)
    requires "" !in order
    ensures if order == [] then Search(value, order) == "" else Search(value, order) in order
  {
    if order != [] {
      SearchNamed(value, order[..|order| - 1]);
    }
  }

  lemma {:induction false} SomeList(nodes: set<string>) returns (order: seq<string>)
    ensures Lists(order, nodes)
  {
    order := [];
    if nodes != {} {
      var n :| n in nodes;
      order := SomeList(nodes - {n});
      order := order + [n];
    }
  }

  lemma JoinLists(a: seq<string>, s: set<string>, b: seq<string>, t: set<string>)
    requires Lists(a, s) && Lists(b, t) && s !! t
    ensures Lists(a + b, s + t)
  {
    var both := a + b;
    forall i, j | 0 <= i < j < |both| ensures both[i] != both[j] {
      if i < |a| <= j {
        assert both[i] in s && both[j] in t;
      }
    }
  }

  /** The nameless node last, after others that it beats. */
  lemma NamelessLast(value: string -> int, seen: set<string>) returns (order: seq<string>)
    requires Holds(value, seen, "") && seen != {}
    ensures Lists(order, seen) && Search(value, order) == ""
  {
    var named := SomeList(seen - {""});
    SearchNamed(value, named);
    SearchNext(value, named, "");
    JoinLists(named, seen - {""}, [""], {""});
    order := named + [""];
    assert (seen - {""}) + {""} == seen;
  }

  lemma NamelessGivesWay(value: string -> int, first: seq<string>, best: string, rest: seq<string>)
    requires best != "" && "" !in first && forall n :: n in first ==> value("") < value(n)
    requires forall n :: n in rest ==> value(n) >= value(best)
    ensures Search(value, first + [""] + [best] + rest) == best
  {
    SearchNamed(value, first);
    SearchNext(value, first, "");
    SearchNext(value, first + [""], best);
    SearchStays(value, first + [""] + [best], best, rest);
  }

  lemma ListsOfFour(first: seq<string>, better: set<string>, best: string, rest: seq<string>, others: set<string>)
    requires Lists(first, better) && Lists(rest, others) && best != ""
    requires "" !in better + others && best !in better + others && better !! others
    ensures Lists(first + [""] + [best] + rest, better + {""} + {best} + others)
  {
    JoinLists(first, better, [""], {""});
    JoinLists(first + [""], better + {""}, [best], {best});
    JoinLists(first + [""] + [best], better + {""} + {best}, rest, others);
  }

  /** Those that beat the winner first, the nameless node that beats them all, the winner, the rest. */
  lemma WinnerAfterNameless(value: string -> int, seen: set<string>, best: string) returns (order: seq<string>)
    requires best != "" && Holds(value, seen, best) && "" in seen && value("") < value(best)
    ensures Lists(order, seen) && Search(value, order) == best
  {
    var better := set n | n in seen && n != "" && value(n) < value(best);
    var others := seen - better - {"", best};
    var first := SomeList(better);
    var rest := SomeList(others);
    NamelessGivesWay(value, first, best, rest);
    ListsOfFour(first, better, best, rest, others);
    order := first + [""] + [best] + rest;
    assert better + {""} + {best} + others == seen;
  }

  /** The winner first, when nothing beats it. */
  lemma WinnerFirst(value: string -> int, seen: set<string>, best: string) returns (order: seq<string>)
    requires best != "" && best in seen && forall n :: n in seen ==> value(n) >= value(best)
    ensures Lists(order, seen) && Search(value, order) == best
  {
    var rest := SomeList(seen - {best});
    SearchNext(value, [], best);
    assert [] + [best] == [best];
    SearchStays(value, [best], best, rest);
    JoinLists([best], {best}, rest, seen - {best});
    order := [best] + rest;
    assert {best} + (seen - {best}) == seen;
  }

  /** MAIN RESULT. What the loop may hold is exactly what it holds in some order of the nodes. */
  lemma HoldsInSomeOrder(value: string -> int, seen: set<string>, best: string)
    ensures Holds(value, seen, best) <==> exists order :: Lists(order, seen) && Search(value, order) == best
  {
    if order :| Lists(order, seen) && Search(value, order) == best {
      SearchHolds(value, order, seen);
    }
    if Holds(value, seen, best) {
      var order: seq<string> := [];
      if best == "" {
        if seen != {} {
          order := NamelessLast(value, seen);
        }
      } else if "" in seen && value("") < value(best) {
        order := WinnerAfterNameless(value, seen, best);
      } else {
        order := WinnerFirst(value, seen, best);
      }
      assert Lists(order, seen) && Search(value, order) == best;
    }
  }
}
