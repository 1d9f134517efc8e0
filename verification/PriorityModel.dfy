/** Query priority engine: four first-in first-out queues, seen as one list in arrival order. */
module PriorityModel {
  import opened Options

  datatype Operation = SELECT | INSERT | UPDATE | DELETE | OTHER

  datatype Query = Query(id: string, operation: Operation, requested: Option<int>)

  datatype Config = Config(defaultPriority: int, maxQueueSize: int)

  const LOW: int := 0
  const NORMAL: int := 1
  const HIGH: int := 2
  const CRITICAL: int := 3

  /** Each level's queue; the levels are fixed when the engine is made. */
  type Queues = map<int, seq<Query>>

  const LEVELS: set<int> := {LOW, NORMAL, HIGH, CRITICAL}

  const NO_QUERIES: Queues := map[LOW := [], NORMAL := [], HIGH := [], CRITICAL := []]

  function DeterminePriority(cfg: Config, q: Query): int {
    if q.requested.Some? then q.requested.value
    else
      match q.operation
      case SELECT => NORMAL
      case INSERT => HIGH
      case UPDATE => HIGH
      case DELETE => CRITICAL
      case OTHER => cfg.defaultPriority
  }

  /** A requested level always wins; otherwise deletes go before inserts and updates, and those
      before selects, whatever the default level is. */
  lemma OperationsInOrder(cfg: Config, q: Query)
    ensures q.requested.Some? ==> DeterminePriority(cfg, q) == q.requested.value
    ensures q.requested.None? && q.operation != OTHER ==>
              forall r: Query :: r.requested.None? && r.operation != OTHER ==>
                (DeterminePriority(cfg, q) < DeterminePriority(cfg, r) <==>
                   (q.operation == SELECT && r.operation != SELECT) || (r.operation == DELETE && q.operation != DELETE))
  {
  }

  function RemoveAt<T>(s: seq<T>, k: nat): seq<T>
    requires k < |s|
  {
    s[..k] + s[k + 1..]
  }

  /** What one call did; for a query taken out of a queue, from which level and position. */
  datatype Action =
    | Enqueued(query: Query, level: int)
    | Refused(query: Query)
    | Dequeued(query: Query, origin: int)
    | FoundEmpty
    | Moved(query: Query, origin: int, k: nat, level: int)
    | Dropped(query: Query, origin: int, k: nat, level: int)
    | NotFound(id: string)

  /** The query is the first with its identifier in its queue. */
  ghost predicate FirstWithId(items: seq<Query>, k: nat, q: Query) {
    k < |items| && items[k] == q && forall j :: 0 <= j < k ==> items[j].id != q.id
  }

  ghost predicate HasId(qs: Queues, id: string)
    requires qs.Keys == LEVELS
  {
    exists l, q :: l in LEVELS && q in qs[l] && q.id == id
  }

  /** The calls. Queues are searched for an identifier in no fixed order, a moved query joins its
      new queue unconditionally, and one whose new level is invalid is lost. */
  ghost predicate Does(cfg: Config, qs: Queues, a: Action, qs': Queues)
    requires qs.Keys == LEVELS
  {
    match a
    case Enqueued(q, level) =>
      level == DeterminePriority(cfg, q) && level in LEVELS && |qs[level]| < cfg.maxQueueSize &&
      qs' == qs[level := qs[level] + [q]]
    case Refused(q) =>
      var level := DeterminePriority(cfg, q);
      (level !in LEVELS || |qs[level]| >= cfg.maxQueueSize) && qs' == qs
    case Dequeued(q, l) =>
      l in LEVELS && qs[l] != [] && qs[l][0] == q && (forall h :: h in LEVELS && h > l ==> qs[h] == []) &&
      qs' == qs[l := RemoveAt(qs[l], 0)]
    case FoundEmpty => (forall l :: l in LEVELS ==> qs[l] == []) && qs' == qs
    case Moved(q, l, k, level) =>
      l in LEVELS && FirstWithId(qs[l], k, q) && level in LEVELS &&
      qs' == Join(qs[l := RemoveAt(qs[l], k)], level, q)
    case Dropped(q, l, k, level) =>
      l in LEVELS && FirstWithId(qs[l], k, q) && level !in LEVELS && qs' == qs[l := RemoveAt(qs[l], k)]
    case NotFound(id) => !HasId(qs, id) && qs' == qs
  }

  function Join(qs: Queues, level: int, q: Query): Queues
    requires level in qs
  {
    qs[level := qs[level] + [q]]
  }

  // ---- one list in arrival order

  datatype Pending = Pending(query: Query, level: int)

  /** The queries of one level, in arrival order. */
  function OfLevel(list: seq<Pending>, level: int): seq<Query> {
    if list == [] then []
    else
      var last := list[|list| - 1];
      OfLevel(list[..|list| - 1], level) + if last.level == level then [last.query] else []
  }

  ghost predicate Refines(qs: Queues, list: seq<Pending>) {
    && qs.Keys == LEVELS
    && (forall i :: 0 <= i < |list| ==> list[i].level in LEVELS)
    && (forall l :: l in LEVELS ==> qs[l] == OfLevel(list, l))
  }

  /** The list's entry to serve next: of the highest level, the earliest. */
  ghost predicate IsNext(list: seq<Pending>, i: nat) {
    && i < |list|
    && (forall j :: 0 <= j < |list| ==> list[j].level <= list[i].level)
    && (forall j :: 0 <= j < i ==> list[j].level < list[i].level)
  }

  /** What each action does to the arrival list. */
  ghost predicate ListStep(list: seq<Pending>, a: Action, list': seq<Pending>) {
    match a
    case Enqueued(q, level) => list' == list + [Pending(q, level)]
    case Refused(_) => list' == list
    case FoundEmpty => list == [] && list' == list
    case NotFound(id) => list' == list && forall i :: 0 <= i < |list| ==> list[i].query.id != id
    case Dequeued(q, from) =>
      exists i: nat :: IsNext(list, i) && list[i] == Pending(q, from) && list' == RemoveAt(list, i)
    case Moved(q, from, _, level) =>
      exists i :: 0 <= i < |list| && list[i] == Pending(q, from) && list' == RemoveAt(list, i) + [Pending(q, level)]
    case Dropped(q, from, _, _) =>
      exists i :: 0 <= i < |list| && list[i] == Pending(q, from) && list' == RemoveAt(list, i)
  }

  lemma OfLevelAppend(list: seq<Pending>, p: Pending, level: int)
    ensures OfLevel(list + [p], level) == OfLevel(list, level) + if p.level == level then [p.query] else []
  {
  }

  lemma RemoveBeforeLast(list: seq<Pending>, i: nat)
    requires i < |list| - 1
    ensures var front, last := list[..|list| - 1], list[|list| - 1];
            forall l :: OfLevel(RemoveAt(list, i), l) ==
                        OfLevel(RemoveAt(front, i), l) + if last.level == l then [last.query] else []
  {
    var front, last := list[..|list| - 1], list[|list| - 1];
    assert RemoveAt(list, i) == RemoveAt(front, i) + [last];
    forall l
      ensures OfLevel(RemoveAt(list, i), l) ==
              OfLevel(RemoveAt(front, i), l) + if last.level == l then [last.query] else []
    {
      OfLevelAppend(RemoveAt(front, i), last, l);
    }
  }

  /** Where the k-th query of a level sits in the list, and what taking it out leaves. */
  lemma {:induction false} Locate(list: seq<Pending>, level: int, k: nat) returns (i: nat)
    requires k < |OfLevel(list, level)|
    ensures i < |list| && list[i] == Pending(OfLevel(list, level)[k], level)
    ensures OfLevel(RemoveAt(list, i), level) == RemoveAt(OfLevel(list, level), k)
    ensures forall l :: l != level ==> OfLevel(RemoveAt(list, i), l) == OfLevel(list, l)
    ensures k == 0 ==> forall j :: 0 <= j < i ==> list[j].level != level
  {
    var n := |list| - 1;
    var front, last := list[..n], list[n];
    if k < |OfLevel(front, level)| {
      i := Locate(front, level, k);
      RemoveBeforeLast(list, i);
    } else {
      i := n;
      assert RemoveAt(list, n) == front;
      if k == 0 {
        NoneOfLevel(front, level);
      }
    }
  }

  lemma {:induction false} NoneOfLevel(list: seq<Pending>, level: int)
    ensures OfLevel(list, level) == [] <==> forall j :: 0 <= j < |list| ==> list[j].level != level
  {
    if list != [] {
      NoneOfLevel(list[..|list| - 1], level);
    }
  }

  lemma {:induction false} MemberOfLevel(list: seq<Pending>, i: nat)
    requires i < |list|
    ensures list[i].query in OfLevel(list, list[i].level)
  {
    if i < |list| - 1 {
      MemberOfLevel(list[..|list| - 1], i);
    }
  }

  lemma EnqueueRefines(qs: Queues, list: seq<Pending>, q: Query, level: int) returns (list': seq<Pending>)
    requires Refines(qs, list) && level in LEVELS
    ensures Refines(Join(qs, level, q), list') && list' == list + [Pending(q, level)]
  {
    list' := list + [Pending(q, level)];
    forall l | l in LEVELS ensures Join(qs, level, q)[l] == OfLevel(list', l) {
      OfLevelAppend(list, Pending(q, level), l);
    }
  }

  lemma RemoveRefines(qs: Queues, list: seq<Pending>, l: int, k: nat) returns (i: nat)
    requires Refines(qs, list) && l in LEVELS && k < |qs[l]|
    ensures i < |list| && list[i] == Pending(qs[l][k], l)
    ensures Refines(qs[l := RemoveAt(qs[l], k)], RemoveAt(list, i))
    ensures k == 0 ==> forall j :: 0 <= j < i ==> list[j].level != l
  {
    i := Locate(list, l, k);
  }

  lemma DequeueRefines(qs: Queues, list: seq<Pending>, l: int) returns (i: nat)
    requires Refines(qs, list) && l in LEVELS && qs[l] != []
    requires forall h :: h in LEVELS && h > l ==> qs[h] == []
    ensures IsNext(list, i) && list[i] == Pending(qs[l][0], l)
    ensures Refines(qs[l := RemoveAt(qs[l], 0)], RemoveAt(list, i))
  {
    i := RemoveRefines(qs, list, l, 0);
    forall j | 0 <= j < |list| ensures list[j].level <= l {
      MemberOfLevel(list, j);
    }
  }

  /** MAIN RESULT. Every call on the four queues is the corresponding step on one arrival-ordered
      list: serving takes the earliest entry of the highest level. */
  lemma CallsRefineArrivalOrder(cfg: Config, qs: Queues, list: seq<Pending>, a: Action, qs': Queues)
    returns (list': seq<Pending>)
    requires Refines(qs, list) && Does(cfg, qs, a, qs')
    ensures Refines(qs', list') && ListStep(list, a, list')
  {
    list' := list;
    match a
    case Enqueued(q, level) =>
      list' := EnqueueRefines(qs, list, q, level);
    case Refused(q) =>
    case FoundEmpty =>
      if list != [] {
        MemberOfLevel(list, 0);
      }
    case NotFound(id) =>
      forall i | 0 <= i < |list| ensures list[i].query.id != id {
        MemberOfLevel(list, i);
      }
    case Dequeued(q, l) =>
      var i := DequeueRefines(qs, list, l);
      list' := RemoveAt(list, i);
    case Moved(q, l, k, level) =>
      var i := RemoveRefines(qs, list, l, k);
      list' := EnqueueRefines(qs[l := RemoveAt(qs[l], k)], RemoveAt(list, i), q, level);
    case Dropped(q, l, k, level) =>
      var i := RemoveRefines(qs, list, l, k);
      list' := RemoveAt(list, i);
  }

  // ---- draining is a stable sort

  function Next(list: seq<Pending>): (i: nat)
    requires list != []
    ensures IsNext(list, i)
  {
    var n := |list| - 1;
    if n == 0 then 0
    else
      var i := Next(list[..n]);
      if list[n].level > list[i].level then n else i
  }

  /** The entries in the order repeated serving delivers them. */
  function Drain(list: seq<Pending>): seq<Pending>
    decreases |list|
  {
    if list == [] then [] else [list[Next(list)]] + Drain(RemoveAt(list, Next(list)))
  }

  ghost predicate Descending(list: seq<Pending>) {
    forall i, j :: 0 <= i < j < |list| ==> list[i].level >= list[j].level
  }

  ghost predicate SameOrderPerLevel(a: seq<Pending>, b: seq<Pending>) {
    forall l :: OfLevel(a, l) == OfLevel(b, l)
  }

  lemma {:induction false} OfLevelPrepend(p: Pending, list: seq<Pending>, level: int)
    ensures OfLevel([p] + list, level) == (if p.level == level then [p.query] else []) + OfLevel(list, level)
  {
    if list == [] {
      assert [p] + list == [] + [p];
      OfLevelAppend([], p, level);
    } else {
      var front, last := list[..|list| - 1], list[|list| - 1];
      OfLevelPrepend(p, front, level);
      assert [p] + list == ([p] + front) + [last];
      OfLevelAppend([p] + front, last, level);
    }
  }

  lemma {:induction false} DrainLevels(list: seq<Pending>)
    ensures SameOrderPerLevel(Drain(list), list)
    decreases |list|
  {
    if list != [] {
      var i := Next(list);
      var rest, p := RemoveAt(list, i), list[i];
      DrainLevels(rest);
      var level := FirstOfItsLevel(list, i);
      forall l ensures OfLevel(Drain(list), l) == OfLevel(list, l) {
        OfLevelPrepend(p, Drain(rest), l);
        assert OfLevel(Drain(rest), l) == OfLevel(rest, l);
      }
    }
  }

  lemma {:induction false} DrainMembers(list: seq<Pending>)
    ensures forall x :: x in Drain(list) ==> x in list
    decreases |list|
  {
    if list != [] {
      DrainMembers(RemoveAt(list, Next(list)));
    }
  }

  /** The next entry heads its level's queue, and taking it out takes that head off. */
  lemma FirstOfItsLevel(list: seq<Pending>, i: nat) returns (level: int)
    requires IsNext(list, i)
    ensures level == list[i].level
    ensures OfLevel(list, level) == [list[i].query] + OfLevel(RemoveAt(list, i), level)
    ensures forall l :: l != level ==> OfLevel(RemoveAt(list, i), l) == OfLevel(list, l)
  {
    level := list[i].level;
    MemberOfLevel(list, i);
    var j := Locate(list, level, 0);
    assert j == i;
  }

  lemma {:induction false} DrainDescends(list: seq<Pending>)
    ensures Descending(Drain(list))
    decreases |list|
  {
    if list != [] {
      var rest := RemoveAt(list, Next(list));
      DrainDescends(rest);
      DrainMembers(rest);
      forall x | x in Drain(rest) ensures x.level <= list[Next(list)].level {
        assert x in rest;
      }
    }
  }

  /** A descending list is determined by what it holds per level: stable sorting has one result. */
  lemma {:induction false} StableSortIsUnique(a: seq<Pending>, b: seq<Pending>)
    requires Descending(a) && Descending(b) && SameOrderPerLevel(a, b)
    ensures a == b
    decreases |a|
  {
    if a == [] {
      if b != [] {
        assert OfLevel(a, b[0].level) == OfLevel(b, b[0].level);
        MemberOfLevel(b, 0);
      }
    } else {
      TopOfOther(a, b);
      TopOfOther(b, a);
      HeadOfLevel(a);
      HeadOfLevel(b);
      assert OfLevel(a, a[0].level) == OfLevel(b, a[0].level);
      assert a[0] == b[0];
      TailsAgree(a, b);
      StableSortIsUnique(a[1..], b[1..]);
      assert a == [a[0]] + a[1..] && b == [b[0]] + b[1..];
    }
  }

  lemma HeadOfLevel(a: seq<Pending>)
    requires a != []
    ensures OfLevel(a, a[0].level) != [] && OfLevel(a, a[0].level)[0] == a[0].query
  {
  }

  lemma TailsAgree(a: seq<Pending>, b: seq<Pending>)
    requires a != [] && b != [] && a[0] == b[0] && SameOrderPerLevel(a, b)
    ensures SameOrderPerLevel(a[1..], b[1..])
  {
    assert a == [a[0]] + a[1..] && b == [b[0]] + b[1..];
    forall l ensures OfLevel(a[1..], l) == OfLevel(b[1..], l) {
      OfLevelPrepend(a[0], a[1..], l);
      OfLevelPrepend(b[0], b[1..], l);
      assert OfLevel(a, l) == OfLevel(b, l);
      SameTail(if a[0].level == l then [a[0].query] else [], OfLevel(a[1..], l), OfLevel(b[1..], l));
    }
  }

  lemma SameTail<T>(p: seq<T>, s: seq<T>, t: seq<T>)
    requires p + s == p + t
    ensures s == t
  {
    assert s == (p + s)[|p|..] && t == (p + t)[|p|..];
  }

  lemma TopOfOther(a: seq<Pending>, b: seq<Pending>)
    requires a != [] && Descending(b) && SameOrderPerLevel(a, b)
    ensures b != [] && b[0].level >= a[0].level
  {
    var l := a[0].level;
    MemberOfLevel(a, 0);
    assert OfLevel(b, l) == OfLevel(a, l);
    NoneOfLevel(b, l);
  }

  /** MAIN RESULT. Serving everything delivers the unique stable sort of the arrivals by level. */
  lemma DrainIsTheStableSort(list: seq<Pending>, sorted: seq<Pending>)
    ensures Descending(sorted) && SameOrderPerLevel(sorted, list) <==> sorted == Drain(list)
  {
    DrainLevels(list);
    DrainDescends(list);
    if Descending(sorted) && SameOrderPerLevel(sorted, list) {
      assert SameOrderPerLevel(sorted, Drain(list));
      StableSortIsUnique(sorted, Drain(list));
    }
  }

  /** A run of successful serving. */
  ghost predicate Serves(cfg: Config, actions: seq<Action>, states: seq<Queues>) {
    && |states| == |actions| + 1
    && forall i :: 0 <= i < |actions| ==>
         actions[i].Dequeued? && states[i].Keys == LEVELS && Does(cfg, states[i], actions[i], states[i + 1])
  }

  lemma ServesTail(cfg: Config, actions: seq<Action>, states: seq<Queues>)
    requires actions != [] && Serves(cfg, actions, states)
    ensures Serves(cfg, actions[1..], states[1..])
    ensures actions[0].Dequeued? && states[0].Keys == LEVELS && Does(cfg, states[0], actions[0], states[1])
  {
  }

  lemma DrainPrepend(list: seq<Pending>, list': seq<Pending>, drained: seq<Pending>, drained': seq<Pending>,
                     actions: seq<Action>)
    requires actions != [] && |actions| == |list| == |list'| + 1 == |drained'| + 1
    requires forall i :: 0 <= i < |actions| ==> actions[i].Dequeued?
    requires drained == [Pending(actions[0].query, actions[0].origin)] + drained'
    requires forall i :: 0 <= i < |actions| - 1 ==>
               drained'[i] == Pending(actions[1..][i].query, actions[1..][i].origin)
    ensures |drained| == |list| && forall i :: 0 <= i < |actions| ==>
              drained[i] == Pending(actions[i].query, actions[i].origin)
  {
  }

  /** Serving as many queries as are pending delivers them in the drain order. */
  lemma {:induction false} ServingAllDrains(cfg: Config, list: seq<Pending>, actions: seq<Action>, states: seq<Queues>)
    requires Serves(cfg, actions, states) && Refines(states[0], list) && |actions| == |list|
    ensures |Drain(list)| == |list|
    ensures forall i :: 0 <= i < |actions| ==> Drain(list)[i] == Pending(actions[i].query, actions[i].origin)
    decreases |list|
  {
    if list != [] {
      ServesTail(cfg, actions, states);
      var list' := CallsRefineArrivalOrder(cfg, states[0], list, actions[0], states[1]);
      var i: nat :| IsNext(list, i) && list[i] == Pending(actions[0].query, actions[0].origin) &&
        list' == RemoveAt(list, i);
      assert i == Next(list);
      var later, after := actions[1..], states[1..];
      ServingAllDrains(cfg, list', later, after);
      DrainPrepend(list, list', Drain(list), Drain(list'), actions);
    }
  }

  // ---- conservation and size over whole runs

  function Contents(qs: Queues): multiset<Query>
    requires qs.Keys == LEVELS
  {
    multiset(qs[LOW]) + multiset(qs[NORMAL]) + multiset(qs[HIGH]) + multiset(qs[CRITICAL])
  }

  ghost predicate IsRun(cfg: Config, actions: seq<Action>, states: seq<Queues>) {
    && |states| == |actions| + 1 && states[0] == NO_QUERIES
    && forall i :: 0 <= i < |actions| ==> states[i].Keys == LEVELS && Does(cfg, states[i], actions[i], states[i + 1])
  }

  lemma RunPrefix(cfg: Config, actions: seq<Action>, states: seq<Queues>)
    requires actions != [] && IsRun(cfg, actions, states)
    ensures IsRun(cfg, actions[..|actions| - 1], states[..|states| - 1])
    ensures var n := |actions| - 1; states[n].Keys == LEVELS && Does(cfg, states[n], actions[n], states[n + 1])
  {
  }

  function AcceptedBy(a: Action): multiset<Query> {
    if a.Enqueued? then multiset{a.query} else multiset{}
  }

  function GoneBy(a: Action): multiset<Query> {
    if a.Dequeued? || a.Dropped? then multiset{a.query} else multiset{}
  }

  function Accepted(actions: seq<Action>): multiset<Query> {
    if actions == [] then multiset{} else Accepted(actions[..|actions| - 1]) + AcceptedBy(actions[|actions| - 1])
  }

  /** The queries served and those lost to an invalid level. */
  function Gone(actions: seq<Action>): multiset<Query> {
    if actions == [] then multiset{} else Gone(actions[..|actions| - 1]) + GoneBy(actions[|actions| - 1])
  }

  lemma RemoveAtMultiset<T>(s: seq<T>, k: nat)
    requires k < |s|
    ensures multiset(s) == multiset(RemoveAt(s, k)) + multiset{s[k]}
  {
    assert s == s[..k] + [s[k]] + s[k + 1..];
  }

  lemma JoinConserves(qs: Queues, level: int, q: Query)
    requires qs.Keys == LEVELS && level in LEVELS
    ensures Contents(Join(qs, level, q)) == Contents(qs) + multiset{q}
  {
  }

  lemma TakeConserves(qs: Queues, l: int, k: nat)
    requires qs.Keys == LEVELS && l in LEVELS && k < |qs[l]|
    ensures Contents(qs[l := RemoveAt(qs[l], k)]) + multiset{qs[l][k]} == Contents(qs)
  {
    RemoveAtMultiset(qs[l], k);
  }

  lemma MoveConserves(qs: Queues, l: int, k: nat, level: int)
    requires qs.Keys == LEVELS && l in LEVELS && k < |qs[l]| && level in LEVELS
    ensures Contents(Join(qs[l := RemoveAt(qs[l], k)], level, qs[l][k])) == Contents(qs)
  {
    TakeConserves(qs, l, k);
    JoinConserves(qs[l := RemoveAt(qs[l], k)], level, qs[l][k]);
  }

  lemma CallKeepsLevels(cfg: Config, qs: Queues, a: Action, qs': Queues)
    requires qs.Keys == LEVELS && Does(cfg, qs, a, qs')
    ensures qs'.Keys == LEVELS
  {
  }

  lemma CallConserves(cfg: Config, qs: Queues, a: Action, qs': Queues)
    requires qs.Keys == LEVELS && qs'.Keys == LEVELS && Does(cfg, qs, a, qs')
    ensures Contents(qs') + GoneBy(a) == Contents(qs) + AcceptedBy(a)
  {
    match a
    case Enqueued(q, level) => JoinConserves(qs, level, q);
    case Dequeued(q, l) => TakeConserves(qs, l, 0);
    case Moved(q, l, k, level) => MoveConserves(qs, l, k, level);
    case Dropped(q, l, k, level) => TakeConserves(qs, l, k);
    case _ =>
  }

  lemma AddBalances(held: multiset<Query>, gone: multiset<Query>, accepted: multiset<Query>,
                    held': multiset<Query>, out: multiset<Query>, taken: multiset<Query>)
    requires held + gone == accepted && held' + out == held + taken
    ensures held' + (gone + out) == accepted + taken
  {
    assert held' + (gone + out) == (held' + out) + gone;
  }

  /** MAIN RESULT. In every run the accepted queries are those still queued, those served and those
      lost to a move to an invalid level. */
  lemma {:induction false} RunsConserve(cfg: Config, actions: seq<Action>, states: seq<Queues>)
    requires IsRun(cfg, actions, states)
    ensures states[|actions|].Keys == LEVELS
    ensures Contents(states[|actions|]) + Gone(actions) == Accepted(actions)
  {
    if actions != [] {
      var n := |actions| - 1;
      RunPrefix(cfg, actions, states);
      RunsConserve(cfg, actions[..n], states[..n + 1]);
      CallKeepsLevels(cfg, states[n], actions[n], states[n + 1]);
      CallConserves(cfg, states[n], actions[n], states[n + 1]);
      AddBalances(Contents(states[n]), Gone(actions[..n]), Accepted(actions[..n]),
                  Contents(states[n + 1]), GoneBy(actions[n]), AcceptedBy(actions[n]));
    }
  }

  /** A history of the arrival list beside a run: it starts empty, stands for the queues after every
      call, and goes from one call to the next by that call's step. */
  ghost predicate Shadows(actions: seq<Action>, states: seq<Queues>, lists: seq<seq<Pending>>)
    requires |states| == |actions| + 1
  {
    && |lists| == |states| && lists[0] == []
    && (forall i :: 0 <= i < |states| ==> Refines(states[i], lists[i]))
    && forall i :: 0 <= i < |actions| ==> ListStep(lists[i], actions[i], lists[i + 1])
  }

  lemma ShadowsNext(actions: seq<Action>, states: seq<Queues>, lists: seq<seq<Pending>>, next: seq<Pending>)
    requires actions != [] && |states| == |actions| + 1
    requires var n := |actions| - 1;
             && Shadows(actions[..n], states[..n + 1], lists)
             && Refines(states[n + 1], next) && ListStep(lists[n], actions[n], next)
    ensures Shadows(actions, states, lists + [next])
  {
    var n, longer := |actions| - 1, lists + [next];
    forall i | 0 <= i < |states| ensures Refines(states[i], longer[i]) {
      assert i <= n ==> states[..n + 1][i] == states[i];
    }
    forall i | 0 <= i < |actions| ensures ListStep(longer[i], actions[i], longer[i + 1]) {
      assert i < n ==> actions[..n][i] == actions[i] && longer[i] == lists[i] && longer[i + 1] == lists[i + 1];
    }
  }

  /** MAIN RESULT. Every run of the four queues from empty is, call by call, a run of one
      arrival-ordered list from empty. */
  lemma {:induction false} RunsRefineArrivalOrder(cfg: Config, actions: seq<Action>, states: seq<Queues>)
    returns (lists: seq<seq<Pending>>)
    requires IsRun(cfg, actions, states)
    ensures Shadows(actions, states, lists)
  {
    lists := [[]];
    if actions != [] {
      var n := |actions| - 1;
      RunPrefix(cfg, actions, states);
      lists := RunsRefineArrivalOrder(cfg, actions[..n], states[..n + 1]);
      assert Refines(states[..n + 1][n], lists[n]);
      var next := CallsRefineArrivalOrder(cfg, states[n], lists[n], actions[n], states[n + 1]);
      ShadowsNext(actions, states, lists, next);
      lists := lists + [next];
    }
  }

  /** How many times a run moved a query to the level. */
  function MovesTo(actions: seq<Action>, level: int): nat {
    if actions == [] then 0
    else
      var a := actions[|actions| - 1];
      MovesTo(actions[..|actions| - 1], level) + if a.Moved? && a.level == level then 1 else 0
  }

  /** The limit an arrival is held to; a negative one admits nothing. */
  function Limit(cfg: Config): nat {
    if cfg.maxQueueSize > 0 then cfg.maxQueueSize else 0
  }

  /** The size limit is enforced on arrival only: a queue can exceed it, by at most the number of
      moves to its level. */
  lemma {:induction false} SizeWithinMoves(cfg: Config, actions: seq<Action>, states: seq<Queues>, level: int)
    requires IsRun(cfg, actions, states) && level in LEVELS
    ensures level in states[|actions|]
    ensures |states[|actions|][level]| <= Limit(cfg) + MovesTo(actions, level)
  {
    if actions != [] {
      var n := |actions| - 1;
      RunPrefix(cfg, actions, states);
      SizeWithinMoves(cfg, actions[..n], states[..n + 1], level);
    }
  }

  /** A query that asks for its level, the number making its identifier. */
  function Asking(number: nat, level: int): Query {
    Query(seq(number, i => '#'), OTHER, Some(level))
  }

  lemma ExtendRun(cfg: Config, actions: seq<Action>, states: seq<Queues>, a: Action, qs': Queues)
    requires IsRun(cfg, actions, states) && states[|actions|].Keys == LEVELS && Does(cfg, states[|actions|], a, qs')
    ensures IsRun(cfg, actions + [a], states + [qs'])
  {
  }

  lemma MovesAppend(actions: seq<Action>, a: Action, level: int)
    ensures MovesTo(actions + [a], level) == MovesTo(actions, level) + if a.Moved? && a.level == level then 1 else 0
  {
  }

  /** n arrivals at one level, within the limit. */
  lemma {:induction false} Filling(cfg: Config, level: int, n: nat) returns (actions: seq<Action>, states: seq<Queues>)
    requires level in LEVELS && n <= Limit(cfg)
    ensures IsRun(cfg, actions, states) && MovesTo(actions, level) == 0
    ensures states[|actions|].Keys == LEVELS && |states[|actions|][level]| == n
    ensures forall l :: l in LEVELS && l != level ==> states[|actions|][l] == []
  {
    if n == 0 {
      actions, states := [], [NO_QUERIES];
    } else {
      actions, states := Filling(cfg, level, n - 1);
      var qs, a := states[|actions|], Enqueued(Asking(n, level), level);
      var qs' := Join(qs, level, a.query);
      ExtendRun(cfg, actions, states, a, qs');
      MovesAppend(actions, a, level);
      actions, states := actions + [a], states + [qs'];
    }
  }

  /** One query more at the level, arriving elsewhere and moved there. */
  lemma OneMove(cfg: Config, actions: seq<Action>, states: seq<Queues>, level: int, other: int, q: Query)
    returns (more: seq<Action>, after: seq<Queues>)
    requires IsRun(cfg, actions, states) && Limit(cfg) > 0
    requires level in LEVELS && other in LEVELS && level != other && q.requested == Some(other)
    requires states[|actions|].Keys == LEVELS && states[|actions|][other] == []
    ensures IsRun(cfg, more, after) && MovesTo(more, level) == MovesTo(actions, level) + 1
    ensures after[|more|] == states[|actions|][level := states[|actions|][level] + [q]]
  {
    var qs := states[|actions|];
    var arrival, move := Enqueued(q, other), Moved(q, other, 0, level);
    var qs1 := Join(qs, other, q);
    ExtendRun(cfg, actions, states, arrival, qs1);
    MovesAppend(actions, arrival, level);
    var qs2 := Join(qs1[other := RemoveAt(qs1[other], 0)], level, q);
    assert RemoveAt(qs1[other], 0) == [];
    assert FirstWithId(qs1[other], 0, q);
    ExtendRun(cfg, actions + [arrival], states + [qs1], move, qs2);
    MovesAppend(actions + [arrival], move, level);
    more, after := actions + [arrival] + [move], states + [qs1] + [qs2];
    assert qs2 == qs[level := qs[level] + [q]];
  }

  /** The bound is met: with room for arrivals at all, any number of moves is that much excess. */
  lemma {:induction false} MovesExceedTheLimit(cfg: Config, level: int, n: nat)
    returns (actions: seq<Action>, states: seq<Queues>)
    requires level in LEVELS && Limit(cfg) > 0
    ensures IsRun(cfg, actions, states) && MovesTo(actions, level) == n
    ensures states[|actions|].Keys == LEVELS && |states[|actions|][level]| == Limit(cfg) + n
    ensures forall l :: l in LEVELS && l != level ==> states[|actions|][l] == []
  {
    if n == 0 {
      actions, states := Filling(cfg, level, Limit(cfg));
    } else {
      actions, states := MovesExceedTheLimit(cfg, level, n - 1);
      var other := if level == LOW then NORMAL else LOW;
      actions, states := OneMove(cfg, actions, states, level, other, Asking(Limit(cfg) + n, other));
    }
  }

  /** No run with at most so many moves to the level overfills its queue. */
  ghost predicate LimitHolds(cfg: Config, level: int, moves: nat) {
    forall actions, states: seq<Queues> :: IsRun(cfg, actions, states) && MovesTo(actions, level) <= moves ==>
      level in states[|actions|] && |states[|actions|][level]| <= Limit(cfg)
  }

  /** MAIN RESULT. The size limit holds in all runs with at most so many moves to a level exactly
      when that is no move at all, or the limit lets no query in to begin with. */
  lemma LimitHoldsExactly(cfg: Config, level: int, moves: nat)
    requires level in LEVELS
    ensures LimitHolds(cfg, level, moves) <==> moves == 0 || Limit(cfg) == 0
  {
    if moves == 0 || Limit(cfg) == 0 {
      forall actions, states: seq<Queues> | IsRun(cfg, actions, states) && MovesTo(actions, level) <= moves
        ensures level in states[|actions|] && |states[|actions|][level]| <= Limit(cfg)
      {
        SizeWithinMoves(cfg, actions, states, level);
        if Limit(cfg) == 0 {
          NothingEnters(cfg, actions, states);
        }
      }
    } else {
      var actions, states := MovesExceedTheLimit(cfg, level, 1);
      assert MovesTo(actions, level) <= moves;
    }
  }

  lemma {:induction false} NothingEnters(cfg: Config, actions: seq<Action>, states: seq<Queues>)
    requires IsRun(cfg, actions, states) && Limit(cfg) == 0
    ensures states[|actions|] == NO_QUERIES
  {
    if actions != [] {
      RunPrefix(cfg, actions, states);
      NothingEnters(cfg, actions[..|actions| - 1], states[..|actions|]);
    }
  }
}
