/** Query priority engine: the queues as objects whose item lists are updated in place. */
module PriorityEngine {
  import opened Options
  import opened PriorityModel

  datatype Error = NoError | InvalidLevel | QueueFull | QueryNotFound

  class PriorityQueue {
    const level: int
    var items: seq<Query>

    constructor (level: int)
      ensures this.level == level && items == []
    {
      this.level, items := level, [];
    }
  }

  class QueryPriorityEngine {
    const config: Config
    const queues: map<int, PriorityQueue>

    ghost predicate Valid()
      reads this
    {
      && queues.Keys == LEVELS
      && forall a, b :: a in queues && b in queues && a != b ==> queues[a] != queues[b]
    }

    ghost function View(): Queues
      reads this, queues.Values
    {
      map l | l in queues :: queues[l].items
    }

    constructor (config: Config)
      ensures Valid() && this.config == config && View() == NO_QUERIES
    {
      this.config := config;
      var critical := new PriorityQueue(CRITICAL);
      var high := new PriorityQueue(HIGH);
      var normal := new PriorityQueue(NORMAL);
      var low := new PriorityQueue(LOW);
      queues := map[CRITICAL := critical, HIGH := high, NORMAL := normal, LOW := low];
    }

    method Enqueue(q: Query) returns (error: Error, ghost a: Action)
      requires Valid()
      modifies queues.Values
      ensures Does(config, old(View()), a, View())
      ensures a == if error == NoError then Enqueued(q, DeterminePriority(config, q)) else Refused(q)
      ensures error == InvalidLevel <==> DeterminePriority(config, q) !in LEVELS
    {
      var priority := DeterminePriority(config, q);
      if priority !in queues {
        return InvalidLevel, Refused(q);
      }
      var queue := queues[priority];
      if |queue.items| >= config.maxQueueSize {
        return QueueFull, Refused(q);
      }
      AppendTo(priority, q);
      return NoError, Enqueued(q, priority);
    }

    method Dequeue() returns (q: Option<Query>, ghost a: Action)
      requires Valid()
      modifies queues.Values
      ensures Does(config, old(View()), a, View())
      ensures if q.None? then a == FoundEmpty else a.Dequeued? && a.query == q.value
    {
      var levels := [CRITICAL, HIGH, NORMAL, LOW];
      ghost var before := View();
      for i := 0 to |levels|
        invariant View() == before
        invariant forall j :: 0 <= j < i ==> before[levels[j]] == []
      {
        var level := levels[i];
        var queue := queues[level];
        assert before[level] == queue.items;
        if |queue.items| > 0 {
          var item := queue.items[0];
          queue.items := queue.items[1..];
          assert RemoveAt(before[level], 0) == before[level][1..];
          assert View() == before[level := RemoveAt(before[level], 0)];
          HigherAreEmpty(before, levels, i);
          return Some(item), Dequeued(item, level);
        }
      }
      HigherAreEmpty(before, levels, 4);
      return None, FoundEmpty;
    }

    method TakeOut(level: int, i: nat) returns (qc: Query)
      requires Valid() && level in LEVELS && i < |View()[level]|
      modifies queues[level]
      ensures qc == old(View())[level][i] && View() == old(View())[level := RemoveAt(old(View())[level], i)]
    {
      ghost var before := View();
      var queue := queues[level];
      qc := queue.items[i];
      queue.items := queue.items[..i] + queue.items[i + 1..];
      assert View() == before[level := RemoveAt(before[level], i)];
    }

    method AppendTo(level: int, qc: Query)
      requires Valid() && level in LEVELS
      modifies queues[level]
      ensures View() == Join(old(View()), level, qc)
    {
      ghost var before := View();
      var target := queues[level];
      target.items := target.items + [qc];
      assert View() == Join(before, level, qc);
    }

    /** Takes the i-th query out of its queue and appends it to the queue of its new level, if any. */
    method Relocate(level: int, i: nat, priority: int) returns (error: Error, ghost a: Action)
      requires Valid() && level in LEVELS && i < |View()[level]| && FirstWithId(View()[level], i, View()[level][i])
      modifies queues.Values
      ensures Does(config, old(View()), a, View())
      ensures var q := old(View())[level][i];
              if priority in LEVELS then error == NoError && a == Moved(q, level, i, priority)
              else error == InvalidLevel && a == Dropped(q, level, i, priority)
    {
      var qc := TakeOut(level, i);
      if priority !in queues {
        return InvalidLevel, Dropped(qc, level, i, priority);
      }
      AppendTo(priority, qc);
      return NoError, Moved(qc, level, i, priority);
    }

    method SetPriority(queryID: string, priority: int) returns (error: Error, ghost a: Action)
      requires Valid()
      modifies queues.Values
      ensures Does(config, old(View()), a, View())
      ensures error == QueryNotFound <==> !HasId(old(View()), queryID)
      ensures error == QueryNotFound ==> a == NotFound(queryID)
      ensures error != QueryNotFound ==>
                if priority in LEVELS then error == NoError && a.Moved? && a.query.id == queryID && a.level == priority
                else error == InvalidLevel && a.Dropped? && a.query.id == queryID && a.level == priority
    {
      ghost var before := View();
      var rest := queues.Keys;
      while rest != {}
        invariant rest <= LEVELS && View() == before
        invariant forall l :: l in LEVELS && l !in rest ==> forall q: Query :: q in before[l] ==> q.id != queryID
        decreases rest
      {
        var level :| level in rest;
        rest := rest - {level};
        var queue := queues[level];
        assert before[level] == queue.items;
        var i := Find(queue.items, queryID);
        if i < |queue.items| {
          error, a := Relocate(level, i, priority);
          return;
        }
      }
      return QueryNotFound, NotFound(queryID);
    }
  }

  /** The inner search of SetPriority: the first position with the identifier, or the length. */
  method Find(items: seq<Query>, id: string) returns (i: nat)
    ensures i <= |items|
    ensures i < |items| ==> FirstWithId(items, i, items[i]) && items[i].id == id
    ensures i == |items| ==> forall q: Query :: q in items ==> q.id != id
  {
    i := 0;
    while i < |items|
      invariant i <= |items|
      invariant forall j :: 0 <= j < i ==> items[j].id != id
    {
      if items[i].id == id {
        return;
      }
      i := i + 1;
    }
  }

  lemma HigherAreEmpty(qs: Queues, levels: seq<int>, i: nat)
    requires qs.Keys == LEVELS && levels == [CRITICAL, HIGH, NORMAL, LOW] && i <= 4
    requires forall j :: 0 <= j < i ==> qs[levels[j]] == []
    ensures i < 4 ==> forall h :: h in LEVELS && h > levels[i] ==> qs[h] == []
    ensures i == 4 ==> forall l :: l in LEVELS ==> qs[l] == []
  {
    assert i > 0 ==> qs[levels[0]] == [];
    assert i > 1 ==> qs[levels[1]] == [];
    assert i > 2 ==> qs[levels[2]] == [];
    assert i > 3 ==> qs[levels[3]] == [];
  }
}
