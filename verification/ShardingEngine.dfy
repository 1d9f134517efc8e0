/** Sharding engine: the registered shards and rules, and the dispatch of a query. */
module ShardingEngine {
  import opened ShardingModel

  datatype ShardType = Range | Hash | List | RoundRobin

  datatype Rule = Rule(name: string, pattern: string, shardType: ShardType, rangeStart: int, rangeEnd: int)

  /** A query as the dispatch sees it: whether it has a shard key, the key's leading number and hash,
      its table, and which rule patterns match that table. */
  datatype Query = Query(hasKey: bool, number: int, hash: nat, table: string, matches: string -> bool)

  /** The first rule whose pattern matches decides; a query without a table matches none. */
  ghost predicate FirstMatch(rules: seq<Rule>, q: Query, i: int) {
    && q.table != "" && 0 <= i < |rules| && q.matches(rules[i].pattern)
    && forall j :: 0 <= j < i ==> !q.matches(rules[j].pattern)
  }

  class DataShard {
    const id: int
    var healthy: bool

    constructor (id: int)
      ensures this.id == id && !healthy
    {
      this.id, healthy := id, false;
    }
  }

  class Engine {
    var shards: map<int, DataShard>
    var rules: seq<Rule>

    constructor ()
      ensures shards == map[] && rules == []
    {
      shards, rules := map[], [];
    }

    method AddShard(shard: DataShard)
      modifies this`shards, shard
      ensures shard.healthy && shards == old(shards)[shard.id := shard]
    {
      shard.healthy := true;
      shards := shards[shard.id := shard];
    }

    method RemoveShard(id: int)
      modifies this`shards
      ensures shards == old(shards) - {id}
      ensures old(shards).Keys == Proper(|old(shards).Keys|) ==>
                (shards.Keys == Proper(|shards.Keys|) <==> id !in old(shards) || id == |old(shards).Keys| - 1)
    {
      if shards.Keys == Proper(|shards.Keys|) {
        RemoveKeepsProperExactly(shards.Keys, id);
      }
      shards := shards - {id};
    }

    method AddRule(rule: Rule)
      modifies this`rules
      ensures rules == old(rules) + [rule]
    {
      rules := rules + [rule];
    }

    method FindMatchingRule(q: Query) returns (found: bool, i: nat)
      ensures found ==> FirstMatch(rules, q, i)
      ensures !found ==> forall j :: !FirstMatch(rules, q, j)
    {
      if q.table == "" {
        return false, 0;
      }
      for k := 0 to |rules|
        invariant forall j :: 0 <= j < k ==> !q.matches(rules[j].pattern)
      {
        if q.matches(rules[k].pattern) {
          return true, k;
        }
      }
      return false, 0;
    }

    /** A list rule always answers shard 0; every rule type without a case of its own hashes. */
    method DetermineShard(q: Query) returns (r: Result)
      ensures !q.hasKey ==> r == Shard(0)
      ensures |shards| == 0 && r.Shard? ==> r == Shard(0)
      ensures q.hasKey && (forall j :: !FirstMatch(rules, q, j)) ==> r == Shard(HashShard(q.hash, |shards|))
      ensures forall i :: q.hasKey && FirstMatch(rules, q, i) ==>
                r == match rules[i].shardType
                     case Range => RangeShard(q.number, rules[i].rangeStart, rules[i].rangeEnd, |shards|)
                     case List => Shard(0)
                     case _ => Shard(HashShard(q.hash, |shards|))
    {
      if !q.hasKey {
        return Shard(0);
      }
      var found, i := FindMatchingRule(q);
      if !found {
        return Shard(HashShard(q.hash, |shards|));
      }
      match rules[i].shardType {
        case Range => r := RangeShard(q.number, rules[i].rangeStart, rules[i].rangeEnd, |shards|);
        case List => r := Shard(0);
        case Hash => r := Shard(HashShard(q.hash, |shards|));
        case RoundRobin => r := Shard(HashShard(q.hash, |shards|));
      }
    }
  }
}
