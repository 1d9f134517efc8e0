/** Query cache: the map evicted from, stored into and invalidated in place. */
module CacheEngine {
  import opened Options
  import opened CacheModel

  class CachingEngine {
    var config: Config
    var cache: Cache

    constructor (config: Config)
      ensures View() == State(map[], config)
    {
      this.config, cache := config, map[];
    }

    ghost function View(): State
      reads this
    {
      State(cache, config)
    }

    /** The lookup of a select query on an enabled cache. */
    method Lookup(key: string, now: int) returns (hit: Option<Entry>)
      ensures hit.Some? <==> config.enabled && key in cache && now <= cache[key].expiresAt
      ensures hit.Some? ==> hit.value == cache[key]
      ensures config.enabled ==> hit == Get(cache, key, now)
    {
      if !config.enabled {
        return None;
      }
      if key !in cache {
        return None;
      }
      if now > cache[key].expiresAt {
        return None;
      }
      return Some(cache[key]);
    }

    /** Only the data of a select query is stored, under the key the lookup noted down, if any. */
    method ProcessResponse(now: int, select: bool, cacheKey: string, data: Option<string>, database: string,
                           table: string)
      requires "" !in cache
      modifies this`cache
      ensures "" !in cache
      ensures if select && data.Some?
              then Happens(old(View()), Store(now, cacheKey, data.value, database, table), View())
              else View() == old(View())
    {
      if !config.enabled {
        return;
      }
      if !select {
        return;
      }
      if cacheKey == "" {
        return;
      }
      if data.None? {
        return;
      }
      SetCacheEntry(cacheKey, Entry(data.value, now + config.ttl, database, table));
    }

    method SetCacheEntry(key: string, entry: Entry)
      requires "" !in cache && key != ""
      modifies this`cache
      ensures "" !in cache && Sets(config.maxSize, old(cache), key, entry, cache)
    {
      if |cache| >= config.maxSize {
        EvictOldest();
      }
      assert MakesRoom(config.maxSize, old(cache), cache);
      cache := cache[key := entry];
    }

    /** The empty key and the zero time mark "nothing found yet"; neither occurs in the cache. */
    method EvictOldest()
      requires "" !in cache
      modifies this`cache
      ensures "" !in cache && Evicts(old(cache), cache)
    {
      var oldestKey := "";
      var oldestTime: Option<int> := None;
      var rest := cache.Keys;
      while rest != {}
        invariant rest <= cache.Keys && cache == old(cache)
        invariant oldestTime.None? <==> rest == cache.Keys
        invariant oldestTime.None? ==> oldestKey == ""
        invariant oldestTime.Some? ==> oldestKey in cache && oldestKey !in rest
        invariant oldestTime.Some? ==> cache[oldestKey].expiresAt == oldestTime.value
        invariant oldestTime.Some? ==> forall k :: k in cache && k !in rest ==> oldestTime.value <= cache[k].expiresAt
        decreases rest
      {
        var key :| key in rest;
        rest := rest - {key};
        var entry := cache[key];
        if oldestTime.None? || entry.expiresAt < oldestTime.value {
          oldestKey := key;
          oldestTime := Some(entry.expiresAt);
        }
      }
      if oldestKey != "" {
        assert IsOldest(cache, oldestKey);
        cache := cache - {oldestKey};
      }
    }

    method InvalidateDatabase(database: string)
      modifies this`cache
      ensures Happens(old(View()), Event.InvalidateDatabase(database), View())
    {
      var rest := cache.Keys;
      while rest != {}
        invariant rest <= old(cache).Keys
        invariant forall k :: k in cache <==> k in old(cache) && (k in rest || old(cache)[k].database != database)
        invariant forall k :: k in cache ==> cache[k] == old(cache)[k]
        decreases rest
      {
        var key :| key in rest;
        rest := rest - {key};
        if cache[key].database == database {
          cache := cache - {key};
        }
      }
    }

    method InvalidateTable(database: string, table: string)
      modifies this`cache
      ensures Happens(old(View()), Event.InvalidateTable(database, table), View())
    {
      var rest := cache.Keys;
      while rest != {}
        invariant rest <= old(cache).Keys
        invariant forall k :: k in cache <==>
          k in old(cache) && (k in rest || !(old(cache)[k].database == database && old(cache)[k].table == table))
        invariant forall k :: k in cache ==> cache[k] == old(cache)[k]
        decreases rest
      {
        var key :| key in rest;
        rest := rest - {key};
        if cache[key].database == database && cache[key].table == table {
          cache := cache - {key};
        }
      }
    }

    method Clear()
      modifies this`cache
      ensures Happens(old(View()), Event.Clear, View())
    {
      cache := map[];
    }

    method SetConfig(config: Config)
      modifies this`config
      ensures Happens(old(View()), Event.SetConfig(config), View())
    {
      this.config := config;
    }
  }
}
