/** Query cache: a bounded map with expiry, compared with the unbounded history of stores. */
module CacheModel {
  import opened Arithmetic
  import opened Options
  import opened SetFacts

  datatype Entry = Entry(data: string, expiresAt: int, database: string, table: string)

  type Cache = map<string, Entry>

  datatype Config = Config(enabled: bool, ttl: int, maxSize: int)

  datatype Event =
    | Store(at: int, key: string, data: string, database: string, table: string)
    | InvalidateDatabase(database: string)
    | InvalidateTable(database: string, table: string)
    | Clear
    | SetConfig(config: Config)

  datatype State = State(cache: Cache, config: Config)

  /** What a lookup returns: an entry that is there and not past its expiry. */
  function Get(c: Cache, key: string, now: int): Option<Entry> {
    if key !in c || now > c[key].expiresAt then None else Some(c[key])
  }

  function NewEntry(cfg: Config, e: Event): Entry
    requires e.Store?
  {
    Entry(e.data, e.at + cfg.ttl, e.database, e.table)
  }

  /** A response is stored only by an enabled cache and under a real key. */
  predicate Stores(cfg: Config, e: Event) {
    e.Store? && cfg.enabled && e.key != ""
  }

  ghost predicate IsOldest(c: Cache, key: string) {
    key in c && forall k :: k in c ==> c[key].expiresAt <= c[k].expiresAt
  }

  /** Eviction removes some entry of least expiry, if there is one. */
  ghost predicate Evicts(c: Cache, c': Cache) {
    if c == map[] then c' == c else exists key :: IsOldest(c, key) && c' == c - {key}
  }

  ghost predicate Sets(maxSize: int, c: Cache, key: string, entry: Entry, c': Cache) {
    exists room :: MakesRoom(maxSize, c, room) && c' == room[key := entry]
  }

  ghost predicate MakesRoom(maxSize: int, c: Cache, room: Cache) {
    if |c| >= maxSize then Evicts(c, room) else room == c
  }

  /** The events that remove entries, on any map of entries. */
  function Invalidate(c: Cache, e: Event): Cache {
    match e
    case InvalidateDatabase(db) => map k | k in c && c[k].database != db :: c[k]
    case InvalidateTable(db, t) => map k | k in c && !(c[k].database == db && c[k].table == t) :: c[k]
    case Clear => map[]
    case _ => c
  }

  ghost predicate Happens(s: State, e: Event, s': State) {
    match e
    case Store(_, key, _, _, _) =>
      s'.config == s.config &&
      if Stores(s.config, e) then Sets(s.config.maxSize, s.cache, key, NewEntry(s.config, e), s'.cache)
      else s'.cache == s.cache
    case SetConfig(cfg) => s' == State(s.cache, cfg)
    case _ => s' == s.(cache := Invalidate(s.cache, e))
  }

  ghost predicate IsRun(start: Config, events: seq<Event>, states: seq<State>) {
    && |states| == |events| + 1 && states[0] == State(map[], start)
    && forall i :: 0 <= i < |events| ==> Happens(states[i], events[i], states[i + 1])
  }

  // ---- the history read without any capacity

  function ConfigAfter(start: Config, events: seq<Event>): Config {
    if events == [] then start
    else if events[|events| - 1].SetConfig? then events[|events| - 1].config
    else ConfigAfter(start, events[..|events| - 1])
  }

  /** The map a cache without a size limit would hold. */
  function Unbounded(start: Config, events: seq<Event>): Cache {
    if events == [] then map[]
    else
      var before, e := events[..|events| - 1], events[|events| - 1];
      var cfg, u := ConfigAfter(start, before), Unbounded(start, before);
      if e.Store? then (if Stores(cfg, e) then u[e.key := NewEntry(cfg, e)] else u) else Invalidate(u, e)
  }

  /** Whether a later event leaves a stored entry in force. */
  predicate Spares(cfg: Config, e: Event, key: string, entry: Entry) {
    match e
    case Store(_, k, _, _, _) => !(Stores(cfg, e) && k == key)
    case InvalidateDatabase(db) => entry.database != db
    case InvalidateTable(db, t) => !(entry.database == db && entry.table == t)
    case Clear => false
    case SetConfig(_) => true
  }

  /** The i-th event stored this entry under the key, and nothing since replaced or invalidated it. */
  ghost predicate LiveStore(start: Config, events: seq<Event>, i: int, key: string, entry: Entry) {
    && 0 <= i < |events|
    && Stores(ConfigAfter(start, events[..i]), events[i]) && events[i].key == key
    && entry == NewEntry(ConfigAfter(start, events[..i]), events[i])
    && forall j :: i < j < |events| ==> Spares(ConfigAfter(start, events[..j]), events[j], key, entry)
  }

  lemma LiveStoreExtends(start: Config, before: seq<Event>, e: Event, i: int, key: string, entry: Entry)
    ensures i < |before| ==>
              (LiveStore(start, before + [e], i, key, entry) <==>
                 LiveStore(start, before, i, key, entry) && Spares(ConfigAfter(start, before), e, key, entry))
    ensures LiveStore(start, before + [e], |before|, key, entry) <==>
              StoredBy(ConfigAfter(start, before), e, key, entry)
  {
    var events := before + [e];
    assert events[..|before|] == before;
    assert forall j :: 0 <= j < |before| ==> events[..j] == before[..j] && events[j] == before[j];
    if i < |before| && LiveStore(start, events, i, key, entry) {
      assert Spares(ConfigAfter(start, events[..|before|]), events[|before|], key, entry);
      forall j | i < j < |before| ensures Spares(ConfigAfter(start, before[..j]), before[j], key, entry) {
        assert Spares(ConfigAfter(start, events[..j]), events[j], key, entry);
      }
    }
  }

  ghost predicate Holds(u: Cache, key: string, entry: Entry) {
    key in u && u[key] == entry
  }

  predicate StoredBy(cfg: Config, e: Event, key: string, entry: Entry) {
    Stores(cfg, e) && e.key == key && entry == NewEntry(cfg, e)
  }

  lemma UnboundedStep(start: Config, events: seq<Event>, key: string, entry: Entry)
    requires events != []
    ensures var before, e := events[..|events| - 1], events[|events| - 1];
            var cfg := ConfigAfter(start, before);
            Holds(Unbounded(start, events), key, entry) <==>
              || StoredBy(cfg, e, key, entry)
              || (Holds(Unbounded(start, before), key, entry) && Spares(cfg, e, key, entry))
  {
  }

  /** The unbounded map holds exactly the live stores of the history. */
  lemma {:induction false} UnboundedIsLive(start: Config, events: seq<Event>, key: string, entry: Entry)
    ensures Holds(Unbounded(start, events), key, entry) <==> exists i :: LiveStore(start, events, i, key, entry)
  {
    if events != [] {
      var n, before, e := |events| - 1, events[..|events| - 1], events[|events| - 1];
      assert events == before + [e];
      UnboundedStep(start, events, key, entry);
      UnboundedIsLive(start, before, key, entry);
      if exists i :: LiveStore(start, events, i, key, entry) {
        var i :| LiveStore(start, events, i, key, entry);
        LiveStoreExtends(start, before, e, i, key, entry);
        assert i < n ==> LiveStore(start, before, i, key, entry);
      }
      if Holds(Unbounded(start, events), key, entry) {
        if StoredBy(ConfigAfter(start, before), e, key, entry) {
          LiveStoreExtends(start, before, e, n, key, entry);
        } else {
          var i :| LiveStore(start, before, i, key, entry);
          LiveStoreExtends(start, before, e, i, key, entry);
          assert LiveStore(start, events, i, key, entry);
        }
      }
    }
  }

  // ---- the bounded cache against it

  ghost predicate Submap(c: Cache, u: Cache) {
    forall k :: k in c ==> k in u && c[k] == u[k]
  }

  lemma RunPrefix(start: Config, events: seq<Event>, states: seq<State>)
    requires events != [] && IsRun(start, events, states)
    ensures IsRun(start, events[..|events| - 1], states[..|states| - 1])
    ensures Happens(states[|events| - 1], events[|events| - 1], states[|events|])
  {
  }

  lemma {:induction false} RunConfig(start: Config, events: seq<Event>, states: seq<State>)
    requires IsRun(start, events, states)
    ensures states[|events|].config == ConfigAfter(start, events)
  {
    if events != [] {
      RunPrefix(start, events, states);
      RunConfig(start, events[..|events| - 1], states[..|states| - 1]);
    }
  }

  /** In every run the cache is part of the unbounded map. */
  lemma {:induction false} CacheIsSubmap(start: Config, events: seq<Event>, states: seq<State>)
    requires IsRun(start, events, states)
    ensures Submap(states[|events|].cache, Unbounded(start, events))
    ensures "" !in states[|events|].cache
  {
    if events != [] {
      RunPrefix(start, events, states);
      RunConfig(start, events[..|events| - 1], states[..|states| - 1]);
      CacheIsSubmap(start, events[..|events| - 1], states[..|states| - 1]);
    }
  }

  /** MAIN RESULT. In every run a hit returns what was last stored under the key and not invalidated
      since, while the time to live in force at that store has not passed. */
  lemma HitIsTheLastStore(start: Config, events: seq<Event>, states: seq<State>, key: string, now: int) returns (i: int)
    requires IsRun(start, events, states) && Get(states[|events|].cache, key, now).Some?
    ensures var entry := Get(states[|events|].cache, key, now).value;
            && LiveStore(start, events, i, key, entry)
            && entry.data == events[i].data
            && now <= events[i].at + ConfigAfter(start, events[..i]).ttl
  {
    var entry := Get(states[|events|].cache, key, now).value;
    CacheIsSubmap(start, events, states);
    UnboundedIsLive(start, events, key, entry);
    i :| LiveStore(start, events, i, key, entry);
  }

  /** The largest size limit ever configured, and at least one. */
  function LargestLimit(start: Config, events: seq<Event>): int {
    if events == [] then Max(1, start.maxSize)
    else
      var before := LargestLimit(start, events[..|events| - 1]);
      if events[|events| - 1].SetConfig? then Max(before, events[|events| - 1].config.maxSize) else before
  }

  lemma {:induction false} LimitCoversConfig(start: Config, events: seq<Event>)
    ensures LargestLimit(start, events) >= 1 && LargestLimit(start, events) >= ConfigAfter(start, events).maxSize
  {
    if events != [] {
      LimitCoversConfig(start, events[..|events| - 1]);
    }
  }

  lemma SetsSize(maxSize: int, c: Cache, key: string, entry: Entry, c': Cache)
    requires Sets(maxSize, c, key, entry, c')
    ensures |c'| <= if |c| >= maxSize then Max(1, |c|) else |c| + 1
  {
  }

  lemma InvalidateSize(c: Cache, e: Event)
    ensures |Invalidate(c, e)| <= |c|
  {
    assert |Invalidate(c, e)| == |Invalidate(c, e).Keys| && |c| == |c.Keys|;
    SubsetSize(Invalidate(c, e).Keys, c.Keys);
  }

  /** MAIN RESULT. In every run the cache holds at most the largest size ever configured (a limit
      below one still holds one entry). */
  lemma {:induction false} SizeIsBounded(start: Config, events: seq<Event>, states: seq<State>)
    requires IsRun(start, events, states)
    ensures |states[|events|].cache| <= LargestLimit(start, events)
  {
    LimitCoversConfig(start, events);
    if events != [] {
      var n := |events| - 1;
      var s, e, s' := states[n], events[n], states[n + 1];
      RunPrefix(start, events, states);
      RunConfig(start, events[..n], states[..n + 1]);
      LimitCoversConfig(start, events[..n]);
      SizeIsBounded(start, events[..n], states[..n + 1]);
      if Stores(s.config, e) {
        SetsSize(s.config.maxSize, s.cache, e.key, NewEntry(s.config, e), s'.cache);
      } else if !e.Store? && !e.SetConfig? {
        InvalidateSize(s.cache, e);
      }
    }
  }

  // ---- the limit in force

  ghost predicate KeepsConfig(events: seq<Event>) {
    forall i :: 0 <= i < |events| ==> !events[i].SetConfig?
  }

  lemma {:induction false} LimitOfKeptConfig(start: Config, events: seq<Event>)
    requires KeepsConfig(events)
    ensures LargestLimit(start, events) == Max(1, start.maxSize) && ConfigAfter(start, events) == start
  {
    if events != [] {
      LimitOfKeptConfig(start, events[..|events| - 1]);
    }
  }

  lemma {:induction false} DisabledStaysEmpty(start: Config, events: seq<Event>, states: seq<State>)
    requires !start.enabled && KeepsConfig(events) && IsRun(start, events, states)
    ensures states[|events|] == State(map[], start)
  {
    if events != [] {
      RunPrefix(start, events, states);
      DisabledStaysEmpty(start, events[..|events| - 1], states[..|events|]);
    }
  }

  /** In all runs that leave the configuration alone the cache stays within its limit. */
  ghost predicate LimitHolds(start: Config) {
    forall events, states: seq<State> :: KeepsConfig(events) && IsRun(start, events, states) ==>
      |states[|events|].cache| <= start.maxSize
  }

  /** MAIN RESULT. That is so exactly when the limit is positive, or zero for a cache that is off. */
  lemma LimitHoldsExactly(start: Config)
    ensures LimitHolds(start) <==> start.maxSize >= 1 || (start.maxSize == 0 && !start.enabled)
  {
    if start.maxSize >= 1 {
      forall events, states: seq<State> | KeepsConfig(events) && IsRun(start, events, states)
        ensures |states[|events|].cache| <= start.maxSize
      {
        LimitOfKeptConfig(start, events);
        SizeIsBounded(start, events, states);
      }
    } else if start.maxSize == 0 && !start.enabled {
      forall events, states: seq<State> | KeepsConfig(events) && IsRun(start, events, states)
        ensures |states[|events|].cache| <= start.maxSize
      {
        DisabledStaysEmpty(start, events, states);
      }
    } else if start.maxSize == 0 {
      var events, states := Fill(start, 1);
      assert |states[|events|].cache| == 1;
    } else {
      var events: seq<Event>, states := [], [State(map[], start)];
      assert IsRun(start, events, states) && |states[|events|].cache| > start.maxSize;
    }
  }

  /** n stores under different keys, with room for all of them, or of the first into an empty cache. */
  lemma {:induction false} Fill(start: Config, n: nat) returns (events: seq<Event>, states: seq<State>)
    requires start.enabled && (start.maxSize >= n || n <= 1)
    ensures KeepsConfig(events) && IsRun(start, events, states)
    ensures states[|events|].config == start && |states[|events|].cache| == n
    ensures forall k :: k in states[|events|].cache ==> |k| <= n
  {
    events, states := [], [State(map[], start)];
    if n > 0 {
      events, states := Fill(start, n - 1);
      var s, e := states[|events|], Store(0, seq(n, i => '#'), "", "", "");
      var s' := s.(cache := s.cache[e.key := NewEntry(start, e)]);
      NewKeyFits(s, e, s');
      events, states := OneMoreEvent(start, events, states, e, s');
    }
  }

  lemma NewKeyFits(s: State, e: Event, s': State)
    requires Stores(s.config, e) && e.key !in s.cache && (|s.cache| < s.config.maxSize || s.cache == map[])
    requires s' == s.(cache := s.cache[e.key := NewEntry(s.config, e)])
    ensures Happens(s, e, s') && |s'.cache| == |s.cache| + 1
  {
    assert MakesRoom(s.config.maxSize, s.cache, s.cache);
  }

  lemma OneMoreEvent(start: Config, events: seq<Event>, states: seq<State>, e: Event, s': State)
    returns (more: seq<Event>, after: seq<State>)
    requires IsRun(start, events, states) && Happens(states[|events|], e, s')
    ensures more == events + [e] && after == states + [s'] && IsRun(start, more, after)
  {
    more, after := events + [e], states + [s'];
    forall i | 0 <= i < |more| ensures Happens(after[i], more[i], after[i + 1]) {
      assert i < |events| ==> Happens(states[i], events[i], states[i + 1]);
    }
  }

  /** Lowering the limit removes nothing, so the cache can be over the limit in force by any number. */
  lemma LoweringLeavesEntries(start: Config, n: nat, lower: int) returns (events: seq<Event>, states: seq<State>)
    requires start.enabled && start.maxSize >= n && lower < n
    ensures IsRun(start, events, states)
    ensures var s := states[|events|]; s.config == start.(maxSize := lower) && |s.cache| == n > s.config.maxSize
  {
    events, states := Fill(start, n);
    var s, cfg := states[|events|], start.(maxSize := lower);
    events, states := OneMoreEvent(start, events, states, SetConfig(cfg), State(s.cache, cfg));
  }

  // ---- when the cache forgets

  /** Eviction can only take the key that is stored anyway. */
  ghost predicate OnlyOldest(c: Cache, key: string) {
    forall k :: IsOldest(c, k) ==> k == key
  }

  ghost predicate Forgets(maxSize: int, c: Cache, key: string, entry: Entry, c': Cache, k: string) {
    Sets(maxSize, c, key, entry, c') && k in c && k != key && k !in c'
  }

  /** MAIN RESULT. A store may make the cache forget another key exactly when the cache is full and
      some other key is among those of least expiry, whether or not the stored key is in it already. */
  lemma StoreForgetsExactly(maxSize: int, c: Cache, key: string, entry: Entry)
    ensures (exists c', k :: Forgets(maxSize, c, key, entry, c', k)) <==> |c| >= maxSize && !OnlyOldest(c, key)
  {
    if |c| >= maxSize && !OnlyOldest(c, key) {
      var k :| k != key && IsOldest(c, k);
      var c' := (c - {k})[key := entry];
      assert Evicts(c, c - {k});
      assert MakesRoom(maxSize, c, c - {k});
      assert Forgets(maxSize, c, key, entry, c', k);
    }
  }

  lemma {:induction false} SomeIsOldest(c: Cache) returns (key: string)
    requires c != map[]
    ensures IsOldest(c, key)
    decreases |c|
  {
    var k :| k in c;
    var rest := c - {k};
    key := k;
    if rest != map[] {
      var oldest := SomeIsOldest(rest);
      if rest[oldest].expiresAt < c[k].expiresAt {
        key := oldest;
      }
    }
    forall j | j in c ensures c[key].expiresAt <= c[j].expiresAt {
      assert j != k ==> j in rest && rest[j] == c[j];
    }
  }

  /** A store that cannot make it forget leaves everything else as it is. */
  lemma StoreKeepsRest(maxSize: int, c: Cache, key: string, entry: Entry, c': Cache)
    requires Sets(maxSize, c, key, entry, c') && (|c| < maxSize || OnlyOldest(c, key))
    ensures c' == c[key := entry]
  {
  }

  /** Every event has an outcome, from every state. */
  lemma SomethingHappens(s: State, e: Event) returns (s': State)
    ensures Happens(s, e, s')
  {
    var c, max := s.cache, s.config.maxSize;
    if Stores(s.config, e) {
      var room := c;
      if |c| >= max && c != map[] {
        var k := SomeIsOldest(c);
        room := c - {k};
      }
      assert MakesRoom(max, c, room);
      s' := s.(cache := room[e.key := NewEntry(s.config, e)]);
    } else if e.SetConfig? {
      s' := s.(config := e.config);
    } else {
      s' := s.(cache := Invalidate(c, e));
    }
  }

  lemma ExtendRun(start: Config, events: seq<Event>, states: seq<State>, i: nat, s': State) returns (longer: seq<State>)
    requires i < |events| && IsRun(start, events[..i], states) && Happens(states[i], events[i], s')
    ensures longer == states + [s'] && IsRun(start, events[..i + 1], longer)
  {
    assert events[..i + 1] == events[..i] + [events[i]];
    var more;
    more, longer := OneMoreEvent(start, events[..i], states, events[i], s');
  }

  /** A run of the first i events can be continued to all of them. */
  lemma {:induction false} RunContinues(start: Config, events: seq<Event>, i: nat, states: seq<State>)
    returns (all: seq<State>)
    requires i <= |events| && IsRun(start, events[..i], states)
    ensures IsRun(start, events, all) && forall j :: 0 <= j <= i ==> all[j] == states[j]
    decreases |events| - i
  {
    if i == |events| {
      assert events[..i] == events;
      all := states;
    } else {
      var s' := SomethingHappens(states[i], events[i]);
      var longer := ExtendRun(start, events, states, i, s');
      all := RunContinues(start, events, i + 1, longer);
      assert forall j :: 0 <= j <= i ==> longer[j] == states[j];
    }
  }

  /** At every store there is room for the live entries, or eviction can only take the key stored. */
  ghost predicate Roomy(start: Config, events: seq<Event>) {
    forall i :: 0 <= i < |events| ==> RoomAt(start, events, i)
  }

  ghost predicate RoomAt(start: Config, events: seq<Event>, i: nat)
    requires i < |events|
  {
    var cfg, u := ConfigAfter(start, events[..i]), Unbounded(start, events[..i]);
    Stores(cfg, events[i]) ==> |u| < cfg.maxSize || OnlyOldest(u, events[i].key)
  }

  lemma UnboundedNext(start: Config, events: seq<Event>, i: nat)
    requires i < |events|
    ensures var cfg, u, e := ConfigAfter(start, events[..i]), Unbounded(start, events[..i]), events[i];
            Unbounded(start, events[..i + 1]) ==
            if e.Store? then (if Stores(cfg, e) then u[e.key := NewEntry(cfg, e)] else u) else Invalidate(u, e)
  {
    assert events[..i + 1] == events[..i] + [events[i]];
    assert events[..i + 1][..i] == events[..i];
  }

  lemma {:induction false} RoomyIsExact(start: Config, events: seq<Event>, states: seq<State>, i: nat)
    requires IsRun(start, events, states) && i <= |events|
    requires forall j :: 0 <= j < i ==> RoomAt(start, events, j)
    ensures states[i] == State(Unbounded(start, events[..i]), ConfigAfter(start, events[..i]))
    decreases i
  {
    if i > 0 {
      var n := i - 1;
      RoomyIsExact(start, events, states, n);
      UnboundedNext(start, events, n);
      assert events[..i][..n] == events[..n];
      assert Happens(states[n], events[n], states[n + 1]) && RoomAt(start, events, n);
      var s, e := states[n], events[n];
      if Stores(s.config, e) {
        StoreKeepsRest(s.config.maxSize, s.cache, e.key, NewEntry(s.config, e), states[n + 1].cache);
      }
    }
  }

  lemma {:induction false} FirstTight(start: Config, events: seq<Event>, n: nat) returns (i: nat)
    requires n < |events| && !RoomAt(start, events, n)
    ensures i < |events| && !RoomAt(start, events, i) && forall j :: 0 <= j < i ==> RoomAt(start, events, j)
  {
    if j: nat :| j < n && !RoomAt(start, events, j) {
      i := FirstTight(start, events, j);
    } else {
      i := n;
    }
  }

  lemma TightStoreForgets(start: Config, events: seq<Event>, i: nat) returns (all: seq<State>)
    requires i < |events| && !RoomAt(start, events, i) && forall j :: 0 <= j < i ==> RoomAt(start, events, j)
    ensures IsRun(start, events, all) && all[i + 1].cache != Unbounded(start, events[..i + 1])
  {
    assert events[..0] == [];
    var run := RunContinues(start, events, 0, [State(map[], start)]);
    RoomyIsExact(start, events, run, i);
    var s, e, states := run[i], events[i], run[..i + 1];
    assert IsRun(start, events[..i], states);
    var entry := NewEntry(s.config, e);
    StoreForgetsExactly(s.config.maxSize, s.cache, e.key, entry);
    var c', k :| Forgets(s.config.maxSize, s.cache, e.key, entry, c', k);
    var longer := ExtendRun(start, events, states, i, s.(cache := c'));
    all := RunContinues(start, events, i + 1, longer);
    UnboundedNext(start, events, i);
    assert all[i + 1] == longer[i + 1] && k in Unbounded(start, events[..i + 1]);
  }

  /** The cache agrees with the unbounded map after every event of the run. */
  ghost predicate Remembers(start: Config, events: seq<Event>, states: seq<State>)
    requires |states| == |events| + 1
  {
    forall i :: 0 <= i <= |events| ==> states[i].cache == Unbounded(start, events[..i])
  }

  /** MAIN RESULT. Whatever eviction picks, the cache agrees all along with the map without a limit
      exactly for those histories in which every store finds room for all live entries or holds the
      only key that can be evicted. */
  lemma RemembersExactly(start: Config, events: seq<Event>)
    ensures (forall states: seq<State> :: IsRun(start, events, states) ==> Remembers(start, events, states))
            <==> Roomy(start, events)
  {
    if Roomy(start, events) {
      forall states: seq<State> | IsRun(start, events, states) ensures Remembers(start, events, states) {
        forall i | 0 <= i <= |events| ensures states[i].cache == Unbounded(start, events[..i]) {
          RoomyIsExact(start, events, states, i);
        }
      }
    } else {
      var n: nat :| n < |events| && !RoomAt(start, events, n);
      var i := FirstTight(start, events, n);
      var all := TightStoreForgets(start, events, i);
      assert !Remembers(start, events, all);
    }
  }

  /** The entry is the last stored under the key and not invalidated since, and its time has not passed. */
  ghost predicate Fresh(start: Config, events: seq<Event>, key: string, entry: Entry, now: int) {
    exists i :: LiveStore(start, events, i, key, entry) && now <= events[i].at + ConfigAfter(start, events[..i]).ttl
  }

  /** MAIN RESULT. In every run of a history whose stores all find room, a lookup finds an entry exactly
      when it is the one last stored under the key, not invalidated since and within its time to live. */
  lemma FindsExactlyTheFresh(start: Config, events: seq<Event>, states: seq<State>, key: string, entry: Entry, now: int)
    requires IsRun(start, events, states) && Roomy(start, events)
    ensures Get(states[|events|].cache, key, now) == Some(entry) <==> Fresh(start, events, key, entry, now)
  {
    assert events[..|events|] == events;
    RoomyIsExact(start, events, states, |events|);
    UnboundedIsLive(start, events, key, entry);
    if Get(states[|events|].cache, key, now) == Some(entry) {
      var i := HitIsTheLastStore(start, events, states, key, now);
    }
  }

  /** In any run an entry that is there is found exactly until its time has passed. */
  lemma FoundUntilExpiry(c: Cache, key: string, now: int)
    ensures Get(c, key, now).Some? <==> key in c && now <= c[key].expiresAt
    ensures Get(c, key, now).Some? ==> Get(c, key, now).value == c[key]
  {
  }

  /** At every store the unbounded map is still below the limit in force. */
  ghost predicate NeverFull(start: Config, events: seq<Event>) {
    forall i :: 0 <= i < |events| && Stores(ConfigAfter(start, events[..i]), events[i]) ==>
      |Unbounded(start, events[..i])| < ConfigAfter(start, events[..i]).maxSize
  }

  /** In particular, as long as fewer live entries than the limit exist, it forgets nothing at all. */
  lemma ExactWhileNotFull(start: Config, events: seq<Event>, states: seq<State>)
    requires IsRun(start, events, states) && NeverFull(start, events)
    ensures states[|events|].cache == Unbounded(start, events)
  {
    RoomyIsExact(start, events, states, |events|);
    assert events[..|events|] == events;
  }

  /** But overwriting a key in a full cache evicts as well: here it takes another, unexpired entry. */
  lemma OverwriteEvictsAnother()
    ensures var a, b, b' := Entry("1", 10, "d", "t"), Entry("2", 20, "d", "t"), Entry("3", 30, "d", "t");
            forall c' :: Sets(2, map["a" := a, "b" := b], "b", b', c') ==> c' == map["b" := b']
  {
  }
}
