/** Failover engine: node health, the primary, and whole runs of responses. */
module FailoverModel {

  datatype Node = Node(isPrimary: bool, isHealthy: bool, failCount: int)

  datatype Stats = Stats(triggered: int, successful: int, failed: int)

  datatype State = State(
    databases: map<string, Node>,
    primary: string,
    inProgress: bool,
    sourceNode: string,
    targetNode: string,
    stats: Stats)

  datatype Config = Config(failureThreshold: int, autoFailover: bool)

  datatype Outcome = NoResponse | Failed | Succeeded

  datatype Event =
    | Add(name: string, isPrimary: bool, failCount: int)
    | Respond(name: string, outcome: Outcome)

  const INITIAL: State := State(map[], "", false, "", "", Stats(0, 0, 0))

  function AddDatabase(s: State, name: string, isPrimary: bool, failCount: int): State {
    s.(databases := s.databases[name := Node(isPrimary, true, failCount)],
       primary := if isPrimary then name else s.primary)
  }

  function Record(cfg: Config, s: State, name: string, o: Outcome): State {
    if name !in s.databases || o.NoResponse? then s
    else
      var n := s.databases[name];
      var n' := if o.Succeeded? then n.(failCount := 0, isHealthy := true)
                else n.(failCount := n.failCount + 1,
                        isHealthy := n.isHealthy && n.failCount + 1 < cfg.failureThreshold);
      s.(databases := s.databases[name := n'])
  }

  predicate ShouldFailover(cfg: Config, s: State) {
    && !s.inProgress
    && (s.primary !in s.databases ||
        (!s.databases[s.primary].isHealthy && s.databases[s.primary].failCount >= cfg.failureThreshold))
  }

  function Candidates(s: State): set<string> {
    set n | n in s.databases && n != s.primary && s.databases[n].isHealthy
  }

  /** The search for a replica may stop at any candidate; finding none leaves the empty name. */
  predicate MayPick(s: State, target: string) {
    if Candidates(s) == {} then target == "" else target in Candidates(s)
  }

  function Begin(s: State): State {
    s.(stats := s.stats.(triggered := s.stats.triggered + 1), inProgress := true, sourceNode := s.primary)
  }

  /** Switching to the target; the empty name is taken for "none found". */
  function Finish(s: State, target: string): State {
    if target == "" then s.(stats := s.stats.(failed := s.stats.failed + 1), inProgress := false)
    else
      s.(targetNode := target, primary := target, inProgress := false,
         databases := if target in s.databases
                      then s.databases[target := s.databases[target].(isPrimary := true)] else s.databases,
         stats := s.stats.(successful := s.stats.successful + 1))
  }

  function Failover(s: State, target: string): State {
    Finish(Begin(s), target)
  }

  /** Everything one response may lead to. */
  ghost predicate Responds(cfg: Config, s: State, name: string, o: Outcome, s': State) {
    var r := Record(cfg, s, name, o);
    if cfg.autoFailover && ShouldFailover(cfg, r)
    then exists target :: MayPick(r, target) && s' == Failover(r, target)
    else s' == r
  }

  ghost predicate Happens(cfg: Config, s: State, e: Event, s': State) {
    match e
    case Add(name, isPrimary, failCount) => s' == AddDatabase(s, name, isPrimary, failCount)
    case Respond(name, o) => Responds(cfg, s, name, o, s')
  }

  ghost predicate Inv(cfg: Config, s: State) {
    && !s.inProgress
    && s.stats.triggered == s.stats.successful + s.stats.failed
    && forall n :: n in s.databases && !s.databases[n].isHealthy ==> s.databases[n].failCount >= cfg.failureThreshold
  }

  predicate PrimaryHealthy(s: State) {
    s.primary in s.databases && s.databases[s.primary].isHealthy
  }

  ghost predicate SomeHealthy(s: State) {
    exists n :: n in s.databases && s.databases[n].isHealthy
  }

  /** Whether the search can stop at a healthy node with the empty name and so find "none". */
  predicate EmptyNameInTheWay(s: State) {
    !PrimaryHealthy(s) && "" in Candidates(s)
  }

  lemma GoodPickGivesHealthyPrimary(cfg: Config, s: State, target: string)
    requires Inv(cfg, s) && ShouldFailover(cfg, s) && MayPick(s, target) && "" !in Candidates(s)
    ensures var s' := Failover(s, target); SomeHealthy(s') ==> PrimaryHealthy(s')
  {
    assert forall n :: n in s.databases && s.databases[n].isHealthy ==> n in Candidates(s);
  }

  /** MAIN RESULT. With auto-failover on, every outcome of a response leaves the primary healthy if
      any node is, exactly when no healthy node with the empty name competes to replace a bad primary. */
  lemma HealthyPrimaryExactly(cfg: Config, s: State, name: string, o: Outcome)
    requires Inv(cfg, s) && cfg.autoFailover
    ensures (forall s' :: Responds(cfg, s, name, o, s') && SomeHealthy(s') ==> PrimaryHealthy(s'))
            <==> !EmptyNameInTheWay(Record(cfg, s, name, o))
  {
    var r := Record(cfg, s, name, o);
    if EmptyNameInTheWay(r) {
      var s' := Failover(r, "");
      assert Responds(cfg, s, name, o, s') && SomeHealthy(s') && !PrimaryHealthy(s');
    } else {
      forall s' | Responds(cfg, s, name, o, s') && SomeHealthy(s') ensures PrimaryHealthy(s') {
        if ShouldFailover(cfg, r) {
          var target :| MayPick(r, target) && s' == Failover(r, target);
          GoodPickGivesHealthyPrimary(cfg, r, target);
        }
      }
    }
  }

  /** With no node named by the empty string the promise holds unconditionally. */
  lemma NamedNodesKeepHealthyPrimary(cfg: Config, s: State, name: string, o: Outcome, s': State)
    requires Inv(cfg, s) && cfg.autoFailover && "" !in s.databases
    requires Responds(cfg, s, name, o, s') && SomeHealthy(s')
    ensures PrimaryHealthy(s')
  {
    HealthyPrimaryExactly(cfg, s, name, o);
  }

  // ---- whole runs

  ghost predicate IsRun(cfg: Config, events: seq<Event>, states: seq<State>) {
    && |states| == |events| + 1 && states[0] == INITIAL
    && forall i :: 0 <= i < |events| ==> Happens(cfg, states[i], events[i], states[i + 1])
  }

  lemma RunPrefix(cfg: Config, events: seq<Event>, states: seq<State>)
    requires events != [] && IsRun(cfg, events, states)
    ensures IsRun(cfg, events[..|events| - 1], states[..|states| - 1])
    ensures Happens(cfg, states[|events| - 1], events[|events| - 1], states[|events|])
  {
  }

  /** In every run failovers are accounted for and none is in progress between events. */
  lemma {:induction false} RunsKeepInv(cfg: Config, events: seq<Event>, states: seq<State>)
    requires IsRun(cfg, events, states)
    ensures Inv(cfg, states[|events|])
  {
    if events != [] {
      RunPrefix(cfg, events, states);
      RunsKeepInv(cfg, events[..|events| - 1], states[..|states| - 1]);
    }
  }

  /** The failures reported on a node since it was last added or last succeeded. */
  function FailuresInARow(events: seq<Event>, name: string): nat {
    if events == [] then 0
    else
      var e := events[|events| - 1];
      if e.name != name || e == Respond(name, NoResponse) then FailuresInARow(events[..|events| - 1], name)
      else if e == Respond(name, Failed) then FailuresInARow(events[..|events| - 1], name) + 1
      else 0
  }

  /** The failure count the node was added with, or zero once it has succeeded. */
  function StartCount(events: seq<Event>, name: string): int {
    if events == [] then 0
    else
      var e := events[|events| - 1];
      if e.name != name || (e.Respond? && !e.outcome.Succeeded?) then StartCount(events[..|events| - 1], name)
      else if e.Add? then e.failCount
      else 0
  }

  /** A node's stored count is its history: what it started with plus the failures in a row. */
  lemma {:induction false} FailCountIsHistory(cfg: Config, events: seq<Event>, states: seq<State>, name: string)
    requires IsRun(cfg, events, states) && name in states[|events|].databases
    ensures states[|events|].databases[name].failCount == StartCount(events, name) + FailuresInARow(events, name)
  {
    if events != [] {
      var n := |events| - 1;
      RunPrefix(cfg, events, states);
      if name in states[n].databases {
        FailCountIsHistory(cfg, events[..n], states[..n + 1], name);
      }
    }
  }

  /** Only a response on which the registered primary is unhealthy with its count at the threshold
      replaces it. */
  lemma ReplacementNeedsBadPrimary(cfg: Config, s: State, name: string, o: Outcome, s': State)
    requires Responds(cfg, s, name, o, s') && s'.primary != s.primary && s.primary in s.databases
    ensures cfg.autoFailover && s.primary in s'.databases
    ensures !s'.databases[s.primary].isHealthy && s'.databases[s.primary].failCount >= cfg.failureThreshold
    ensures s'.primary in s'.databases && s'.databases[s'.primary].isHealthy && s'.databases[s'.primary].isPrimary
  {
  }

  /** MAIN RESULT. In every run a response replaces a registered primary only once the failures in
      a row on it, with no success between, make up the threshold (less what it was added with). */
  lemma ReplacedOnlyAfterThreshold(cfg: Config, events: seq<Event>, states: seq<State>)
    requires events != [] && IsRun(cfg, events, states) && events[|events| - 1].Respond?
    requires var s := states[|events| - 1]; s.primary in s.databases && states[|events|].primary != s.primary
    ensures var p := states[|events| - 1].primary;
            FailuresInARow(events, p) >= cfg.failureThreshold - StartCount(events, p)
  {
    var n := |events| - 1;
    RunPrefix(cfg, events, states);
    ReplacementNeedsBadPrimary(cfg, states[n], events[n].name, events[n].outcome, states[n + 1]);
    FailCountIsHistory(cfg, events, states, states[n].primary);
  }

  /** In every run an unhealthy node has failed since it was last added or last succeeded. */
  lemma {:induction false} UnhealthyHasFailed(cfg: Config, events: seq<Event>, states: seq<State>, name: string)
    requires IsRun(cfg, events, states)
    requires name in states[|events|].databases && !states[|events|].databases[name].isHealthy
    ensures FailuresInARow(events, name) >= 1
  {
    if events != [] {
      var n := |events| - 1;
      RunPrefix(cfg, events, states);
      if name in states[n].databases && !states[n].databases[name].isHealthy {
        UnhealthyHasFailed(cfg, events[..n], states[..n + 1], name);
      }
    }
  }

  /** The last event of the run replaces a registered primary. */
  ghost predicate Replaces(cfg: Config, events: seq<Event>, states: seq<State>) {
    && events != [] && IsRun(cfg, events, states) && events[|events| - 1].Respond?
    && var s := states[|events| - 1]; s.primary in s.databases && states[|events|].primary != s.primary
  }

  ghost predicate ThresholdGuards(cfg: Config) {
    forall events: seq<Event>, states: seq<State> :: Replaces(cfg, events, states) ==>
      FailuresInARow(events, states[|events| - 1].primary) >= cfg.failureThreshold
  }

  /** A primary added with a count just below the threshold is replaced after a single failure. */
  lemma EarlyReplacement(cfg: Config) returns (events: seq<Event>, states: seq<State>)
    requires cfg.autoFailover && cfg.failureThreshold >= 2
    ensures Replaces(cfg, events, states) && FailuresInARow(events, states[|events| - 1].primary) == 1
  {
    var s1 := AddDatabase(INITIAL, "a", true, cfg.failureThreshold - 1);
    var s2 := AddDatabase(s1, "b", false, 0);
    var r := Record(cfg, s2, "a", Failed);
    var before := [Add("a", true, cfg.failureThreshold - 1), Add("b", false, 0)];
    events := before + [Respond("a", Failed)];
    states := [INITIAL, s1, s2, Failover(r, "b")];
    assert Candidates(r) == {"b"} && MayPick(r, "b");
    assert events[..2] == before && before[..1] == [before[0]];
    assert FailuresInARow(before, "a") == 0;
  }

  /** MAIN RESULT. That a replaced primary has failed at least the threshold in a row holds in all
      runs, whatever counts nodes are added with, exactly when one failure is the threshold anyway
      or nothing is ever replaced. */
  lemma ThresholdGuardsExactly(cfg: Config)
    ensures ThresholdGuards(cfg) <==> !cfg.autoFailover || cfg.failureThreshold <= 1
  {
    if !cfg.autoFailover || cfg.failureThreshold <= 1 {
      forall events: seq<Event>, states: seq<State> | Replaces(cfg, events, states)
        ensures FailuresInARow(events, states[|events| - 1].primary) >= cfg.failureThreshold
      {
        var n := |events| - 1;
        RunPrefix(cfg, events, states);
        ReplacementNeedsBadPrimary(cfg, states[n], events[n].name, events[n].outcome, states[n + 1]);
        UnhealthyHasFailed(cfg, events, states, states[n].primary);
      }
    } else {
      var events, states := EarlyReplacement(cfg);
    }
  }

  /** Every response has an outcome, from every state. */
  lemma RespondsAlways(cfg: Config, s: State, name: string, o: Outcome) returns (s': State)
    ensures Responds(cfg, s, name, o, s')
  {
    var r := Record(cfg, s, name, o);
    s' := r;
    if cfg.autoFailover && ShouldFailover(cfg, r) {
      var target := "";
      if n :| n in Candidates(r) {
        target := n;
      }
      assert MayPick(r, target);
      s' := Failover(r, target);
    }
  }

  /** A failover notes where it came from, and where it went if it found a node other than the old
      primary that is registered and healthy; otherwise the primary stays and it counts as failed. */
  lemma FailoverIsNoted(cfg: Config, s: State, name: string, o: Outcome, s': State)
    requires Responds(cfg, s, name, o, s')
    ensures s'.stats.triggered - s.stats.triggered ==
            (s'.stats.successful - s.stats.successful) + (s'.stats.failed - s.stats.failed)
    ensures s'.stats.triggered == s.stats.triggered ==>
              s'.primary == s.primary && s'.sourceNode == s.sourceNode && s'.targetNode == s.targetNode
    ensures s'.stats.triggered != s.stats.triggered ==>
              s'.stats.triggered == s.stats.triggered + 1 && s'.sourceNode == s.primary && !s'.inProgress
    ensures s'.stats.successful > s.stats.successful ==>
              && s'.targetNode == s'.primary != s.primary
              && s'.primary in s'.databases && s'.databases[s'.primary].isHealthy
    ensures s'.stats.failed > s.stats.failed ==> s'.primary == s.primary && s'.targetNode == s.targetNode
  {
  }

  /** A healthy primary is never replaced by a response, even after an earlier primary recovered. */
  lemma HealthyPrimaryStays(cfg: Config, s: State, name: string, o: Outcome, s': State)
    requires Inv(cfg, s) && Responds(cfg, s, name, o, s') && PrimaryHealthy(Record(cfg, s, name, o))
    ensures s'.primary == s.primary && s'.stats == s.stats
  {
  }

  function Flagged(s: State): set<string> {
    set n | n in s.databases && s.databases[n].isPrimary
  }

  lemma FailoverFlags(s: State, target: string)
    requires target in s.databases && target != s.primary && target != ""
    ensures Flagged(Failover(s, target)) == Flagged(s) + {target}
    ensures s.primary in Flagged(s) ==> |Flagged(Failover(s, target))| >= 2
  {
  }

  /** A failover adds the new primary to the flagged nodes and clears no flag. So where the flag
      singles out the primary, it still does after a response exactly when the primary stays or was
      not flagged. */
  lemma FailoverKeepsOldFlag(cfg: Config, s: State, name: string, o: Outcome, s': State)
    requires Responds(cfg, s, name, o, s')
    ensures Flagged(s') == if s'.primary != s.primary then Flagged(s) + {s'.primary} else Flagged(s)
    ensures s'.primary != s.primary && s.primary in Flagged(s) ==> |Flagged(s')| >= 2
    ensures Flagged(s) <= {s.primary} ==>
              (Flagged(s') <= {s'.primary} <==> s'.primary == s.primary || s.primary !in Flagged(s))
  {
    var r := Record(cfg, s, name, o);
    assert Flagged(r) == Flagged(s);
    if s'.primary != s.primary {
      FailoverFlags(r, s'.primary);
      assert s'.databases == Failover(r, s'.primary).databases;
    }
  }
}
