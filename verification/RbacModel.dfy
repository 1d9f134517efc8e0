/** Role inheritance: what the permission recursion computes, and when it returns at all. */
module RbacModel {
  import opened Options
  import opened Graphs
  import opened Cycles

  datatype RoleDefinition = RoleDefinition(permissions: seq<string>, inherits: seq<string>)

  type Roles = map<string, RoleDefinition>

  function Inheritance(roles: Roles): Graph {
    map r | r in roles :: roles[r].inherits
  }

  predicate Lists(roles: Roles, role: string, perm: string) {
    role in roles && perm in roles[role].permissions
  }

  /** The meaning of a permission: some role reachable by inheritance lists it. */
  ghost predicate Grants(roles: Roles, role: string, perm: string) {
    exists r :: Reaches(Inheritance(roles), role, r) && Lists(roles, r, perm)
  }

  /** The recursion, allowed `fuel` nested calls; None means it wants to go deeper. The recursion
      itself returns exactly when some fuel suffices. */
  function RoleHasPermission(roles: Roles, role: string, perm: string, fuel: nat): Option<bool>
    decreases fuel, 0
  {
    if fuel == 0 then None
    else if role !in roles then Some(false)
    else if perm in roles[role].permissions then Some(true)
    else AnyHasPermission(roles, roles[role].inherits, perm, fuel - 1)
  }

  function AnyHasPermission(roles: Roles, inherits: seq<string>, perm: string, fuel: nat): Option<bool>
    decreases fuel, |inherits| + 1
  {
    if inherits == [] then Some(false)
    else
      match RoleHasPermission(roles, inherits[0], perm, fuel)
      case None => None
      case Some(true) => Some(true)
      case Some(false) => AnyHasPermission(roles, inherits[1..], perm, fuel)
  }

  ghost predicate Returns(roles: Roles, role: string, perm: string) {
    exists fuel :: RoleHasPermission(roles, role, perm, fuel).Some?
  }

  lemma {:induction false} MoreFuel(roles: Roles, role: string, perm: string, a: nat, b: nat)
    requires a <= b && RoleHasPermission(roles, role, perm, a).Some?
    ensures RoleHasPermission(roles, role, perm, b) == RoleHasPermission(roles, role, perm, a)
    decreases a, 0
  {
    if role in roles && perm !in roles[role].permissions {
      MoreFuelForAny(roles, roles[role].inherits, perm, a - 1, b - 1);
    }
  }

  lemma {:induction false} MoreFuelForAny(roles: Roles, inherits: seq<string>, perm: string, a: nat, b: nat)
    requires a <= b && AnyHasPermission(roles, inherits, perm, a).Some?
    ensures AnyHasPermission(roles, inherits, perm, b) == AnyHasPermission(roles, inherits, perm, a)
    decreases a, |inherits| + 1
  {
    if inherits != [] {
      MoreFuel(roles, inherits[0], perm, a, b);
      if RoleHasPermission(roles, inherits[0], perm, a) == Some(false) {
        MoreFuelForAny(roles, inherits[1..], perm, a, b);
      }
    }
  }

  // ---- partial correctness, on every graph

  lemma {:induction false} TrueIsGranted(roles: Roles, role: string, perm: string, fuel: nat)
    requires RoleHasPermission(roles, role, perm, fuel) == Some(true)
    ensures Grants(roles, role, perm)
    decreases fuel, 0
  {
    ReachesSelf(Inheritance(roles), role);
    if perm !in roles[role].permissions {
      var y := AnyTrueIsGranted(roles, roles[role].inherits, perm, fuel - 1);
      var r :| Reaches(Inheritance(roles), y, r) && Lists(roles, r, perm);
      ReachesStep(Inheritance(roles), role, y, r);
    }
  }

  lemma {:induction false} AnyTrueIsGranted(roles: Roles, inherits: seq<string>, perm: string, fuel: nat)
    returns (y: string)
    requires AnyHasPermission(roles, inherits, perm, fuel) == Some(true)
    ensures y in inherits && Grants(roles, y, perm)
    decreases fuel, |inherits| + 1
  {
    y := inherits[0];
    if RoleHasPermission(roles, y, perm, fuel) == Some(true) {
      TrueIsGranted(roles, y, perm, fuel);
    } else {
      y := AnyTrueIsGranted(roles, inherits[1..], perm, fuel);
    }
  }

  lemma {:induction false} AnyFalseMeansEachFalse(roles: Roles, inherits: seq<string>, perm: string, fuel: nat)
    requires AnyHasPermission(roles, inherits, perm, fuel) == Some(false)
    ensures forall y :: y in inherits ==> RoleHasPermission(roles, y, perm, fuel) == Some(false)
    decreases |inherits|
  {
    if inherits != [] {
      AnyFalseMeansEachFalse(roles, inherits[1..], perm, fuel);
    }
  }

  /** A false answer was also reached, with less fuel, at every step of every walk. */
  lemma {:induction false} FalseAlongWalk(roles: Roles, w: seq<string>, perm: string, fuel: nat)
    requires IsWalk(Inheritance(roles), w) && RoleHasPermission(roles, w[0], perm, fuel) == Some(false)
    ensures RoleHasPermission(roles, w[|w| - 1], perm, fuel) == Some(false)
    decreases |w|
  {
    if |w| > 1 {
      TailOfWalk(Inheritance(roles), w);
      AnyFalseMeansEachFalse(roles, roles[w[0]].inherits, perm, fuel - 1);
      MoreFuel(roles, w[1], perm, fuel - 1, fuel);
      FalseAlongWalk(roles, w[1..], perm, fuel);
    }
  }

  /** MAIN RESULT. On every role graph, cyclic ones included, an answer is right: it is true exactly
      when some role reachable by inheritance lists the permission. */
  lemma AnswersAreRight(roles: Roles, role: string, perm: string, fuel: nat)
    requires RoleHasPermission(roles, role, perm, fuel).Some?
    ensures RoleHasPermission(roles, role, perm, fuel).value <==> Grants(roles, role, perm)
  {
    if RoleHasPermission(roles, role, perm, fuel).value {
      TrueIsGranted(roles, role, perm, fuel);
    } else {
      forall r | Reaches(Inheritance(roles), role, r) ensures !Lists(roles, r, perm) {
        var w :| WalkBetween(Inheritance(roles), role, r, w);
        FalseAlongWalk(roles, w, perm, fuel);
      }
    }
  }

  // ---- when the recursion returns

  /** The roles of a list that are asked for the permission: up to the first one that grants it. */
  ghost function Consulted(roles: Roles, names: seq<string>, perm: string): seq<string> {
    if names == [] then []
    else if Grants(roles, names[0], perm) then [names[0]]
    else [names[0]] + Consulted(roles, names[1..], perm)
  }

  /** The edges the recursion follows: none from a role that lists the permission itself. */
  ghost function Searched(roles: Roles, perm: string): Graph {
    map r | r in roles :: if Lists(roles, r, perm) then [] else Consulted(roles, roles[r].inherits, perm)
  }

  lemma {:induction false} ConsultedAreListed(roles: Roles, names: seq<string>, perm: string)
    ensures forall y :: y in Consulted(roles, names, perm) ==> y in names
    ensures (forall y :: y in names ==> !Grants(roles, y, perm)) ==> Consulted(roles, names, perm) == names
  {
    if names != [] {
      assert names == [names[0]] + names[1..];
      ConsultedAreListed(roles, names[1..], perm);
    }
  }

  /** A role is asked when none before it grants the permission. */
  lemma {:induction false} AskedInTurn(roles: Roles, names: seq<string>, perm: string, i: nat)
    requires i < |names| && forall j :: 0 <= j < i ==> !Grants(roles, names[j], perm)
    ensures names[i] in Consulted(roles, names, perm)
  {
    if i > 0 {
      assert forall j :: 0 <= j < i - 1 ==> names[1..][j] == names[j + 1];
      AskedInTurn(roles, names[1..], perm, i - 1);
    }
  }

  lemma {:induction false} ConsultedReturn(roles: Roles, names: seq<string>, perm: string, fuel: nat)
    ensures AnyHasPermission(roles, names, perm, fuel).Some?
            <==> forall y :: y in Consulted(roles, names, perm) ==> RoleHasPermission(roles, y, perm, fuel).Some?
  {
    if names != [] {
      ConsultedReturn(roles, names[1..], perm, fuel);
      if RoleHasPermission(roles, names[0], perm, fuel).Some? {
        AnswersAreRight(roles, names[0], perm, fuel);
      } else {
        assert names[0] in Consulted(roles, names, perm);
      }
    }
  }

  lemma {:induction false} RankedReturns(roles: Roles, role: string, perm: string, rank: string -> nat)
    requires RankedFrom(Searched(roles, perm), role, rank)
    ensures RoleHasPermission(roles, role, perm, rank(role) + 1).Some?
    decreases rank(role)
  {
    var g := Searched(roles, perm);
    if role in roles && !Lists(roles, role, perm) {
      forall y | y in Succ(g, role) ensures RoleHasPermission(roles, y, perm, rank(role)).Some? {
        RankedOnward(g, role, y, rank);
        RankedReturns(roles, y, perm, rank);
        MoreFuel(roles, y, perm, rank(y) + 1, rank(role));
      }
      ConsultedReturn(roles, roles[role].inherits, perm, rank(role));
    }
  }

  /** The least fuel that suffices for a role, given that `bound` does. */
  function LeastFuel(roles: Roles, role: string, perm: string, bound: nat): nat {
    if bound == 0 || RoleHasPermission(roles, role, perm, bound - 1).None? then bound
    else LeastFuel(roles, role, perm, bound - 1)
  }

  lemma {:induction false} LeastFuelIsLeast(roles: Roles, role: string, perm: string, bound: nat, fuel: nat)
    requires RoleHasPermission(roles, role, perm, fuel).Some? && fuel <= bound
    ensures LeastFuel(roles, role, perm, bound) <= fuel
    ensures RoleHasPermission(roles, role, perm, LeastFuel(roles, role, perm, bound)).Some?
    decreases bound
  {
    MoreFuel(roles, role, perm, fuel, bound);
    if fuel < bound {
      MoreFuel(roles, role, perm, fuel, bound - 1);
      LeastFuelIsLeast(roles, role, perm, bound - 1, fuel);
    } else if bound > 0 && RoleHasPermission(roles, role, perm, bound - 1).Some? {
      LeastFuelIsLeast(roles, role, perm, bound - 1, bound - 1);
    }
  }

  lemma AskedReturns(roles: Roles, x: string, y: string, perm: string, fuel: nat)
    requires RoleHasPermission(roles, x, perm, fuel).Some? && y in Succ(Searched(roles, perm), x)
    ensures fuel > 0 && RoleHasPermission(roles, y, perm, fuel - 1).Some?
  {
    ConsultedReturn(roles, roles[x].inherits, perm, fuel - 1);
  }

  /** A role that is asked returns too, and needs less fuel. */
  lemma FuelGoesDown(roles: Roles, x: string, y: string, perm: string, bound: nat)
    requires RoleHasPermission(roles, x, perm, bound).Some? && y in Succ(Searched(roles, perm), x)
    ensures RoleHasPermission(roles, y, perm, bound).Some?
    ensures LeastFuel(roles, y, perm, bound) < LeastFuel(roles, x, perm, bound)
  {
    LeastFuelIsLeast(roles, x, perm, bound, bound);
    var least := LeastFuel(roles, x, perm, bound);
    AskedReturns(roles, x, y, perm, least);
    MoreFuel(roles, y, perm, least - 1, bound);
    LeastFuelIsLeast(roles, y, perm, bound, least - 1);
  }

  lemma {:induction false} ReturnsAlongWalk(roles: Roles, w: seq<string>, perm: string, fuel: nat)
    requires IsWalk(Searched(roles, perm), w) && RoleHasPermission(roles, w[0], perm, fuel).Some?
    ensures RoleHasPermission(roles, w[|w| - 1], perm, fuel).Some?
    decreases |w|
  {
    if |w| > 1 {
      TailOfWalk(Searched(roles, perm), w);
      FuelGoesDown(roles, w[0], w[1], perm, fuel);
      ReturnsAlongWalk(roles, w[1..], perm, fuel);
    }
  }

  /** The recursion returns exactly when the edges it follows have a decreasing measure from the role. */
  lemma ReturnsWithRank(roles: Roles, role: string, perm: string)
    ensures Returns(roles, role, perm) <==> exists rank :: RankedFrom(Searched(roles, perm), role, rank)
  {
    var g := Searched(roles, perm);
    if Returns(roles, role, perm) {
      var fuel :| RoleHasPermission(roles, role, perm, fuel).Some?;
      var rank := (x: string) => LeastFuel(roles, x, perm, fuel);
      forall x, y | Reaches(g, role, x) && y in Succ(g, x) ensures rank(y) < rank(x) {
        var w :| WalkBetween(g, role, x, w);
        ReturnsAlongWalk(roles, w, perm, fuel);
        FuelGoesDown(roles, x, y, perm, fuel);
      }
      assert RankedFrom(g, role, rank);
    }
    if rank :| RankedFrom(g, role, rank) {
      RankedReturns(roles, role, perm, rank);
    }
  }

  /** MAIN RESULT. On every role graph and for every permission, the recursion returns exactly when
      the edges it follows lead from the role into no cycle. */
  lemma ReturnsExactly(roles: Roles, role: string, perm: string)
    ensures Returns(roles, role, perm) <==> !CycleAhead(Searched(roles, perm), role)
  {
    ReturnsWithRank(roles, role, perm);
    RankedExactly(Searched(roles, perm), role);
  }

  lemma GrantedByInherited(roles: Roles, role: string, y: string, perm: string)
    requires y in Succ(Inheritance(roles), role) && Grants(roles, y, perm)
    ensures Grants(roles, role, perm)
  {
    var r :| Reaches(Inheritance(roles), y, r) && Lists(roles, r, perm);
    ReachesStep(Inheritance(roles), role, y, r);
  }

  /** The search keeps to inheritance, and from a role without the permission follows all of it. */
  lemma SearchedEdges(roles: Roles, role: string, perm: string)
    ensures forall y :: y in Succ(Searched(roles, perm), role) ==> y in Succ(Inheritance(roles), role)
    ensures !Grants(roles, role, perm) ==> Succ(Searched(roles, perm), role) == Succ(Inheritance(roles), role)
  {
    if role in roles {
      ConsultedAreListed(roles, roles[role].inherits, perm);
      if !Grants(roles, role, perm) {
        ReachesSelf(Inheritance(roles), role);
        forall y | y in roles[role].inherits ensures !Grants(roles, y, perm) {
          if Grants(roles, y, perm) {
            GrantedByInherited(roles, role, y, perm);
          }
        }
      }
    }
  }

  lemma {:induction false} SearchedWalk(roles: Roles, w: seq<string>, perm: string)
    requires |w| > 0
    ensures IsWalk(Searched(roles, perm), w) ==> IsWalk(Inheritance(roles), w)
    ensures IsWalk(Inheritance(roles), w) && !Grants(roles, w[0], perm) ==>
              IsWalk(Searched(roles, perm), w) && !Grants(roles, w[|w| - 1], perm)
    decreases |w|
  {
    if |w| > 1 {
      SearchedEdges(roles, w[0], perm);
      SearchedWalk(roles, w[1..], perm);
      forall g: Graph ensures IsWalk(g, w) <==> w[1] in Succ(g, w[0]) && IsWalk(g, w[1..]) {
        WalkUnfold(g, w);
      }
      if IsWalk(Inheritance(roles), w) && Grants(roles, w[1], perm) {
        GrantedByInherited(roles, w[0], w[1], perm);
      }
    }
  }

  /** A measure along inheritance serves the search too, and for a permission that is not granted
      the two ask the same. */
  lemma SearchedRanks(roles: Roles, role: string, perm: string, rank: string -> nat)
    ensures RankedFrom(Inheritance(roles), role, rank) ==> RankedFrom(Searched(roles, perm), role, rank)
    ensures !Grants(roles, role, perm) && RankedFrom(Searched(roles, perm), role, rank) ==>
              RankedFrom(Inheritance(roles), role, rank)
  {
    var g, h := Inheritance(roles), Searched(roles, perm);
    forall x, y | Reaches(h, role, x) && y in Succ(h, x) ensures Reaches(g, role, x) && y in Succ(g, x) {
      var w :| WalkBetween(h, role, x, w);
      SearchedWalk(roles, w, perm);
      assert WalkBetween(g, role, x, w);
      SearchedEdges(roles, x, perm);
    }
    if !Grants(roles, role, perm) {
      forall x, y | Reaches(g, role, x) && y in Succ(g, x) ensures Reaches(h, role, x) && y in Succ(h, x) {
        var w :| WalkBetween(g, role, x, w);
        SearchedWalk(roles, w, perm);
        assert WalkBetween(h, role, x, w);
        SearchedEdges(roles, x, perm);
      }
    }
  }

  /** So for a permission that is not granted, it returns exactly when inheritance from the role
      leads into no cycle. */
  lemma RefusalReturnsExactly(roles: Roles, role: string, perm: string)
    requires !Grants(roles, role, perm)
    ensures Returns(roles, role, perm) <==> !CycleAhead(Inheritance(roles), role)
  {
    ReturnsWithRank(roles, role, perm);
    RankedExactly(Inheritance(roles), role);
    forall rank: string -> nat
      ensures RankedFrom(Inheritance(roles), role, rank) <==> RankedFrom(Searched(roles, perm), role, rank)
    {
      SearchedRanks(roles, role, perm, rank);
    }
  }

  const LOST_GRANT: Roles := map[
    "a" := RoleDefinition([], ["b", "c"]),
    "b" := RoleDefinition([], ["b"]),
    "c" := RoleDefinition(["read"], [])]

  /** A granted permission may never be found: the search goes round a cycle listed before it. */
  lemma {:induction false} GrantBehindCycleIsLost(fuel: nat)
    ensures var roles := LOST_GRANT;
            RoleHasPermission(roles, "b", "read", fuel).None? && RoleHasPermission(roles, "a", "read", fuel).None?
            && Grants(roles, "a", "read")
  {
    var roles := LOST_GRANT;
    assert WalkBetween(Inheritance(roles), "a", "c", ["a", "c"]);
    assert Lists(roles, "c", "read");
    if fuel > 0 {
      GrantBehindCycleIsLost(fuel - 1);
    }
  }

  /** In an acyclic role graph every question is answered, rightly. */
  lemma AcyclicAlwaysAnswers(roles: Roles, role: string, perm: string) returns (fuel: nat)
    requires Acyclic(Inheritance(roles))
    ensures RoleHasPermission(roles, role, perm, fuel) == Some(Grants(roles, role, perm))
  {
    AcyclicExactly(Inheritance(roles));
    var rank :| Ranked(Inheritance(roles), rank);
    assert RankedFrom(Inheritance(roles), role, rank);
    SearchedRanks(roles, role, perm, rank);
    RankedReturns(roles, role, perm, rank);
    fuel := rank(role) + 1;
    AnswersAreRight(roles, role, perm, fuel);
  }

  // ---- adding a role

  function MaxRank(names: seq<string>, rank: string -> nat): nat {
    if names == [] then 0
    else
      var rest := MaxRank(names[1..], rank);
      if rank(names[0]) >= rest then rank(names[0]) + 1 else rest
  }

  lemma {:induction false} MaxRankIsAbove(names: seq<string>, rank: string -> nat)
    ensures forall n :: n in names ==> rank(n) < MaxRank(names, rank)
  {
    if names != [] {
      MaxRankIsAbove(names[1..], rank);
    }
  }

  /** Ranks with everything that leads to the role lifted above the roles it is to inherit. */
  ghost function Lifted(g: Graph, role: string, rank: string -> nat, lift: nat, x: string): nat {
    if Reaches(g, x, role) then rank(x) + lift else rank(x)
  }

  lemma LiftedGoesDown(g: Graph, role: string, inherits: seq<string>, rank: string -> nat, x: string, y: string)
    requires Ranked(g, rank) && forall i :: i in inherits ==> !Reaches(g, i, role)
    requires y in Succ(g[role := inherits], x)
    ensures var lift := MaxRank(inherits, rank);
            Lifted(g, role, rank, lift, y) < Lifted(g, role, rank, lift, x)
  {
    if x == role {
      MaxRankIsAbove(inherits, rank);
      ReachesSelf(g, role);
    } else if Reaches(g, y, role) {
      ReachesStep(g, x, y, role);
    }
  }

  lemma RankWithNewRole(g: Graph, role: string, inherits: seq<string>, rank: string -> nat)
    requires Ranked(g, rank) && forall i :: i in inherits ==> !Reaches(g, i, role)
    ensures Acyclic(g[role := inherits])
  {
    var lifted := (x: string) => Lifted(g, role, rank, MaxRank(inherits, rank), x);
    forall x, y | y in Succ(g[role := inherits], x) ensures lifted(y) < lifted(x) {
      LiftedGoesDown(g, role, inherits, rank, x, y);
    }
    assert Ranked(g[role := inherits], lifted);
    AcyclicExactly(g[role := inherits]);
  }

  lemma {:induction false} RankAlongWalk(g: Graph, role: string, inherits: seq<string>, w: seq<string>,
                                         rank: string -> nat)
    requires Ranked(g[role := inherits], rank) && IsWalk(g, w) && w[|w| - 1] == role
    ensures rank(w[0]) >= rank(role)
    decreases |w|
  {
    if |w| > 1 && w[0] != role {
      TailOfWalk(g, w);
      RankAlongWalk(g, role, inherits, w[1..], rank);
    }
  }

  /** MAIN RESULT. Adding or redefining a role keeps an acyclic role graph acyclic exactly when
      none of the roles it inherits already leads to it. */
  lemma AddRoleKeepsAcyclicExactly(roles: Roles, role: string, def: RoleDefinition)
    requires Acyclic(Inheritance(roles))
    ensures Acyclic(Inheritance(roles[role := def]))
            <==> forall i :: i in def.inherits ==> !Reaches(Inheritance(roles), i, role)
  {
    var g, g' := Inheritance(roles), Inheritance(roles[role := def]);
    assert g' == g[role := def.inherits];
    AcyclicExactly(g);
    AcyclicExactly(g');
    if forall i :: i in def.inherits ==> !Reaches(g, i, role) {
      var rank :| Ranked(g, rank);
      RankWithNewRole(g, role, def.inherits, rank);
    }
    if Acyclic(g') {
      var rank :| Ranked(g', rank);
      forall i | i in def.inherits ensures !Reaches(g, i, role) {
        if Reaches(g, i, role) {
          var w :| WalkBetween(g, i, role, w);
          assert i in Succ(g', role);
          RankAlongWalk(g, role, def.inherits, w, rank);
        }
      }
    }
  }

  // ---- users

  datatype User = User(roles: seq<string>, enabled: bool)

  /** What a user is allowed: enabled, and some role of theirs grants it. */
  ghost predicate Allowed(users: map<string, User>, roles: Roles, username: string, perm: string) {
    username in users && users[username].enabled &&
    exists r :: r in users[username].roles && Grants(roles, r, perm)
  }

  /** Giving an enabled user more roles never takes a permission away. */
  lemma MoreRolesAllowMore(users: map<string, User>, roles: Roles, name: string, perm: string, more: seq<string>)
    requires Allowed(users, roles, name, perm) && forall r :: r in users[name].roles ==> r in more
    ensures Allowed(users[name := users[name].(roles := more)], roles, name, perm)
  {
  }

  const ALL_PERMISSIONS: seq<string> := ["read", "write", "delete", "execute", "admin", "audit", "config"]

  const DEFAULT_ROLES: Roles := map[
    "admin" := RoleDefinition(ALL_PERMISSIONS, []),
    "developer" := RoleDefinition(["read", "write", "execute", "config"], []),
    "read_only" := RoleDefinition(["read"], []),
    "operator" := RoleDefinition(["read", "execute"], []),
    "auditor" := RoleDefinition(["read", "audit"], [])]

  lemma DefaultRolesAreAcyclic()
    ensures Acyclic(Inheritance(DEFAULT_ROLES))
  {
    var rank := (x: string) => 0;
    assert Ranked(Inheritance(DEFAULT_ROLES), rank);
    AcyclicExactly(Inheritance(DEFAULT_ROLES));
  }
}
