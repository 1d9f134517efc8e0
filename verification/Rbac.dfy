/** Role-based access control: users as objects updated in place, roles as a map. */
module Rbac {
  import opened Graphs
  import opened Cycles
  import opened RbacModel

  datatype Error = NoError | AlreadyExists | NotFound

  datatype Update<T> = Keep | Set(value: T)

  class UserRecord {
    const username: string
    var roles: seq<string>
    var enabled: bool

    constructor (username: string, roles: seq<string>, enabled: bool)
      ensures this.username == username && View() == User(roles, enabled)
    {
      this.username, this.roles, this.enabled := username, roles, enabled;
    }

    ghost function View(): User
      reads this
    {
      User(roles, enabled)
    }
  }

  class AccessControl {
    var users: map<string, UserRecord>
    var roles: Roles

    /** Users are filed under their own names, so no two names share a record. */
    ghost predicate Valid()
      reads this
    {
      forall u :: u in users ==> users[u].username == u
    }

    ghost function Users(): map<string, User>
      reads this, users.Values
    {
      map u | u in users :: users[u].View()
    }

    constructor ()
      ensures Valid() && Users() == map[] && roles == DEFAULT_ROLES
    {
      users, roles := map[], DEFAULT_ROLES;
    }

    method AddUser(user: UserRecord) returns (error: Error)
      requires Valid()
      modifies this`users
      ensures Valid() && error == if user.username in old(users) then AlreadyExists else NoError
      ensures Users() == if error == NoError then old(Users())[user.username := user.View()] else old(Users())
    {
      if user.username in users {
        return AlreadyExists;
      }
      users := users[user.username := user];
      return NoError;
    }

    method RemoveUser(username: string) returns (error: Error)
      requires Valid()
      modifies this`users
      ensures Valid() && error == if username in old(users) then NoError else NotFound
      ensures Users() == old(Users()) - {username}
    {
      if username !in users {
        return NotFound;
      }
      users := users - {username};
      return NoError;
    }

    method UpdateUser(username: string, newRoles: Update<seq<string>>, enabled: Update<bool>) returns (error: Error)
      requires Valid()
      modifies users.Values
      ensures error == if username in users then NoError else NotFound
      ensures Users() == if username !in users then old(Users()) else
                var u := old(Users())[username];
                old(Users())[username := User(if newRoles.Set? then newRoles.value else u.roles,
                                              if enabled.Set? then enabled.value else u.enabled)]
    {
      if username !in users {
        return NotFound;
      }
      ghost var before := Users();
      var user := users[username];
      if newRoles.Set? {
        user.roles := newRoles.value;
      }
      if enabled.Set? {
        user.enabled := enabled.value;
      }
      assert Users() == before[username := user.View()];
      return NoError;
    }

    method AddRole(role: string, def: RoleDefinition)
      modifies this`roles
      ensures roles == old(roles)[role := def]
      ensures Acyclic(Inheritance(old(roles))) ==>
                (Acyclic(Inheritance(roles)) <==>
                   forall i :: i in def.inherits ==> !Reaches(Inheritance(old(roles)), i, role))
    {
      if Acyclic(Inheritance(roles)) {
        AddRoleKeepsAcyclicExactly(roles, role, def);
      }
      roles := roles[role := def];
    }

    method Lists(list: seq<string>, x: string) returns (found: bool)
      ensures found <==> x in list
    {
      for i := 0 to |list|
        invariant x !in list[..i]
      {
        if list[i] == x {
          return true;
        }
      }
      return false;
    }

    /** The recursion itself. The measure it asks for exists exactly when it returns. */
    method RoleHasPermission(role: string, perm: string, ghost rank: string -> nat) returns (granted: bool)
      requires RankedFrom(Searched(roles, perm), role, rank)
      ensures granted <==> Grants(roles, role, perm)
      decreases rank(role)
    {
      ghost var g := Searched(roles, perm);
      ReachesSelf(Inheritance(roles), role);
      if role !in roles {
        NoneBeyondUnknown(roles, role, perm);
        return false;
      }
      var def := roles[role];
      var listed := Lists(def.permissions, perm);
      if listed {
        assert RbacModel.Lists(roles, role, perm);
        return true;
      }
      for i := 0 to |def.inherits|
        invariant forall j :: 0 <= j < i ==> !Grants(roles, def.inherits[j], perm)
      {
        AskedInTurn(roles, def.inherits, perm, i);
        RankedOnward(g, role, def.inherits[i], rank);
        var inherited := RoleHasPermission(def.inherits[i], perm, rank);
        if inherited {
          GrantedByInherited(roles, role, def.inherits[i], perm);
          return true;
        }
      }
      NotGrantedByAny(roles, role, perm);
      return false;
    }

    /** Asks that no role that comes to be asked leads the search into a cycle. */
    method HasPermission(username: string, perm: string) returns (allowed: bool)
      requires Valid()
      requires username in users && users[username].enabled ==>
                 forall r :: r in Consulted(roles, users[username].roles, perm) ==>
                   !CycleAhead(Searched(roles, perm), r)
      ensures allowed <==> Allowed(Users(), roles, username, perm)
      ensures allowed <==> && username in users && users[username].enabled
                           && (exists i :: 0 <= i < |users[username].roles| &&
                                           Grants(roles, users[username].roles[i], perm))
    {
      if username !in users || !users[username].enabled {
        return false;
      }
      var user := users[username];
      assert Users()[username] == user.View();
      for i := 0 to |user.roles|
        invariant forall j :: 0 <= j < i ==> !Grants(roles, user.roles[j], perm)
      {
        AskedInTurn(roles, user.roles, perm, i);
        RankedExactly(Searched(roles, perm), user.roles[i]);
        ghost var rank :| RankedFrom(Searched(roles, perm), user.roles[i], rank);
        var granted := RoleHasPermission(user.roles[i], perm, rank);
        if granted {
          return true;
        }
      }
      return false;
    }
  }

  lemma NoneBeyondUnknown(roles: Roles, role: string, perm: string)
    requires role !in roles
    ensures !Grants(roles, role, perm)
  {
    forall r | Reaches(Inheritance(roles), role, r) ensures r == role {
      if r != role {
        ReachesUnfold(Inheritance(roles), role, r);
      }
    }
  }

  lemma NotGrantedByAny(roles: Roles, role: string, perm: string)
    requires role in roles && perm !in roles[role].permissions
    requires forall j :: 0 <= j < |roles[role].inherits| ==> !Grants(roles, roles[role].inherits[j], perm)
    ensures !Grants(roles, role, perm)
  {
    forall r | Reaches(Inheritance(roles), role, r) ensures !RbacModel.Lists(roles, r, perm) {
      if r != role {
        ReachesUnfold(Inheritance(roles), role, r);
        var c :| c in Succ(Inheritance(roles), role) && Reaches(Inheritance(roles), c, r);
        assert !Grants(roles, c, perm);
      }
    }
  }
}
