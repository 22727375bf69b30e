/** The authentication store: users and roles in the backend, and the cache of merged
    permissions in front of them. Each method is tied to AuthSpec.Step. */
module AuthStores {
  import opened Bytes
  import opened Intervals
  import opened AuthSpec
  import opened AuthLaws
  import opened Collections

  /** sort.SearchStrings: the first place whose name is not below `name`. */
  method SearchNames(names: seq<Key>, name: Key) returns (idx: nat)
    requires Ascending(names)
    ensures idx <= |names|
    ensures forall j :: 0 <= j < idx ==> Less(names[j], name)
    ensures forall j :: idx <= j < |names| ==> !Less(names[j], name)
    ensures name in names <==> idx < |names| && names[idx] == name
  {
    var i, j: nat := 0, |names|;
    while i < j
      invariant i <= j <= |names|
      invariant forall k :: 0 <= k < i ==> Less(names[k], name)
      invariant forall k :: j <= k < |names| ==> !Less(names[k], name)
    {
      var h := (i + j) / 2;
      BelowOrNot(names, name, h);
      if Less(names[h], name) {
        i := h + 1;
      } else {
        j := h;
      }
    }
    idx := i;
    FoundAt(names, name, idx);
  }

  lemma BelowOrNot(names: seq<Key>, name: Key, h: nat)
    requires Ascending(names) && h < |names|
    ensures Less(names[h], name) ==> forall k :: 0 <= k <= h ==> Less(names[k], name)
    ensures !Less(names[h], name) ==> forall k :: h <= k < |names| ==> !Less(names[k], name)
  {
    forall k | 0 <= k < |names|
      ensures k <= h && Less(names[h], name) ==> Less(names[k], name)
      ensures k >= h && !Less(names[h], name) ==> !Less(names[k], name)
    {
      if k < h && Less(names[h], name) {
        CompareTransitive(names[k], names[h], name);
      }
      if k > h && Less(names[k], name) {
        CompareTransitive(names[h], names[k], name);
      }
    }
  }

  lemma FoundAt(names: seq<Key>, name: Key, idx: nat)
    requires Ascending(names) && idx <= |names|
    requires forall j :: 0 <= j < idx ==> Less(names[j], name)
    requires forall j :: idx <= j < |names| ==> !Less(names[j], name)
    ensures name in names <==> idx < |names| && names[idx] == name
  {
    CompareEqual(name, name);
    if name in names {
      var k :| 0 <= k < |names| && names[k] == name;
      assert idx <= k;
    }
  }

  /** Append a name and sort, by insertion. */
  method AppendSorted(names: seq<Key>, role: Key) returns (sorted: seq<Key>)
    requires Ascending(names) && role !in names
    ensures sorted == InsertName(names, role)
  {
    var n: nat := |names|;
    assert names[..n] == names && names[n..] == [];
    while n > 0 && !Less(names[n - 1], role)
      invariant n <= |names|
      invariant InsertName(names, role) == InsertName(names[..n], role) + names[n..]
    {
      n := n - 1;
      assert names[..n + 1][..n] == names[..n];
      assert [names[n]] + names[n + 1..] == names[n..];
    }
    sorted := names[..n] + [role] + names[n..];
    assert names[..0] == [];
  }

  /** The names but one. */
  method RemoveName(names: seq<Key>, role: Key) returns (kept: seq<Key>)
    ensures kept == Without(names, role)
  {
    kept := [];
    for i := 0 to |names|
      invariant kept == Without(names[..i], role)
    {
      assert names[..i + 1][..i] == names[..i];
      if names[i] != role {
        kept := kept + [names[i]];
      }
    }
    assert names[..|names|] == names;
  }

  method RemovePerm(ps: seq<Permission>, key: Key, rangeEnd: Key) returns (kept: seq<Permission>)
    ensures kept == WithoutPerm(ps, key, rangeEnd)
  {
    kept := [];
    for i := 0 to |ps|
      invariant kept == WithoutPerm(ps[..i], key, rangeEnd)
    {
      assert ps[..i + 1][..i] == ps[..i];
      if ps[i].key != key || ps[i].rangeEnd != rangeEnd {
        kept := kept + [ps[i]];
      }
    }
    assert ps[..|ps|] == ps;
  }

  /** sort.Search over the permissions of a role. */
  method SearchPerms(ps: seq<Permission>, key: Key) returns (idx: nat)
    requires KeySorted(ps)
    ensures LowerBound(ps, key, idx)
  {
    var i, j: nat := 0, |ps|;
    while i < j
      invariant i <= j <= |ps|
      invariant forall k :: 0 <= k < i ==> Less(ps[k].key, key)
      invariant forall k :: j <= k < |ps| ==> !Less(ps[k].key, key)
    {
      var h := (i + j) / 2;
      forall k | 0 <= k < |ps|
        ensures k <= h && Less(ps[h].key, key) ==> Less(ps[k].key, key)
        ensures k >= h && !Less(ps[h].key, key) ==> !Less(ps[k].key, key)
      {
        if k <= h && Less(ps[h].key, key) {
          CompareTransitive(ps[k].key, ps[h].key, key);
        }
        if k >= h && Less(ps[k].key, key) {
          CompareTransitive(ps[h].key, ps[k].key, key);
        }
      }
      if Less(ps[h].key, key) {
        i := h + 1;
      } else {
        j := h;
      }
    }
    idx := i;
  }

  /** Append a permission and sort by key; a permission of the same key stays before. */
  method AppendPermSorted(ps: seq<Permission>, p: Permission) returns (sorted: seq<Permission>)
    requires KeySorted(ps)
    ensures KeySorted(sorted) && multiset(sorted) == multiset(ps + [p])
  {
    var n: nat := |ps|;
    while n > 0 && !AtMost(ps[n - 1].key, p.key)
      invariant n <= |ps|
      invariant forall k :: n <= k < |ps| ==> !AtMost(ps[k].key, p.key)
    {
      n := n - 1;
    }
    sorted := ps[..n] + [p] + ps[n..];
    assert ps == ps[..n] + ps[n..];
    InsertedSorted(ps, p, n);
  }

  lemma InsertedSorted(ps: seq<Permission>, p: Permission, n: nat)
    requires KeySorted(ps) && n <= |ps|
    requires n > 0 ==> AtMost(ps[n - 1].key, p.key)
    requires forall k :: n <= k < |ps| ==> !AtMost(ps[k].key, p.key)
    ensures KeySorted(ps[..n] + [p] + ps[n..])
  {
    CompareEqual(p.key, p.key);
    forall k | 0 <= k < |ps|
      ensures k < n ==> AtMost(ps[k].key, p.key)
      ensures k >= n ==> AtMost(p.key, ps[k].key)
    {
      if k < n {
        CompareTransitive(ps[k].key, ps[n - 1].key, p.key);
      } else {
        CompareAntisymmetric(ps[k].key, p.key);
      }
    }
  }

  /** RoleDelete has rewritten the enumerated users but those of `names`. */
  ghost predicate TakenBut(names: set<Key>, role: Key, users0: Users, users: Users, cache0: map<Key, Perms>, cache: map<Key, Perms>) {
    && users.Keys == users0.Keys
    && (forall u :: u in names ==> u in users0 && Enumerated(u))
    && (forall u :: u in users0 ==>
         users[u] == if Enumerated(u) && u !in names then users0[u].(roles := Without(users0[u].roles, role)) else users0[u])
    && (forall u :: u in cache <==> u in cache0 && (u in Rewritten(users0, role) ==> u in names))
    && (forall u :: u in cache ==> cache[u] == cache0[u])
  }

  class AuthStore {
    var users: Users
    var roles: Roles
    var rangePermCache: map<Key, Perms>
    var enabled: bool
    var revision: nat

    function Now(): State
      reads this
    {
      State(users, roles, rangePermCache, enabled, revision)
    }

    constructor ()
      ensures Now() == INITIAL
    {
      users, roles, rangePermCache, enabled, revision := map[], map[], map[], false, 1;
    }

    // ---------- Permission checks ----------

    /** Insert every permission of the user's roles into the two trees. */
    method GetMergedPerms(user: User) returns (perms: Perms)
      ensures perms == Merged(user.roles, roles)
    {
      perms := NO_PERMS;
      for i := 0 to |user.roles|
        invariant perms == Merged(user.roles[..i], roles)
      {
        assert user.roles[..i + 1][..i] == user.roles[..i];
        var name := user.roles[i];
        if name in roles {
          var ps := roles[name];
          ghost var before := perms;
          for j := 0 to |ps|
            invariant perms == AddPerms(before, ps[..j])
          {
            assert ps[..j + 1][..j] == ps[..j];
            perms := AddPerm(perms, ps[j]);
          }
          assert ps[..|ps|] == ps;
        }
      }
      assert user.roles[..|user.roles|] == user.roles;
    }

    /** Fill the cache if needed and answer from it. For a range that ends before it begins
        only a permission is a sure answer. */
    method IsRangeOpPermitted(name: Key, key: Key, rangeEnd: Key, permType: PermType) returns (ok: bool)
      requires Good(Now()) && permType != READWRITE
      modifies this`rangePermCache
      ensures Now() == Cached(old(Now()), name)
      ensures ok ==> name in users && MayAccess(users[name].roles, roles, key, rangeEnd, permType)
      ensures rangeEnd == [] || (key != [] && (rangeEnd == [0] || Less(key, rangeEnd))) ==> (ok <==> name in users && MayAccess(users[name].roles, roles, key, rangeEnd, permType))
    {
      if name !in rangePermCache {
        if name !in users {
          return false;
        }
        var perms := GetMergedPerms(users[name]);
        rangePermCache := rangePermCache[name := perms];
      }
      assert rangePermCache[name] == Merged(users[name].roles, roles);
      TreeAnswers(users[name].roles, roles, key, rangeEnd, permType);
      var tree := Tree(rangePermCache[name], permType);
      if |rangeEnd| == 0 {
        IntersectsPoint(tree, key);
        return Intersects(tree, Point(key));
      }
      ok := Contains(tree, Interval(key, OpenEnd(rangeEnd)));
    }

    /** Binary search for the root role in the user's sorted list. */
    method HasRootRole(user: User) returns (has: bool)
      requires Ascending(user.roles)
      ensures has <==> ROOT_ROLE in user.roles
    {
      var idx := SearchNames(user.roles, ROOT_ROLE);
      has := idx != |user.roles| && user.roles[idx] == ROOT_ROLE;
    }

    /** Linear scan for a role. */
    method HasRole(name: Key, role: Key) returns (has: bool)
      ensures has <==> name in users && role in users[name].roles
    {
      if name !in users {
        return false;
      }
      var names := users[name].roles;
      for i := 0 to |names|
        invariant role !in names[..i]
      {
        if names[i] == role {
          return true;
        }
      }
      return false;
    }

    /** With authentication on, a request needs a current token and either the root
        role or roles that grant every key it names. */
    method IsOpPermitted(name: Key, tokenRevision: nat, key: Key, rangeEnd: Key, permType: PermType) returns (err: Error)
      requires Good(Now()) && permType != READWRITE
      modifies this`rangePermCache
      ensures Now() == old(Now()) || Now() == Cached(old(Now()), name)
      ensures err == if !enabled then Ok
                     else if tokenRevision == 0 then ErrUserEmpty
                     else if tokenRevision < revision then ErrAuthOldRevision
                     else if name !in users then ErrPermissionDenied
                     else if ROOT_ROLE in users[name].roles then Ok
                     else if !MayAccess(users[name].roles, roles, key, rangeEnd, permType) then ErrPermissionDenied
                     else if rangeEnd == [] || (key != [] && (rangeEnd == [0] || Less(key, rangeEnd))) then Ok
                     else err
    {
      if !enabled {
        return Ok;
      }
      if tokenRevision == 0 {
        return ErrUserEmpty;
      }
      if tokenRevision < revision {
        return ErrAuthOldRevision;
      }
      if name !in users {
        return ErrPermissionDenied;
      }
      var root := HasRootRole(users[name]);
      if root {
        return Ok;
      }
      var ok := IsRangeOpPermitted(name, key, rangeEnd, permType);
      return if ok then Ok else ErrPermissionDenied;
    }

    // ---------- Administration ----------

    method CommitRevision()
      modifies this`revision
      ensures revision == old(revision) + 1
    {
      revision := revision + 1;
    }

    method InvalidateCachedPerm(name: Key)
      modifies this`rangePermCache
      ensures rangePermCache == old(rangePermCache) - {name}
    {
      rangePermCache := rangePermCache - {name};
    }

    method UserAdd(name: Key, password: Key, noPassword: bool) returns (err: Error)
      modifies this
      ensures (err, Now()) == Step(old(Now()), Op.UserAdd(name, password, noPassword))
    {
      if |name| == 0 {
        return ErrUserEmpty;
      }
      var hashed := if noPassword then [] else password;
      if name in users {
        return ErrUserAlreadyExist;
      }
      users := users[name := User([], hashed, noPassword)];
      CommitRevision();
      return Ok;
    }

    method UserDelete(name: Key) returns (err: Error)
      modifies this
      ensures (err, Now()) == Step(old(Now()), Op.UserDelete(name))
    {
      if enabled && name == ROOT_USER {
        return ErrInvalidAuthMgmt;
      }
      if name !in users {
        return ErrUserNotFound;
      }
      users := users - {name};
      CommitRevision();
      InvalidateCachedPerm(name);
      return Ok;
    }

    method UserChangePassword(name: Key, password: Key) returns (err: Error)
      modifies this
      ensures (err, Now()) == Step(old(Now()), Op.UserChangePassword(name, password))
    {
      if name !in users {
        return ErrUserNotFound;
      }
      users := users[name := User(users[name].roles, password, users[name].noPassword)];
      CommitRevision();
      InvalidateCachedPerm(name);
      return Ok;
    }

    method UserGrantRole(name: Key, role: Key) returns (err: Error)
      requires Good(Now())
      modifies this
      ensures (err, Now()) == Step(old(Now()), Op.UserGrantRole(name, role))
    {
      if name !in users {
        return ErrUserNotFound;
      }
      if role != ROOT_ROLE && role !in roles {
        return ErrRoleNotFound;
      }
      var user := users[name];
      var idx := SearchNames(user.roles, role);
      if idx < |user.roles| && user.roles[idx] == role {
        return Ok;
      }
      var sorted := AppendSorted(user.roles, role);
      users := users[name := user.(roles := sorted)];
      InvalidateCachedPerm(name);
      CommitRevision();
      return Ok;
    }

    method UserRevokeRole(name: Key, role: Key) returns (err: Error)
      modifies this
      ensures (err, Now()) == Step(old(Now()), Op.UserRevokeRole(name, role))
    {
      if enabled && name == ROOT_USER && role == ROOT_ROLE {
        return ErrInvalidAuthMgmt;
      }
      if name !in users {
        return ErrUserNotFound;
      }
      var user := users[name];
      var kept := RemoveName(user.roles, role);
      if |kept| == |user.roles| {
        return ErrRoleNotGranted;
      }
      users := users[name := user.(roles := kept)];
      InvalidateCachedPerm(name);
      CommitRevision();
      return Ok;
    }

    method RoleAdd(role: Key) returns (err: Error)
      modifies this
      ensures (err, Now()) == Step(old(Now()), Op.RoleAdd(role))
    {
      if |role| == 0 {
        return ErrRoleEmpty;
      }
      if role in roles {
        return ErrRoleAlreadyExist;
      }
      roles := roles[role := []];
      CommitRevision();
      return Ok;
    }

    /** The role is taken from every user the enumeration meets, and the cache entries
        of those users are dropped. */
    method RoleDelete(role: Key) returns (err: Error)
      modifies this
      ensures (err, Now()) == Step(old(Now()), Op.RoleDelete(role))
    {
      if enabled && role == ROOT_ROLE {
        return ErrInvalidAuthMgmt;
      }
      if role !in roles {
        return ErrRoleNotFound;
      }
      roles := roles - {role};
      TakeFromUsers(role);
      CommitRevision();
      return Ok;
    }

    method TakeFromUsers(role: Key)
      modifies this`users, this`rangePermCache
      ensures users == UsersWithout(old(users), role)
      ensures rangePermCache == old(rangePermCache) - Rewritten(old(users), role)
    {
      var names := set u | u in users && Enumerated(u);
      ghost var users0, cache0 := users, rangePermCache;
      while names != {}
        invariant TakenBut(names, role, users0, users, cache0, rangePermCache)
        decreases names
      {
        var name := AnyOf(names);
        TakeFromUser(name, role);
        names := names - {name};
      }
    }

    /** Rewrite one user, if it has the role. */
    method TakeFromUser(name: Key, role: Key)
      requires name in users
      modifies this`users, this`rangePermCache
      ensures users.Keys == old(users).Keys && users[name] == old(users)[name].(roles := Without(old(users)[name].roles, role))
      ensures forall u :: u in users && u != name ==> users[u] == old(users)[u]
      ensures rangePermCache == old(rangePermCache) - if role in old(users)[name].roles then {name} else {}
    {
      var user := users[name];
      var kept := RemoveName(user.roles, role);
      if |kept| != |user.roles| {
        users := users[name := user.(roles := kept)];
        InvalidateCachedPerm(name);
      } else {
        WithoutNone(user.roles, role);
      }
    }

    method RoleGrantPermission(role: Key, perm: Permission) returns (err: Error, ghost after: seq<Permission>)
      requires Good(Now())
      modifies this
      ensures (err, Now()) == Step(old(Now()), Op.RoleGrantPermission(role, perm, after))
      ensures Possible(old(Now()), Op.RoleGrantPermission(role, perm, after))
    {
      after := [];
      if role !in roles {
        return ErrRoleNotFound, after;
      }
      var ps := roles[role];
      var idx := SearchPerms(ps, perm.key);
      var ps' := ps;
      if idx < |ps| && ps[idx].key == perm.key && ps[idx].rangeEnd == perm.rangeEnd {
        ps' := ps[idx := ps[idx].(permType := perm.permType)];
      } else {
        ps' := AppendPermSorted(ps, perm);
      }
      roles := roles[role := ps'];
      rangePermCache := map[];
      CommitRevision();
      return Ok, ps';
    }

    method RoleRevokePermission(role: Key, key: Key, rangeEnd: Key) returns (err: Error)
      modifies this
      ensures (err, Now()) == Step(old(Now()), Op.RoleRevokePermission(role, key, rangeEnd))
    {
      if role !in roles {
        return ErrRoleNotFound;
      }
      var kept := RemovePerm(roles[role], key, rangeEnd);
      if |roles[role]| == |kept| {
        return ErrPermissionNotGranted;
      }
      roles := roles[role := kept];
      rangePermCache := map[];
      CommitRevision();
      return Ok;
    }

    method AuthEnable() returns (err: Error)
      requires Good(Now())
      modifies this
      ensures (err, Now()) == Step(old(Now()), Op.AuthEnable)
    {
      if enabled {
        return Ok;
      }
      if ROOT_USER !in users {
        return ErrRootUserNotExist;
      }
      var root := HasRootRole(users[ROOT_USER]);
      if !root {
        return ErrRootRoleNotExist;
      }
      enabled, rangePermCache := true, map[];
      return Ok;
    }

    method AuthDisable()
      modifies this
      ensures Now() == Step(old(Now()), Op.AuthDisable).1
    {
      if !enabled {
        return;
      }
      CommitRevision();
      enabled := false;
    }
  }
}
