/** What the permission cache and the role lists promise. */
module AuthLaws {
  import opened Bytes
  import opened Intervals
  import opened AuthSpec

  // ---------- Merged permissions mean what the roles grant ----------

  lemma PermissionMeans(p: Permission, k: Key)
    ensures Covers(IntervalOf(p), k) <==> Reaches(p, k)
  {
    if |p.rangeEnd| == 0 {
      PointCovers(p.key, k);
    } else {
      CompareAntisymmetric(k, p.key);
    }
  }

  function Tree(perms: Perms, permType: PermType): seq<Interval> {
    if permType == READ then perms.read else perms.write
  }

  lemma {:induction false} AddPermsMeans(perms: Perms, ps: seq<Permission>, permType: PermType, k: Key)
    requires permType != READWRITE && InOrder(Tree(perms, permType))
    ensures var t := Tree(AddPerms(perms, ps), permType);
            && InOrder(t)
            && (Covered(t, k) <==> Covered(Tree(perms, permType), k) || exists p :: p in ps && Allows(p, permType) && Reaches(p, k))
  {
    if |ps| > 0 {
      var n := |ps| - 1;
      var before, p := AddPerms(perms, ps[..n]), ps[n];
      AddPermsMeans(perms, ps[..n], permType, k);
      assert ps == ps[..n] + [p];
      InsertKeepsOrder(Tree(before, permType), IntervalOf(p));
      PermissionMeans(p, k);
      var t, t' := Tree(before, permType), Tree(AddPerms(perms, ps), permType);
      assert t' == if Allows(p, permType) then Insert(t, IntervalOf(p)) else t;
      assert Covered(t', k) <==> Covered(t, k) || (Allows(p, permType) && Reaches(p, k));
    }
  }

  /** The trees are in visiting order and cover exactly the keys the roles grant. */
  lemma {:induction false} MergedMeans(names: seq<Key>, roles: Roles, permType: PermType, k: Key)
    requires permType != READWRITE
    ensures var t := Tree(Merged(names, roles), permType);
            InOrder(t) && (Covered(t, k) <==> Granted(names, roles, permType, k))
  {
    if |names| > 0 {
      var n := |names| - 1;
      MergedMeans(names[..n], roles, permType, k);
      assert names == names[..n] + [names[n]];
      assert Granted(names, roles, permType, k) <==>
        Granted(names[..n], roles, permType, k) ||
        (names[n] in roles && exists p :: p in roles[names[n]] && Allows(p, permType) && Reaches(p, k));
      if names[n] in roles {
        AddPermsMeans(Merged(names[..n], roles), roles[names[n]], permType, k);
      }
    }
  }

  /** A range check of a merged tree answers for every key requested. */
  lemma TreeAnswers(names: seq<Key>, roles: Roles, key: Key, rangeEnd: Key, permType: PermType)
    requires permType != READWRITE
    ensures var t := Tree(Merged(names, roles), permType);
            && InOrder(t)
            && (|rangeEnd| == 0 ==> (Covered(t, key) <==> MayAccess(names, roles, key, rangeEnd, permType)))
            && (|rangeEnd| > 0 ==> ((forall k :: Asked(Interval(key, OpenEnd(rangeEnd)), k) ==> Covered(t, k)) <==>
                                    MayAccess(names, roles, key, rangeEnd, permType)))
  {
    MergedMeans(names, roles, permType, key);
    forall k ensures Covered(Tree(Merged(names, roles), permType), k) <==> Granted(names, roles, permType, k) {
      MergedMeans(names, roles, permType, k);
    }
    if |rangeEnd| > 0 {
      forall k ensures Asked(Interval(key, OpenEnd(rangeEnd)), k) <==> Requested(key, rangeEnd, k) {
        CompareAntisymmetric(k, key);
      }
    } else {
      assert Requested(key, rangeEnd, key);
    }
  }

  // ---------- Lists ----------

  lemma {:induction false} WithoutAscending(names: seq<Key>, role: Key)
    requires Ascending(names)
    ensures Ascending(Without(names, role))
  {
    if |names| > 0 {
      var n := |names| - 1;
      WithoutAscending(names[..n], role);
      var before := Without(names[..n], role);
      forall i | 0 <= i < |before| ensures Less(before[i], names[n]) {
        assert before[i] in names[..n];
      }
    }
  }

  lemma {:induction false} InsertNameAscending(names: seq<Key>, role: Key)
    requires Ascending(names) && role !in names
    ensures Ascending(InsertName(names, role))
  {
    if |names| > 0 {
      var n := |names| - 1;
      if Less(names[n], role) {
        forall i | 0 <= i < n ensures Less(names[i], role) {
          CompareTransitive(names[i], names[n], role);
        }
      } else {
        InsertNameAscending(names[..n], role);
        CompareEqual(names[n], role);
        CompareAntisymmetric(names[n], role);
        var before := InsertName(names[..n], role);
        forall i | 0 <= i < |before| ensures Less(before[i], names[n]) {
          assert before[i] in before;
          assert before[i] in names[..n] || before[i] == role;
        }
      }
    }
  }

  lemma KeySortedAppend(ps: seq<Permission>, p: Permission)
    requires KeySorted(ps) && forall q :: q in ps ==> AtMost(q.key, p.key)
    ensures KeySorted(ps + [p])
  {
    CompareEqual(p.key, p.key);
    forall i | 0 <= i < |ps| ensures AtMost(ps[i].key, p.key) {
      assert ps[i] in ps;
    }
  }

  lemma {:induction false} WithoutPermSorted(ps: seq<Permission>, key: Key, rangeEnd: Key)
    requires KeySorted(ps)
    ensures KeySorted(WithoutPerm(ps, key, rangeEnd))
  {
    if |ps| > 0 {
      var n := |ps| - 1;
      WithoutPermSorted(ps[..n], key, rangeEnd);
      var before := WithoutPerm(ps[..n], key, rangeEnd);
      forall q | q in before ensures AtMost(q.key, ps[n].key) {
        assert q in ps[..n];
      }
      KeySortedAppend(before, ps[n]);
    }
  }

  lemma OutcomeSorted(ps: seq<Permission>, p: Permission, after: seq<Permission>)
    requires KeySorted(ps) && GrantOutcome(ps, p, after)
    ensures KeySorted(after)
  {
  }

  // ---------- Merged permissions and changes of the store ----------

  /** Only the roles named matter, and a role without permissions is like none. */
  lemma {:induction false} MergedSame(names: seq<Key>, a: Roles, b: Roles)
    requires forall n :: n in names ==>
               (if n in a then a[n] else []) == (if n in b then b[n] else [])
    ensures Merged(names, a) == Merged(names, b)
  {
    if |names| > 0 {
      var n := |names| - 1;
      MergedSame(names[..n], a, b);
      assert names[n] in names;
      var before := Merged(names[..n], a);
      assert AddPerms(before, []) == before;
    }
  }

  function Size(perms: Perms): nat {
    |perms.read| + |perms.write|
  }

  /** How many intervals the permissions add. */
  function Weight(ps: seq<Permission>): nat {
    if |ps| == 0 then 0 else Weight(ps[..|ps| - 1]) + if ps[|ps| - 1].permType == READWRITE then 2 else 1
  }

  lemma {:induction false} AddPermsGrows(perms: Perms, ps: seq<Permission>)
    ensures Size(AddPerms(perms, ps)) == Size(perms) + Weight(ps)
    ensures |ps| > 0 ==> Weight(ps) > 0
  {
    if |ps| > 0 {
      AddPermsGrows(perms, ps[..|ps| - 1]);
    }
  }

  /** Taking a role that gives something away from the roles changes what is merged
      for a user that holds it. */
  lemma {:induction false} MergedShrinks(names: seq<Key>, roles: Roles, role: Key)
    requires role in roles
    ensures Size(Merged(names, roles - {role})) <= Size(Merged(names, roles))
    ensures role in names && |roles[role]| > 0 ==> Size(Merged(names, roles - {role})) < Size(Merged(names, roles))
  {
    if |names| > 0 {
      var n := |names| - 1;
      MergedShrinks(names[..n], roles, role);
      assert names == names[..n] + [names[n]];
      if names[n] in roles {
        AddPermsGrows(Merged(names[..n], roles), roles[names[n]]);
        AddPermsGrows(Merged(names[..n], roles - {role}), roles[names[n]]);
      }
    }
  }

  // ---------- The cache ----------

  /** Deleting a role leaves a correct cache if and only if no cached user that the
      enumeration misses holds the role, or the role gave nothing. */
  lemma RoleDeleteCoherent(st: State, role: Key)
    requires Coherent(st) && role in st.roles
    ensures Coherent(RoleDeleted(st, role)) <==> !LeavesStale(st, role)
  {
    var after := RoleDeleted(st, role);
    forall u | u in after.cache
      ensures u in after.users
      ensures after.cache[u] == Merged(after.users[u].roles, after.roles) <==>
                !(|st.roles[role]| > 0 && !Enumerated(u) && role in st.users[u].roles)
    {
      CachedAfterDelete(st, role, u);
    }
  }

  lemma CachedAfterDelete(st: State, role: Key, u: Key)
    requires Coherent(st) && role in st.roles && u in RoleDeleted(st, role).cache
    ensures u in st.users && u in RoleDeleted(st, role).users
    ensures var after := RoleDeleted(st, role);
            after.cache[u] == Merged(after.users[u].roles, after.roles) <==>
              !(|st.roles[role]| > 0 && !Enumerated(u) && role in st.users[u].roles)
  {
    var names := st.users[u].roles;
    MergedShrinks(names, st.roles, role);
    if role !in names {
      WithoutNone(names, role);
      MergedSame(names, st.roles, st.roles - {role});
    } else if |st.roles[role]| == 0 {
      MergedSame(names, st.roles, st.roles - {role});
    }
  }

  lemma {:induction false} WithoutNone(names: seq<Key>, role: Key)
    requires role !in names
    ensures Without(names, role) == names
  {
    if |names| > 0 {
      WithoutNone(names[..|names| - 1], role);
      assert names[|names| - 1] in names;
    }
  }

  /** One operation keeps the cache right, the lists sorted and the administrator. */
  lemma StepIsGood(st: State, op: Op)
    requires Good(st) && Possible(st, op) && Safe(st, op)
    ensures Good(Step(st, op).1)
  {
    StepKeepsRolesSorted(st, op);
    StepKeepsPermsSorted(st, op);
    StepKeepsAdministrator(st, op);
    StepKeepsCache(st, op);
  }

  lemma StepKeepsRolesSorted(st: State, op: Op)
    requires RolesSorted(st)
    ensures RolesSorted(Step(st, op).1)
  {
    match op
    case UserGrantRole(name, role) =>
      if name in st.users && role !in st.users[name].roles {
        InsertNameAscending(st.users[name].roles, role);
      }
    case UserRevokeRole(name, role) =>
      if name in st.users {
        WithoutAscending(st.users[name].roles, role);
      }
    case RoleDelete(role) =>
      forall u | u in st.users ensures Ascending(UsersWithout(st.users, role)[u].roles) {
        WithoutAscending(st.users[u].roles, role);
      }
    case _ =>
  }

  lemma StepKeepsPermsSorted(st: State, op: Op)
    requires PermsSorted(st) && Possible(st, op)
    ensures PermsSorted(Step(st, op).1)
  {
    match op
    case RoleGrantPermission(role, perm, after) =>
      if role in st.roles {
        OutcomeSorted(st.roles[role], perm, after);
      }
    case RoleRevokePermission(role, key, rangeEnd) =>
      if role in st.roles {
        WithoutPermSorted(st.roles[role], key, rangeEnd);
      }
    case _ =>
  }

  /** Authentication cannot be left on without a root user holding the root role. */
  lemma StepKeepsAdministrator(st: State, op: Op)
    requires Administered(st)
    ensures Administered(Step(st, op).1)
  {
  }

  lemma StepKeepsCache(st: State, op: Op)
    requires Good(st) && Safe(st, op)
    ensures Coherent(Step(st, op).1)
  {
    match op
    case RoleAdd(role) =>
      forall u | u in st.cache && role !in st.roles ensures Merged(st.users[u].roles, st.roles[role := []]) == Merged(st.users[u].roles, st.roles) {
        MergedSame(st.users[u].roles, st.roles[role := []], st.roles);
      }
    case RoleDelete(role) =>
      if role in st.roles {
        RoleDeleteCoherent(st, role);
      }
    case _ =>
  }

  /** Over any run that finds no enumeration gap, every cache entry equals the merged
      permissions recomputed from the store. */
  lemma {:induction false} RunIsGood(st: State, ops: seq<Op>)
    requires Good(st) && SafeRun(st, ops)
    ensures Good(Run(st, ops))
  {
    if |ops| > 0 {
      RunIsGood(st, ops[..|ops| - 1]);
      StepIsGood(Run(st, ops[..|ops| - 1]), ops[|ops| - 1]);
    }
  }

  /** A run whose user names an enumeration meets finds no gap. */
  lemma {:induction false} EnumeratedNamesAreSafe(ops: seq<Op>)
    requires forall op :: op in ops && op.UserAdd? ==> Enumerated(op.name)
    requires forall i :: 0 <= i < |ops| ==> Possible(Run(INITIAL, ops[..i]), ops[i])
    ensures SafeRun(INITIAL, ops) && NamesEnumerated(Run(INITIAL, ops))
  {
    if |ops| > 0 {
      var n := |ops| - 1;
      forall i | 0 <= i < n ensures Possible(Run(INITIAL, ops[..n][..i]), ops[..n][i]) {
        assert ops[..n][..i] == ops[..i];
      }
      EnumeratedNamesAreSafe(ops[..n]);
      assert ops[n] in ops;
      NamesStayEnumerated(Run(INITIAL, ops[..n]), ops[n]);
    }
  }

  lemma NamesStayEnumerated(st: State, op: Op)
    requires NamesEnumerated(st) && (op.UserAdd? ==> Enumerated(op.name))
    ensures NamesEnumerated(Step(st, op).1) && Safe(st, op)
  {
  }

  /** The operations of the run all succeed. */
  ghost predicate Succeeds(st: State, ops: seq<Op>) {
    |ops| > 0 ==>
      && Succeeds(st, ops[..|ops| - 1]) && Possible(Run(st, ops[..|ops| - 1]), ops[|ops| - 1])
      && Step(Run(st, ops[..|ops| - 1]), ops[|ops| - 1]).0 == Ok
  }

  lemma SucceedsNext(st: State, ops: seq<Op>, op: Op)
    requires Succeeds(st, ops) && Possible(Run(st, ops), op) && Step(Run(st, ops), op).0 == Ok
    ensures Succeeds(st, ops + [op]) && Run(st, ops + [op]) == Step(Run(st, ops), op).1
  {
    assert (ops + [op])[..|ops|] == ops;
  }

  const GAP_USER: Key := [255]
  const GAP_ROLE: Key := [1]
  const GAP_KEY: Key := [7]
  const GAP_PERM := Permission(WRITE, GAP_KEY, [])

  /** One user, its name above the enumeration, holding one role with one permission. */
  function GapState(cache: map<Key, Perms>): State {
    State(map[GAP_USER := User([GAP_ROLE], [], false)], map[GAP_ROLE := [GAP_PERM]], cache, false, 5)
  }

  lemma GapSetup() returns (ops: seq<Op>)
    ensures Succeeds(INITIAL, ops) && Run(INITIAL, ops) == GapState(map[])
  {
    ops := [];
    SucceedsNext(INITIAL, ops, RoleAdd(GAP_ROLE));
    ops := ops + [RoleAdd(GAP_ROLE)];
    assert LowerBound([], GAP_KEY, 0) && [] + [GAP_PERM] == [GAP_PERM];
    SucceedsNext(INITIAL, ops, RoleGrantPermission(GAP_ROLE, GAP_PERM, [GAP_PERM]));
    ops := ops + [RoleGrantPermission(GAP_ROLE, GAP_PERM, [GAP_PERM])];
    assert Run(INITIAL, ops) == State(map[], map[GAP_ROLE := [GAP_PERM]], map[], false, 3);
    SucceedsNext(INITIAL, ops, UserAdd(GAP_USER, [], false));
    ops := ops + [UserAdd(GAP_USER, [], false)];
    assert Run(INITIAL, ops).users == map[GAP_USER := User([], [], false)];
    assert InsertName([], GAP_ROLE) == [GAP_ROLE];
    SucceedsNext(INITIAL, ops, UserGrantRole(GAP_USER, GAP_ROLE));
    ops := ops + [UserGrantRole(GAP_USER, GAP_ROLE)];
    var end := Run(INITIAL, ops);
    assert end.cache == map[] && end.revision == 5 && !end.enabled;
    assert end.roles == map[GAP_ROLE := [GAP_PERM]];
    assert end.users == map[GAP_USER := User([GAP_ROLE], [], false)];
  }

  /** The gap: a user whose name starts with 0xff keeps a deleted role's permission in
      its cache entry, for a key nothing grants any more. */
  lemma RoleDeleteCanLeaveStale() returns (ops: seq<Op>, user: Key, key: Key)
    ensures Succeeds(INITIAL, ops)
    ensures var end := Run(INITIAL, ops);
            && user in end.cache && user in end.users && Covered(end.cache[user].write, key)
            && !Granted(end.users[user].roles, end.roles, WRITE, key)
  {
    user, key := GAP_USER, GAP_KEY;
    ops := GapSetup();
    SucceedsNext(INITIAL, ops, Check(user));
    ops := ops + [Check(user)];
    SucceedsNext(INITIAL, ops, RoleDelete(GAP_ROLE));
    ops := ops + [RoleDelete(GAP_ROLE)];
    var st := GapState(map[]);
    assert !Enumerated(user);
    assert Run(INITIAL, ops).cache[user] == Merged([GAP_ROLE], st.roles);
    MergedMeans([GAP_ROLE], st.roles, WRITE, key);
    assert Reaches(GAP_PERM, key) && GAP_PERM in st.roles[GAP_ROLE] && GAP_ROLE in [GAP_ROLE];
  }

  // ---------- Tokens ----------

  lemma StepRevision(st: State, op: Op)
    ensures var end := Step(st, op).1;
            end.revision >= st.revision && (end.revision == st.revision ==> end.users == st.users && end.roles == st.roles)
  {
  }

  /** The revision never falls, and while it stays the users and roles stay: a token
      that passes the revision check was issued against the same users and roles. */
  lemma {:induction false} RevisionGuards(st: State, ops: seq<Op>)
    ensures var end := Run(st, ops);
            end.revision >= st.revision && (end.revision == st.revision ==> end.users == st.users && end.roles == st.roles)
  {
    if |ops| > 0 {
      RevisionGuards(st, ops[..|ops| - 1]);
      StepRevision(Run(st, ops[..|ops| - 1]), ops[|ops| - 1]);
    }
  }

  // ---------- Grants ----------

  /** After a grant every permission on the range has the granted type, if and only if
      the only one there with another type, if any, was the first on its key. */
  lemma GrantReplaces(ps: seq<Permission>, p: Permission, after: seq<Permission>)
    requires KeySorted(ps) && GrantOutcome(ps, p, after)
    ensures (forall q :: q in after && SameRange(q, p) ==> q.permType == p.permType) <==>
            (forall j :: 0 <= j < |ps| && SameRange(ps[j], p) && ps[j].permType != p.permType ==>
              forall h :: 0 <= h < j ==> ps[h].key != p.key)
  {
    var i: nat :| LowerBound(ps, p.key, i) &&
      if i < |ps| && SameRange(ps[i], p) then after == ps[i := p]
      else KeySorted(after) && multiset(after) == multiset(ps + [p]);
    FirstOnKey(ps, p.key, i);
    if i < |ps| && SameRange(ps[i], p) {
      assert forall j :: 0 <= j < |ps| && j != i ==> after[j] == ps[j];
    } else {
      assert forall q :: q in after <==> q in multiset(after);
      assert forall q :: q in ps + [p] <==> q in multiset(ps + [p]);
    }
  }

  /** The lower bound is the first permission on the key, if there is one. */
  lemma FirstOnKey(ps: seq<Permission>, key: Key, i: nat)
    requires KeySorted(ps) && LowerBound(ps, key, i)
    ensures forall j :: 0 <= j < |ps| && ps[j].key == key ==> i <= j && ps[i].key == key
  {
    CompareEqual(key, key);
    forall j | 0 <= j < |ps| && ps[j].key == key ensures i <= j && ps[i].key == key {
      CompareAntisymmetric(ps[i].key, key);
      CompareEqual(ps[i].key, key);
    }
  }

  /** A second permission on a key cannot be lowered: granting READ on [1, 3) leaves
      READWRITE there, because [1, 2) comes first. */
  lemma GrantCanLeaveMore(after: seq<Permission>)
    requires GrantOutcome([Permission(READ, [1], [2]), Permission(READWRITE, [1], [3])], Permission(READ, [1], [3]), after)
    ensures Permission(READWRITE, [1], [3]) in after
  {
    var ps, p := [Permission(READ, [1], [2]), Permission(READWRITE, [1], [3])], Permission(READ, [1], [3]);
    GrantReplaces(ps, p, after);
    assert ps[1] in multiset(ps + [p]);
  }

  // ---------- What the operations are for ----------

  predicate HoldsRole(st: State, user: Key, role: Key) {
    user in st.users && role in st.users[user].roles
  }

  predicate RoleGives(st: State, role: Key, p: Permission) {
    role in st.roles && p in st.roles[role]
  }

  /** The operation takes the role from the user: it is revoked, the user is deleted, or the
      role is, and the enumeration meets the user. */
  predicate Takes(op: Op, user: Key, role: Key) {
    op == UserRevokeRole(user, role) || op == UserDelete(user) || (op == RoleDelete(role) && Enumerated(user))
  }

  /** When an operation succeeds; one that does not changes nothing. */
  lemma StepSucceeds(st: State, op: Op)
    ensures Step(st, op).0 != Ok ==> Step(st, op).1 == st
    ensures Step(st, op).0 == Ok <==>
              match op
              case UserAdd(name, _, _) => name != [] && name !in st.users
              case UserDelete(name) => name in st.users && !(st.enabled && name == ROOT_USER)
              case UserChangePassword(name, _) => name in st.users
              case UserGrantRole(name, role) => name in st.users && (role == ROOT_ROLE || role in st.roles)
              case UserRevokeRole(name, role) => HoldsRole(st, name, role) && !(st.enabled && name == ROOT_USER && role == ROOT_ROLE)
              case RoleAdd(role) => role != [] && role !in st.roles
              case RoleDelete(role) => role in st.roles && !(st.enabled && role == ROOT_ROLE)
              case RoleGrantPermission(role, _, _) => role in st.roles
              case RoleRevokePermission(role, key, end) => exists p :: RoleGives(st, role, p) && p.key == key && p.rangeEnd == end
              case AuthEnable => st.enabled || HoldsRole(st, ROOT_USER, ROOT_ROLE)
              case _ => true
  {
    if op.RoleRevokePermission? && op.role in st.roles {
      WithoutPermSize(st.roles[op.role], op.key, op.rangeEnd);
    }
  }

  lemma {:induction false} WithoutPermSize(ps: seq<Permission>, key: Key, rangeEnd: Key)
    ensures |WithoutPerm(ps, key, rangeEnd)| <= |ps|
    ensures |WithoutPerm(ps, key, rangeEnd)| == |ps| <==> forall p :: p in ps ==> p.key != key || p.rangeEnd != rangeEnd
  {
    if |ps| > 0 {
      var n := |ps| - 1;
      WithoutPermSize(ps[..n], key, rangeEnd);
      assert ps == ps[..n] + [ps[n]];
    }
  }

  /** A successful operation changes which users exist, their passwords, and who holds which
      role, as it says and no further. */
  lemma StepChangesUsers(st: State, op: Op, user: Key, role: Key)
    requires Step(st, op).0 == Ok
    ensures var st' := Step(st, op).1;
            && (user in st'.users <==> (op.UserAdd? && op.name == user) || (user in st.users && op != UserDelete(user)))
            && (user in st'.users ==>
                 st'.users[user].password ==
                   if op.UserAdd? && op.name == user then (if op.noPassword then [] else op.password)
                   else if op.UserChangePassword? && op.name == user then op.password
                   else st.users[user].password)
            && (HoldsRole(st', user, role) <==> op == UserGrantRole(user, role) || (HoldsRole(st, user, role) && !Takes(op, user, role)))
  {
  }

  /** And which roles exist and what they give. A grant puts its permission in; any other it
      may only replace on the same range. */
  lemma StepChangesRoles(st: State, op: Op, role: Key, p: Permission)
    requires Step(st, op).0 == Ok && Possible(st, op)
    ensures var st' := Step(st, op).1;
            && (role in st'.roles <==> op == RoleAdd(role) || (role in st.roles && op != RoleDelete(role)))
            && (st'.enabled <==> op.AuthEnable? || (st.enabled && !op.AuthDisable?))
            && if op.RoleGrantPermission? && op.role == role then
                 && RoleGives(st', role, op.perm)
                 && (RoleGives(st', role, p) ==> p == op.perm || RoleGives(st, role, p))
                 && (RoleGives(st, role, p) && !SameRange(p, op.perm) ==> RoleGives(st', role, p))
               else if op.RoleRevokePermission? && op.role == role then
                 RoleGives(st', role, p) <==> RoleGives(st, role, p) && !(p.key == op.key && p.rangeEnd == op.rangeEnd)
               else
                 RoleGives(st', role, p) <==> RoleGives(st, role, p) && op != RoleDelete(role)
  {
    if op.RoleGrantPermission? && op.role == role {
      OutcomeMembers(st.roles[role], op.perm, op.after, p);
    }
  }

  lemma OutcomeMembers(ps: seq<Permission>, granted: Permission, after: seq<Permission>, p: Permission)
    requires GrantOutcome(ps, granted, after)
    ensures granted in after
    ensures p in after ==> p == granted || p in ps
    ensures p in ps && !SameRange(p, granted) ==> p in after
  {
    var i: nat :| LowerBound(ps, granted.key, i) &&
      if i < |ps| && SameRange(ps[i], granted) then after == ps[i := granted]
      else KeySorted(after) && multiset(after) == multiset(ps + [granted]);
    if i < |ps| && SameRange(ps[i], granted) {
      assert after[i] == granted;
      if p in ps && !SameRange(p, granted) {
        var j :| 0 <= j < |ps| && ps[j] == p;
        assert after[j] == p;
      }
    } else {
      assert p in after <==> p in multiset(after);
      assert granted in after <==> granted in multiset(after);
      assert p in ps + [granted] <==> p in multiset(ps + [granted]);
      assert (ps + [granted])[|ps|] == granted;
      assert granted in multiset(ps + [granted]);
    }
  }

  /** Operation `i` of the run succeeds. */
  predicate Succeeded(ops: seq<Op>, i: nat)
    requires i < |ops|
  {
    Step(Run(INITIAL, ops[..i]), ops[i]).0 == Ok
  }

  /** Operation `j` does not take the role away. */
  predicate LeavesRole(ops: seq<Op>, user: Key, role: Key, j: nat)
    requires j < |ops|
  {
    Succeeded(ops, j) ==> !Takes(ops[j], user, role)
  }

  /** Operation `i` granted the role, and none after it took it away. */
  ghost predicate GrantedSince(ops: seq<Op>, user: Key, role: Key, i: nat)
    requires i < |ops|
  {
    && ops[i] == UserGrantRole(user, role) && Succeeded(ops, i)
    && forall j: nat {:trigger LeavesRole(ops, user, role, j)} :: i < j < |ops| ==> LeavesRole(ops, user, role, j)
  }

  ghost predicate StillGranted(ops: seq<Op>, user: Key, role: Key) {
    exists i: nat {:trigger GrantedSince(ops, user, role, i)} :: i < |ops| && GrantedSince(ops, user, role, i)
  }

  /** After any run from the empty store a user holds a role if and only if it was granted
      and since then not taken away. */
  lemma {:induction false} RolesHeldMean(ops: seq<Op>, user: Key, role: Key)
    ensures HoldsRole(Run(INITIAL, ops), user, role) <==> StillGranted(ops, user, role)
  {
    if |ops| > 0 {
      var n := |ops| - 1;
      RolesHeldMean(ops[..n], user, role);
      var st := Run(INITIAL, ops[..n]);
      StepSucceeds(st, ops[n]);
      if Step(st, ops[n]).0 == Ok {
        StepChangesUsers(st, ops[n], user, role);
      }
      assert ops == ops[..n] + [ops[n]];
      GrantNext(ops[..n], ops[n], user, role);
    }
  }

  lemma GrantNext(before: seq<Op>, op: Op, user: Key, role: Key)
    ensures var ops := before + [op];
            StillGranted(ops, user, role) <==>
              || (Succeeded(ops, |before|) && op == UserGrantRole(user, role))
              || (StillGranted(before, user, role) && LeavesRole(ops, user, role, |before|))
  {
    var ops := before + [op];
    if StillGranted(ops, user, role) {
      var i: nat :| i < |ops| && GrantedSince(ops, user, role, i);
      if i < |before| {
        GrantedBefore(before, op, user, role, i);
      }
    }
    if Succeeded(ops, |before|) && op == UserGrantRole(user, role) {
      assert GrantedSince(ops, user, role, |before|);
    }
    if StillGranted(before, user, role) && LeavesRole(ops, user, role, |before|) {
      var i: nat :| i < |before| && GrantedSince(before, user, role, i);
      GrantedBefore(before, op, user, role, i);
      assert GrantedSince(ops, user, role, i);
    }
  }

  lemma SucceededBefore(before: seq<Op>, op: Op, user: Key, role: Key, j: nat)
    requires j < |before|
    ensures Succeeded(before, j) <==> Succeeded(before + [op], j)
    ensures LeavesRole(before, user, role, j) <==> LeavesRole(before + [op], user, role, j)
  {
    assert (before + [op])[..j] == before[..j];
  }

  lemma GrantedBefore(before: seq<Op>, op: Op, user: Key, role: Key, i: nat)
    requires i < |before|
    ensures var ops := before + [op];
            GrantedSince(ops, user, role, i) <==> GrantedSince(before, user, role, i) && LeavesRole(ops, user, role, |before|)
  {
    var ops := before + [op];
    SucceededBefore(before, op, user, role, i);
    if GrantedSince(ops, user, role, i) {
      forall j: nat | i < j < |before| ensures LeavesRole(before, user, role, j) {
        SucceededBefore(before, op, user, role, j);
        assert LeavesRole(ops, user, role, j);
      }
      assert LeavesRole(ops, user, role, |before|);
    }
    if GrantedSince(before, user, role, i) && LeavesRole(ops, user, role, |before|) {
      forall j: nat | i < j < |ops| ensures LeavesRole(ops, user, role, j) {
        if j < |before| {
          SucceededBefore(before, op, user, role, j);
          assert LeavesRole(before, user, role, j);
        }
      }
    }
  }
}
