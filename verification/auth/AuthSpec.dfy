/** Users, roles and the permissions they give, and what each administrative
    operation does to them and to the permission cache. */
module AuthSpec {
  import opened Bytes
  import opened Intervals

  const ROOT_USER: Key := [114, 111, 111, 116]
  const ROOT_ROLE: Key := [114, 111, 111, 116]

  datatype PermType = READ | WRITE | READWRITE

  datatype Permission = Permission(permType: PermType, key: Key, rangeEnd: Key)

  datatype User = User(roles: seq<Key>, password: Key, noPassword: bool)

  datatype Error =
    | Ok | ErrUserEmpty | ErrUserAlreadyExist | ErrUserNotFound | ErrRoleEmpty | ErrRoleAlreadyExist | ErrRoleNotFound
    | ErrRoleNotGranted | ErrPermissionNotGranted | ErrInvalidAuthMgmt | ErrPermissionDenied | ErrAuthOldRevision
    | ErrRootUserNotExist | ErrRootRoleNotExist

  type Users = map<Key, User>
  type Roles = map<Key, seq<Permission>>

  // ---------- Merged permissions ----------

  /** The two trees of a user. */
  datatype Perms = Perms(read: seq<Interval>, write: seq<Interval>)

  const NO_PERMS := Perms([], [])

  /** A range end holding one zero byte leaves the range open above. */
  function OpenEnd(rangeEnd: Key): Key {
    if rangeEnd == [0] then [] else rangeEnd
  }

  function IntervalOf(p: Permission): Interval {
    if |p.rangeEnd| != 0 then Interval(p.key, OpenEnd(p.rangeEnd)) else Point(p.key)
  }

  function AddPerm(perms: Perms, p: Permission): Perms {
    var ivl := IntervalOf(p);
    match p.permType
    case READWRITE => Perms(Insert(perms.read, ivl), Insert(perms.write, ivl))
    case READ => perms.(read := Insert(perms.read, ivl))
    case WRITE => perms.(write := Insert(perms.write, ivl))
  }

  function AddPerms(perms: Perms, ps: seq<Permission>): Perms {
    if |ps| == 0 then perms else AddPerm(AddPerms(perms, ps[..|ps| - 1]), ps[|ps| - 1])
  }

  /** What the roles with these names give; a name without a role gives nothing. */
  function Merged(names: seq<Key>, roles: Roles): Perms {
    if |names| == 0 then NO_PERMS
    else
      var before := Merged(names[..|names| - 1], roles);
      var name := names[|names| - 1];
      if name in roles then AddPerms(before, roles[name]) else before
  }

  // ---------- What a permission means ----------

  predicate Allows(p: Permission, permType: PermType) {
    p.permType == permType || p.permType == READWRITE
  }

  /** The permission reaches the key: its own key only when it has no range end, else
      every key from its own up to the end. */
  predicate Reaches(p: Permission, k: Key) {
    if |p.rangeEnd| == 0 then |k| > 0 && k == p.key
    else |k| > 0 && |p.key| > 0 && AtMost(p.key, k) && (p.rangeEnd == [0] || Less(k, p.rangeEnd))
  }

  /** One of the roles allows access of this type to the key. */
  ghost predicate Granted(names: seq<Key>, roles: Roles, permType: PermType, k: Key) {
    exists n, p :: n in names && n in roles && p in roles[n] && Allows(p, permType) && Reaches(p, k)
  }

  /** The keys of a request: its key, and the rest of its range if it has an end. */
  predicate Requested(key: Key, rangeEnd: Key, k: Key) {
    k == key || (|rangeEnd| > 0 && |k| > 0 && |key| > 0 && AtMost(key, k) && (rangeEnd == [0] || Less(k, rangeEnd)))
  }

  /** The answer a permission check owes: the roles grant every key of the request. */
  ghost predicate MayAccess(names: seq<Key>, roles: Roles, key: Key, rangeEnd: Key, permType: PermType) {
    forall k :: Requested(key, rangeEnd, k) ==> Granted(names, roles, permType, k)
  }

  // ---------- Operations ----------

  /** The store and the cache in front of it. */
  datatype State = State(users: Users, roles: Roles, cache: map<Key, Perms>, enabled: bool, revision: nat)

  /** The users an enumeration of the bucket meets. */
  predicate Enumerated(name: Key) {
    InScan(name, [0], [255])
  }

  function Without(names: seq<Key>, role: Key): (r: seq<Key>)
    ensures forall n :: n in r <==> n in names && n != role
    ensures |r| <= |names| && (|r| == |names| <==> role !in names)
  {
    if |names| == 0 then []
    else
      var before := Without(names[..|names| - 1], role);
      var n := names[|names| - 1];
      if n != role then before + [n] else before
  }

  function WithoutPerm(ps: seq<Permission>, key: Key, rangeEnd: Key): (r: seq<Permission>)
    ensures forall p :: p in r <==> p in ps && !(p.key == key && p.rangeEnd == rangeEnd)
  {
    if |ps| == 0 then []
    else
      var before := WithoutPerm(ps[..|ps| - 1], key, rangeEnd);
      var p := ps[|ps| - 1];
      if p.key != key || p.rangeEnd != rangeEnd then before + [p] else before
  }

  /** Write a user and drop its cache entry. */
  function PutUser(st: State, name: Key, user: User): State {
    st.(users := st.users[name := user], cache := st.cache - {name}, revision := st.revision + 1)
  }

  /** The users after a role is gone: those enumerated lose it. */
  function UsersWithout(users: Users, role: Key): Users {
    map u | u in users :: if Enumerated(u) then users[u].(roles := Without(users[u].roles, role)) else users[u]
  }

  /** The users whose record RoleDelete rewrites. */
  function Rewritten(users: Users, role: Key): set<Key> {
    set u | u in users && Enumerated(u) && role in users[u].roles
  }

  function RoleDeleted(st: State, role: Key): State {
    st.(users := UsersWithout(st.users, role), roles := st.roles - {role},
        cache := st.cache - Rewritten(st.users, role), revision := st.revision + 1)
  }

  /** Write a role and drop the whole cache. */
  function PutRole(st: State, role: Key, ps: seq<Permission>): State {
    st.(roles := st.roles[role := ps], cache := map[], revision := st.revision + 1)
  }

  /** What a check leaves in the cache. */
  function Cached(st: State, user: Key): State {
    if user in st.cache || user !in st.users then st
    else st.(cache := st.cache[user := Merged(st.users[user].roles, st.roles)])
  }

  /** A role name in its place in a sorted list. */
  function InsertName(names: seq<Key>, role: Key): (r: seq<Key>)
    ensures |r| == |names| + 1 && forall n :: n in r <==> n in names || n == role
  {
    if |names| == 0 || Less(names[|names| - 1], role) then names + [role]
    else
      assert names == names[..|names| - 1] + [names[|names| - 1]];
      InsertName(names[..|names| - 1], role) + [names[|names| - 1]]
  }

  predicate KeySorted(ps: seq<Permission>) {
    forall i, j :: 0 <= i <= j < |ps| ==> AtMost(ps[i].key, ps[j].key)
  }

  predicate SameRange(p: Permission, q: Permission) {
    p.key == q.key && p.rangeEnd == q.rangeEnd
  }

  /** Permission `i` is the first whose key is not below `key`. */
  predicate LowerBound(ps: seq<Permission>, key: Key, i: nat) {
    i <= |ps| && (forall j :: 0 <= j < i ==> Less(ps[j].key, key)) && (forall j :: i <= j < |ps| ==> !Less(ps[j].key, key))
  }

  /** A grant changes the first permission with the same key if its range end is the
      same too, else it adds one; where permissions of the same key end up among each
      other is up to the sort. */
  ghost predicate GrantOutcome(ps: seq<Permission>, p: Permission, after: seq<Permission>) {
    exists i: nat :: LowerBound(ps, p.key, i) &&
      if i < |ps| && SameRange(ps[i], p) then after == ps[i := p]
      else KeySorted(after) && multiset(after) == multiset(ps + [p])
  }

  datatype Op =
    | UserAdd(name: Key, password: Key, noPassword: bool)
    | UserDelete(name: Key)
    | UserChangePassword(name: Key, password: Key)
    | UserGrantRole(name: Key, role: Key)
    | UserRevokeRole(name: Key, role: Key)
    | RoleAdd(role: Key)
    | RoleDelete(role: Key)
    | RoleGrantPermission(role: Key, perm: Permission, after: seq<Permission>)
    | RoleRevokePermission(role: Key, key: Key, rangeEnd: Key)
    | AuthEnable
    | AuthDisable
    | Check(name: Key)

  /** The answer and the state after one operation. Passwords are their hashes. */
  function Step(st: State, op: Op): (Error, State) {
    match op
    case UserAdd(name, password, noPassword) =>
      if |name| == 0 then (ErrUserEmpty, st)
      else if name in st.users then (ErrUserAlreadyExist, st)
      else
        var user := User([], if noPassword then [] else password, noPassword);
        (Ok, st.(users := st.users[name := user], revision := st.revision + 1))
    case UserDelete(name) =>
      if st.enabled && name == ROOT_USER then (ErrInvalidAuthMgmt, st)
      else if name !in st.users then (ErrUserNotFound, st)
      else (Ok, st.(users := st.users - {name}, cache := st.cache - {name}, revision := st.revision + 1))
    case UserChangePassword(name, password) =>
      if name !in st.users then (ErrUserNotFound, st)
      else (Ok, PutUser(st, name, st.users[name].(password := password)))
    case UserGrantRole(name, role) =>
      if name !in st.users then (ErrUserNotFound, st)
      else if role != ROOT_ROLE && role !in st.roles then (ErrRoleNotFound, st)
      else if role in st.users[name].roles then (Ok, st)
      else (Ok, PutUser(st, name, st.users[name].(roles := InsertName(st.users[name].roles, role))))
    case UserRevokeRole(name, role) =>
      if st.enabled && name == ROOT_USER && role == ROOT_ROLE then (ErrInvalidAuthMgmt, st)
      else if name !in st.users then (ErrUserNotFound, st)
      else if role !in st.users[name].roles then (ErrRoleNotGranted, st)
      else (Ok, PutUser(st, name, st.users[name].(roles := Without(st.users[name].roles, role))))
    case RoleAdd(role) =>
      if |role| == 0 then (ErrRoleEmpty, st)
      else if role in st.roles then (ErrRoleAlreadyExist, st)
      else (Ok, st.(roles := st.roles[role := []], revision := st.revision + 1))
    case RoleDelete(role) =>
      if st.enabled && role == ROOT_ROLE then (ErrInvalidAuthMgmt, st)
      else if role !in st.roles then (ErrRoleNotFound, st)
      else (Ok, RoleDeleted(st, role))
    case RoleGrantPermission(role, perm, after) =>
      if role !in st.roles then (ErrRoleNotFound, st) else (Ok, PutRole(st, role, after))
    case RoleRevokePermission(role, key, rangeEnd) =>
      if role !in st.roles then (ErrRoleNotFound, st)
      else
        var after := WithoutPerm(st.roles[role], key, rangeEnd);
        if |after| == |st.roles[role]| then (ErrPermissionNotGranted, st) else (Ok, PutRole(st, role, after))
    case AuthEnable =>
      if st.enabled then (Ok, st)
      else if ROOT_USER !in st.users then (ErrRootUserNotExist, st)
      else if ROOT_ROLE !in st.users[ROOT_USER].roles then (ErrRootRoleNotExist, st)
      else (Ok, st.(enabled := true, cache := map[]))
    case AuthDisable =>
      if !st.enabled then (Ok, st) else (Ok, st.(enabled := false, revision := st.revision + 1))
    case Check(name) => (Ok, Cached(st, name))
  }

  // ---------- Invariants ----------

  /** Every cache entry is what would be computed from the store now. */
  ghost predicate Coherent(st: State) {
    forall u :: u in st.cache ==> u in st.users && st.cache[u] == Merged(st.users[u].roles, st.roles)
  }

  /** Role lists are sorted without duplicates, as binary search needs. */
  ghost predicate RolesSorted(st: State) {
    forall u :: u in st.users ==> Ascending(st.users[u].roles)
  }

  /** While authentication is on there is an administrator. */
  ghost predicate Administered(st: State) {
    st.enabled ==> ROOT_USER in st.users && ROOT_ROLE in st.users[ROOT_USER].roles
  }

  /** The permissions of a role are sorted by key. */
  ghost predicate PermsSorted(st: State) {
    forall r :: r in st.roles ==> KeySorted(st.roles[r])
  }

  ghost predicate Good(st: State) {
    Coherent(st) && RolesSorted(st) && PermsSorted(st) && Administered(st)
  }

  /** A cached user that an enumeration misses holds the role, and the role gives
      something. */
  ghost predicate LeavesStale(st: State, role: Key) {
    role in st.roles && |st.roles[role]| > 0 &&
    exists u :: u in st.cache && u in st.users && !Enumerated(u) && role in st.users[u].roles
  }

  /** What the sort did in a grant is one of its outcomes. */
  ghost predicate Possible(st: State, op: Op) {
    op.RoleGrantPermission? && op.role in st.roles ==> GrantOutcome(st.roles[op.role], op.perm, op.after)
  }

  /** The operation finds no enumeration gap. */
  ghost predicate Safe(st: State, op: Op) {
    op.RoleDelete? && Step(st, op).0 == Ok ==> !LeavesStale(st, op.role)
  }

  function Run(st: State, ops: seq<Op>): State {
    if |ops| == 0 then st else Step(Run(st, ops[..|ops| - 1]), ops[|ops| - 1]).1
  }

  /** Every operation of the run is possible and finds no enumeration gap. */
  ghost predicate SafeRun(st: State, ops: seq<Op>) {
    |ops| > 0 ==>
      && SafeRun(st, ops[..|ops| - 1])
      && Possible(Run(st, ops[..|ops| - 1]), ops[|ops| - 1]) && Safe(Run(st, ops[..|ops| - 1]), ops[|ops| - 1])
  }

  const INITIAL := State(map[], map[], map[], false, 1)

  /** All user names are met by an enumeration. */
  ghost predicate NamesEnumerated(st: State) {
    forall u :: u in st.users ==> Enumerated(u)
  }
}
