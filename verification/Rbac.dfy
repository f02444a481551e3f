/**
 Users, roles, permissions and the two relations between them, with the foreign keys and their
 cascades. Ids come from a generator that never repeats one.
 */
module Rbac {

  type Id = nat

  datatype Permission = Permission(name: string, action: string, resource: string)

  datatype Db = Db(
    users: map<Id, string>,          // e-mail address, unique
    roles: map<Id, string>,          // name, unique
    permissions: map<Id, Permission>,  // name unique
    userRoles: set<(Id, Id)>,
    rolePermissions: set<(Id, Id)>,
    nextId: Id)

  const EMPTY := Db(map[], map[], map[], {}, {}, 0)

  /** The EXISTS join that decides a request. */
  predicate Granted(db: Db, user: Id, action: string, resource: string) {
    exists ur, rp :: && ur in db.userRoles && rp in db.rolePermissions && ur.0 == user && ur.1 == rp.0
                     && rp.1 in db.permissions
                     && db.permissions[rp.1].action == action && db.permissions[rp.1].resource == resource
  }

  /** The references the foreign keys guarantee. */
  ghost predicate Integrity(db: Db) {
    && (forall ur :: ur in db.userRoles ==> ur.0 in db.users && ur.1 in db.roles)
    && (forall rp :: rp in db.rolePermissions ==> rp.0 in db.roles && rp.1 in db.permissions)
    && (forall id :: id in db.users || id in db.roles || id in db.permissions ==> id < db.nextId)
  }

  function RolesOf(db: Db, user: Id): set<Id> {
    set ur | ur in db.userRoles && ur.0 == user :: ur.1
  }

  function PermissionsOf(db: Db, role: Id): set<Id> {
    set rp | rp in db.rolePermissions && rp.0 == role :: rp.1
  }

  predicate Distinct(ids: seq<Id>) {
    forall i, j :: 0 <= i < j < |ids| ==> ids[i] != ids[j]
  }

  /** When the INSERTs of a role replacement go through: there are none, or the ids exist and none
      is repeated. */
  predicate CanSetRoles(db: Db, user: Id, ids: seq<Id>) {
    ids == [] || (user in db.users && (forall id :: id in ids ==> id in db.roles) && Distinct(ids))
  }

  function WithRoles(db: Db, user: Id, ids: set<Id>): Db {
    db.(userRoles := (set ur | ur in db.userRoles && ur.0 != user) + (set id | id in ids :: (user, id)))
  }

  /** Repeated permission ids are ignored: ON CONFLICT DO NOTHING. */
  predicate CanAssignPermissions(db: Db, role: Id, ids: seq<Id>) {
    ids == [] || (role in db.roles && forall id :: id in ids ==> id in db.permissions)
  }

  function WithPermissions(db: Db, role: Id, ids: set<Id>): Db {
    db.(rolePermissions := (set rp | rp in db.rolePermissions && rp.0 != role) + (set id | id in ids :: (role, id)))
  }

  function Elements(ids: seq<Id>): set<Id> {
    set id | id in ids
  }

  predicate PermissionNamed(db: Db, name: string) {
    exists p :: p in db.permissions && db.permissions[p].name == name
  }

  function WithPermission(db: Db, p: Permission): Db {
    db.(permissions := db.permissions[db.nextId := p], nextId := db.nextId + 1)
  }

  function WithoutRole(db: Db, role: Id): Db {
    db.(roles := db.roles - {role},
        userRoles := (set ur | ur in db.userRoles && ur.1 != role),
        rolePermissions := (set rp | rp in db.rolePermissions && rp.0 != role))
  }

  function WithoutPermission(db: Db, permission: Id): Db {
    db.(permissions := db.permissions - {permission},
        rolePermissions := (set rp | rp in db.rolePermissions && rp.1 != permission))
  }

  predicate CanAssignRole(db: Db, user: Id, role: Id) {
    (user, role) in db.userRoles || (user in db.users && role in db.roles)
  }

  /** The permissions a seed creates one after the other, skipping names that exist, and their ids. */
  function Created(db: Db, base: seq<Permission>): (Db, seq<Id>) {
    if base == [] then (db, [])
    else
      var n := |base| - 1;
      var (db', ids) := Created(db, base[..n]);
      if PermissionNamed(db', base[n].name) then (db', ids) else (WithPermission(db', base[n]), ids + [db'.nextId])
  }

  function Seeded(db: Db, role: Id, base: seq<Permission>): Db {
    var (db', ids) := Created(db, base);
    if ids != [] && CanAssignPermissions(db', role, ids) then WithPermissions(db', role, Elements(ids)) else db'
  }

  // ---------------------------------------------------------------------------------------
  // The repositories
  // ---------------------------------------------------------------------------------------

  class Repository {
    var db: Db

    constructor ()
      ensures db == EMPTY
    {
      db := EMPTY;
    }

    /** One transaction: delete the user's rows, insert the new ones, commit only if all went well. */
    method SetRoles(user: Id, ids: seq<Id>) returns (ok: bool)
      modifies this
      ensures ok <==> CanSetRoles(old(db), user, ids)
      ensures db == if ok then WithRoles(old(db), user, Elements(ids)) else old(db)
    {
      var tx := db.(userRoles := set ur | ur in db.userRoles && ur.0 != user);
      for i := 0 to |ids|
        invariant tx == WithRoles(db, user, Elements(ids[..i]))
        invariant CanSetRoles(db, user, ids[..i])
      {
        if user !in tx.users || ids[i] !in tx.roles || (user, ids[i]) in tx.userRoles {
          return false;
        }
        tx := tx.(userRoles := tx.userRoles + {(user, ids[i])});
        assert Elements(ids[..i + 1]) == Elements(ids[..i]) + {ids[i]};
      }
      assert ids[..|ids|] == ids;
      db := tx;
      return true;
    }

    method AssignPermissions(role: Id, ids: seq<Id>) returns (ok: bool)
      modifies this
      ensures ok <==> CanAssignPermissions(old(db), role, ids)
      ensures db == if ok then WithPermissions(old(db), role, Elements(ids)) else old(db)
    {
      var tx := db.(rolePermissions := set rp | rp in db.rolePermissions && rp.0 != role);
      for i := 0 to |ids|
        invariant tx == WithPermissions(db, role, Elements(ids[..i]))
        invariant CanAssignPermissions(db, role, ids[..i])
      {
        if (role, ids[i]) !in tx.rolePermissions {
          if role !in tx.roles || ids[i] !in tx.permissions {
            return false;
          }
          tx := tx.(rolePermissions := tx.rolePermissions + {(role, ids[i])});
        }
        assert Elements(ids[..i + 1]) == Elements(ids[..i]) + {ids[i]};
      }
      assert ids[..|ids|] == ids;
      db := tx;
      return true;
    }

    method AssignRole(user: Id, role: Id) returns (ok: bool)
      modifies this
      ensures ok <==> CanAssignRole(old(db), user, role)
      ensures db == if ok then old(db).(userRoles := old(db).userRoles + {(user, role)}) else old(db)
    {
      if (user, role) in db.userRoles {
        return true;
      }
      if user !in db.users || role !in db.roles {
        return false;
      }
      db := db.(userRoles := db.userRoles + {(user, role)});
      return true;
    }

    method RemoveRole(user: Id, role: Id)
      modifies this
      ensures db == old(db).(userRoles := old(db).userRoles - {(user, role)})
    {
      db := db.(userRoles := db.userRoles - {(user, role)});
    }

    method DeleteRole(role: Id)
      modifies this
      ensures db == WithoutRole(old(db), role)
    {
      db := db.(roles := db.roles - {role});
      db := db.(userRoles := set ur | ur in db.userRoles && ur.1 != role);
      db := db.(rolePermissions := set rp | rp in db.rolePermissions && rp.0 != role);
    }

    method DeletePermission(id: Id)
      modifies this
      ensures db == WithoutPermission(old(db), id)
    {
      db := db.(permissions := db.permissions - {id});
      db := db.(rolePermissions := set rp | rp in db.rolePermissions && rp.1 != id);
    }

    method CreatePermission(p: Permission) returns (id: Id, ok: bool)
      modifies this
      ensures ok <==> !PermissionNamed(old(db), p.name)
      ensures id == old(db).nextId && db == if ok then WithPermission(old(db), p) else old(db)
    {
      id, ok := db.nextId, !PermissionNamed(db, p.name);
      if ok {
        db := WithPermission(db, p);
      }
    }

    /** Creates the base permissions that do not exist yet and gives the role exactly the ones it
        has created, if there are any. */
    method SeedPermissions(role: Id, base: seq<Permission>)
      modifies this
      ensures db == Seeded(old(db), role, base)
    {
      var permIDs: seq<Id> := [];
      for i := 0 to |base|
        invariant (db, permIDs) == Created(old(db), base[..i])
      {
        assert base[..i + 1][..i] == base[..i];
        var id, ok := CreatePermission(base[i]);
        if !ok {
          continue;
        }
        permIDs := permIDs + [id];
      }
      assert base[..|base|] == base;
      if |permIDs| > 0 {
        var stored := AssignPermissions(role, permIDs);
      }
    }

    /** At start-up: the administrator account, unless there is one, with the admin role. */
    method SeedDefaultAdmin(email: string)
      modifies this
      ensures email in old(db).users.Values ==> db == old(db)
      ensures email !in old(db).users.Values
              ==> exists role, user :: IsAdminSeeded(old(db), db, email, role, user)
    {
      if email in db.users.Values {
        return;
      }
      ghost var start := db;
      var role := db.nextId;
      if "admin" in db.roles.Values {
        var found :| found in db.roles && db.roles[found] == "admin";
        role := found;
      } else {
        db := db.(roles := db.roles[role := "admin"], nextId := role + 1);
      }
      ghost var seeded := Seeded(db, role, BASE);
      SeedKeepsUsersAndRoles(db, role, BASE);
      SeedPermissions(role, BASE);
      var user := db.nextId;
      db := db.(users := db.users[user := email], nextId := user + 1);
      var stored := AssignRole(user, role);
      assert IsAdminSeeded(start, db, email, role, user);
    }
  }

  const BASE: seq<Permission> := [
    Permission("Admin Access", "manage", "admin"),
    Permission("Create Incident", "create", "incident"),
    Permission("Read Incident", "read", "incident"),
    Permission("Update Incident", "update", "incident"),
    Permission("Delete Incident", "delete", "incident"),
    Permission("Manage Users", "manage", "users"),
    Permission("Manage Roles", "manage", "roles"),
    Permission("Manage Permissions", "manage", "permissions")]

  /** The database with the admin role, found or created as `role`. */
  function WithAdminRole(db: Db, role: Id): Db {
    if "admin" in db.roles.Values then db else db.(roles := db.roles[role := "admin"], nextId := db.nextId + 1)
  }

  /** `db'` is `db` with the role, its permissions and the account seeded. */
  predicate IsAdminSeeded(db: Db, db': Db, email: string, role: Id, user: Id) {
    var withRole := WithAdminRole(db, role);
    var seeded := Seeded(withRole, role, BASE);
    && role in withRole.roles && withRole.roles[role] == "admin"
    && ("admin" in db.roles.Values || role == db.nextId)
    && user == seeded.nextId
    && db' == seeded.(users := seeded.users[user := email], nextId := user + 1,
                      userRoles := seeded.userRoles + {(user, role)})
  }

  lemma {:induction false} CreatedKeepsUsersAndRoles(db: Db, base: seq<Permission>)
    ensures Created(db, base).0.roles == db.roles && Created(db, base).0.users == db.users
  {
    if base != [] {
      CreatedKeepsUsersAndRoles(db, base[..|base| - 1]);
    }
  }

  lemma SeedKeepsUsersAndRoles(db: Db, role: Id, base: seq<Permission>)
    ensures Seeded(db, role, base).roles == db.roles && Seeded(db, role, base).users == db.users
  {
    CreatedKeepsUsersAndRoles(db, base);
  }

  // ---------------------------------------------------------------------------------------
  // Every operation
  // ---------------------------------------------------------------------------------------

  datatype Op =
    | CreateUser(email: string)
    | CreateRole(name: string)
    | CreatePermission(permission: Permission)
    | UpdatePermission(id: Id, permission: Permission)
    | SetRoles(user: Id, ids: seq<Id>)
    | AssignRole(user: Id, role: Id)
    | RemoveRole(user: Id, role: Id)
    | AssignPermissions(role: Id, ids: seq<Id>)
    | DeleteRole(role: Id)
    | DeletePermission(id: Id)

  function Apply(db: Db, op: Op): Db {
    match op
    case CreateUser(email) =>
      if email in db.users.Values then db else db.(users := db.users[db.nextId := email], nextId := db.nextId + 1)
    case CreateRole(name) =>
      if name in db.roles.Values then db else db.(roles := db.roles[db.nextId := name], nextId := db.nextId + 1)
    case CreatePermission(p) => if PermissionNamed(db, p.name) then db else WithPermission(db, p)
    case UpdatePermission(id, p) =>
      if id !in db.permissions || PermissionNamed(db.(permissions := db.permissions - {id}), p.name)
      then db else db.(permissions := db.permissions[id := p])
    case SetRoles(user, ids) => if CanSetRoles(db, user, ids) then WithRoles(db, user, Elements(ids)) else db
    case AssignRole(user, role) =>
      if CanAssignRole(db, user, role) then db.(userRoles := db.userRoles + {(user, role)}) else db
    case RemoveRole(user, role) => db.(userRoles := db.userRoles - {(user, role)})
    case AssignPermissions(role, ids) =>
      if CanAssignPermissions(db, role, ids) then WithPermissions(db, role, Elements(ids)) else db
    case DeleteRole(role) => WithoutRole(db, role)
    case DeletePermission(id) => WithoutPermission(db, id)
  }

  function Exec(ops: seq<Op>): Db {
    if ops == [] then EMPTY else var n := |ops| - 1; Apply(Exec(ops[..n]), ops[n])
  }

  /** Whose decisions an operation may change. */
  predicate Affects(db: Db, op: Op, user: Id) {
    match op
    case SetRoles(u, _) => u == user
    case AssignRole(u, _) => u == user
    case RemoveRole(u, _) => u == user
    case AssignPermissions(role, _) => role in RolesOf(db, user)
    case DeleteRole(role) => role in RolesOf(db, user)
    case DeletePermission(id) => exists role :: role in RolesOf(db, user) && id in PermissionsOf(db, role)
    case UpdatePermission(id, _) => exists role :: role in RolesOf(db, user) && id in PermissionsOf(db, role)
    case _ => false
  }

  lemma {:induction false} IntegrityKept(ops: seq<Op>)
    ensures Integrity(Exec(ops))
  {
    if ops != [] {
      var n := |ops| - 1;
      IntegrityKept(ops[..n]);
      StepKeepsIntegrity(Exec(ops[..n]), ops[n]);
    }
  }

  lemma StepKeepsIntegrity(db: Db, op: Op)
    requires Integrity(db)
    ensures Integrity(Apply(db, op))
  {
  }

  /** The UNIQUE constraints: addresses, role names and permission names occur once. */
  ghost predicate NamesUnique(db: Db) {
    && (forall i, j :: i in db.users && j in db.users && db.users[i] == db.users[j] ==> i == j)
    && (forall i, j :: i in db.roles && j in db.roles && db.roles[i] == db.roles[j] ==> i == j)
    && (forall i, j :: i in db.permissions && j in db.permissions && db.permissions[i].name == db.permissions[j].name
                       ==> i == j)
  }

  lemma StepKeepsNamesUnique(db: Db, op: Op)
    requires Integrity(db) && NamesUnique(db)
    ensures NamesUnique(Apply(db, op))
  {
    var db' := Apply(db, op);
    if op.CreateUser? && op.email !in db.users.Values {
      assert forall i :: i in db.users ==> db.users[i] in db.users.Values;
    }
    if op.CreateRole? && op.name !in db.roles.Values {
      assert forall i :: i in db.roles ==> db.roles[i] in db.roles.Values;
    }
    if op.UpdatePermission? && db' != db {
      assert forall i :: i in db.permissions && i != op.id ==> i in db.permissions - {op.id};
    }
  }

  /** No sequence of operations breaks a UNIQUE constraint. */
  lemma {:induction false} NamesStayUnique(ops: seq<Op>)
    ensures NamesUnique(Exec(ops))
  {
    if ops != [] {
      var n := |ops| - 1;
      NamesStayUnique(ops[..n]);
      IntegrityKept(ops[..n]);
      StepKeepsNamesUnique(Exec(ops[..n]), ops[n]);
    }
  }

  lemma GrantedThrough(db: Db, user: Id, action: string, resource: string)
    ensures Granted(db, user, action, resource)
       <==> exists role, p :: && role in RolesOf(db, user) && p in PermissionsOf(db, role) && p in db.permissions
                              && db.permissions[p].action == action && db.permissions[p].resource == resource
  {
    if Granted(db, user, action, resource) {
      var ur, rp :| && ur in db.userRoles && rp in db.rolePermissions && ur.0 == user && ur.1 == rp.0
                    && rp.1 in db.permissions
                    && db.permissions[rp.1].action == action && db.permissions[rp.1].resource == resource;
      assert ur.1 in RolesOf(db, user) && rp.1 in PermissionsOf(db, ur.1);
    }
    if role, p :| && role in RolesOf(db, user) && p in PermissionsOf(db, role) && p in db.permissions
                  && db.permissions[p].action == action && db.permissions[p].resource == resource
    {
      assert (user, role) in db.userRoles && (role, p) in db.rolePermissions;
    }
  }

  /** The two databases look the same through the user's roles. */
  predicate SameView(db: Db, db': Db, user: Id) {
    && RolesOf(db', user) == RolesOf(db, user)
    && forall role :: role in RolesOf(db, user) ==>
                        && PermissionsOf(db', role) == PermissionsOf(db, role)
                        && forall p :: p in PermissionsOf(db, role)
                                       ==> && p in db.permissions && p in db'.permissions
                                           && db'.permissions[p] == db.permissions[p]
  }

  lemma SameViewSameDecision(db: Db, db': Db, user: Id, action: string, resource: string)
    requires SameView(db, db', user)
    ensures Granted(db', user, action, resource) == Granted(db, user, action, resource)
  {
    GrantedThrough(db, user, action, resource);
    GrantedThrough(db', user, action, resource);
  }

  lemma UnaffectedKeepsView(db: Db, op: Op, user: Id)
    requires Integrity(db) && !Affects(db, op, user)
    ensures SameView(db, Apply(db, op), user)
  {
  }

  /** In every reachable state an operation changes the decisions of affected users only. */
  lemma OnlyAffectedDecisionsChange(ops: seq<Op>, op: Op, user: Id, action: string, resource: string)
    requires !Affects(Exec(ops), op, user)
    ensures Granted(Apply(Exec(ops), op), user, action, resource) == Granted(Exec(ops), user, action, resource)
  {
    IntegrityKept(ops);
    UnaffectedKeepsView(Exec(ops), op, user);
    SameViewSameDecision(Exec(ops), Apply(Exec(ops), op), user, action, resource);
  }

  // ---------------------------------------------------------------------------------------
  // What is read back
  // ---------------------------------------------------------------------------------------

  /** The join of GetRoles, and that of GetPermissions. */
  function GetRoles(db: Db, user: Id): set<Id> {
    set role | role in db.roles && (user, role) in db.userRoles
  }

  function GetPermissions(db: Db, role: Id): set<Id> {
    set p | p in db.permissions && (role, p) in db.rolePermissions
  }

  lemma JoinsReadEverything(db: Db, id: Id)
    requires Integrity(db)
    ensures GetRoles(db, id) == RolesOf(db, id) && GetPermissions(db, id) == PermissionsOf(db, id)
  {
  }

  /** A replacement that succeeds is read back exactly as requested, and nobody else's relation
      changes. */
  lemma ReplacementsReadBack(db: Db, owner: Id, ids: seq<Id>, other: Id)
    ensures CanSetRoles(db, owner, ids) ==> GetRoles(Apply(db, SetRoles(owner, ids)), owner) == Elements(ids)
    ensures CanAssignPermissions(db, owner, ids)
            ==> GetPermissions(Apply(db, AssignPermissions(owner, ids)), owner) == Elements(ids)
    ensures other != owner ==> GetRoles(Apply(db, SetRoles(owner, ids)), other) == GetRoles(db, other)
    ensures other != owner
            ==> GetPermissions(Apply(db, AssignPermissions(owner, ids)), other) == GetPermissions(db, other)
  {
  }

  /** Deleting a role takes away exactly what was granted through it alone. */
  lemma DeletedRoleGrantsNothing(ops: seq<Op>, role: Id, user: Id, action: string, resource: string)
    ensures Granted(Apply(Exec(ops), DeleteRole(role)), user, action, resource)
       <==> exists r, p :: && r in RolesOf(Exec(ops), user) && r != role && p in PermissionsOf(Exec(ops), r)
                           && p in Exec(ops).permissions
                           && Exec(ops).permissions[p].action == action && Exec(ops).permissions[p].resource == resource
  {
    var db, db' := Exec(ops), Apply(Exec(ops), DeleteRole(role));
    GrantedThrough(db', user, action, resource);
    assert RolesOf(db', user) == RolesOf(db, user) - {role};
    assert forall r: Id :: r != role ==> PermissionsOf(db', r) == PermissionsOf(db, r);
  }

  // ---------------------------------------------------------------------------------------
  // The seed
  // ---------------------------------------------------------------------------------------

  predicate SameRight(p: Permission, q: Permission) {
    p.action == q.action && p.resource == q.resource
  }

  /** Names and rights occur once. */
  predicate DistinctBase(base: seq<Permission>) {
    forall i, j :: 0 <= i < j < |base| ==> base[i].name != base[j].name && !SameRight(base[i], base[j])
  }

  /** The role carries a permission for each right in the list. */
  predicate CarriesAll(db: Db, role: Id, base: seq<Permission>) {
    forall k :: 0 <= k < |base| ==> CarriesOne(db, role, base[k])
  }

  predicate CarriesOne(db: Db, role: Id, right: Permission) {
    exists p :: p in PermissionsOf(db, role) && p in db.permissions && SameRight(db.permissions[p], right)
  }

  /** The permission is one of the list and its name was free. */
  predicate NewFrom(db: Db, base: seq<Permission>, p: Permission) {
    p in base && !PermissionNamed(db, p.name)
  }

  /** `db'` adds to `db`, under the given ids, a permission for each entry whose name was free. */
  ghost predicate CreatedFrom(db: Db, base: seq<Permission>, db': Db, ids: seq<Id>) {
    && db' == db.(permissions := db'.permissions, nextId := db'.nextId) && Integrity(db')
    && (forall p :: p in db.permissions ==> p in db'.permissions && db'.permissions[p] == db.permissions[p])
    && (forall p :: p in db'.permissions ==> p in db.permissions || p in ids)
    && (forall id :: id in ids
                     ==> id in db'.permissions && id !in db.permissions && NewFrom(db, base, db'.permissions[id]))
    && (forall p :: NewFrom(db, base, p)
                    ==> exists id :: id in ids && id in db'.permissions && db'.permissions[id] == p)
    && (ids == [] ==> db' == db)
  }

  lemma NameStaysFree(db: Db, base: seq<Permission>, db': Db, ids: seq<Id>, name: string)
    requires CreatedFrom(db, base, db', ids) && forall p :: p in base ==> p.name != name
    ensures PermissionNamed(db', name) == PermissionNamed(db, name)
  {
  }

  lemma CreateOneMore(db: Db, base: seq<Permission>, db': Db, ids: seq<Id>, p: Permission)
    requires CreatedFrom(db, base, db', ids) && !PermissionNamed(db, p.name)
    ensures CreatedFrom(db, base + [p], WithPermission(db', p), ids + [db'.nextId])
  {
    var db'', ids' := WithPermission(db', p), ids + [db'.nextId];
    assert db'.nextId in ids';
    forall q | NewFrom(db, base + [p], q)
      ensures exists id :: id in ids' && id in db''.permissions && db''.permissions[id] == q
    {
      if q == p {
        assert db''.permissions[db'.nextId] == q;
      } else {
        assert NewFrom(db, base, q);
        var id :| id in ids && id in db'.permissions && db'.permissions[id] == q;
        assert id in ids' && db''.permissions[id] == q;
      }
    }
  }

  lemma {:induction false} CreatedExactly(db: Db, base: seq<Permission>)
    requires Integrity(db) && DistinctBase(base)
    ensures CreatedFrom(db, base, Created(db, base).0, Created(db, base).1)
  {
    if base != [] {
      var n := |base| - 1;
      CreatedExactly(db, base[..n]);
      var (db', ids) := Created(db, base[..n]);
      NameStaysFree(db, base[..n], db', ids, base[n].name);
      assert base == base[..n] + [base[n]];
      if !PermissionNamed(db, base[n].name) {
        CreateOneMore(db, base[..n], db', ids, base[n]);
      } else {
        assert forall p :: NewFrom(db, base, p) == NewFrom(db, base[..n], p);
      }
    }
  }

  lemma ReplacedPermissions(db: Db, role: Id, ids: set<Id>)
    ensures PermissionsOf(WithPermissions(db, role, ids), role) == ids
  {
    var db' := WithPermissions(db, role, ids);
    forall id | id in ids
      ensures id in PermissionsOf(db', role)
    {
      assert (role, id) in db'.rolePermissions;
    }
  }

  lemma SeedReplaces(db: Db, role: Id, base: seq<Permission>)
    requires Integrity(db) && role in db.roles && DistinctBase(base) && Created(db, base).1 != []
    ensures var (db', ids) := Created(db, base);
            Seeded(db, role, base) == WithPermissions(db', role, Elements(ids))
            && PermissionsOf(Seeded(db, role, base), role) == Elements(ids)
  {
    CreatedExactly(db, base);
    var (db', ids) := Created(db, base);
    assert db'.roles == db.roles;
    assert CanAssignPermissions(db', role, ids);
    ReplacedPermissions(db', role, Elements(ids));
  }

  lemma AllFreeCarriesAll(db: Db, role: Id, base: seq<Permission>)
    requires Integrity(db) && role in db.roles && DistinctBase(base) && Created(db, base).1 != []
    requires forall p :: p in base ==> !PermissionNamed(db, p.name)
    ensures CarriesAll(Seeded(db, role, base), role, base)
  {
    var (db', ids) := Created(db, base);
    CreatedExactly(db, base);
    SeedReplaces(db, role, base);
    var seeded := Seeded(db, role, base);
    forall k | 0 <= k < |base|
      ensures CarriesOne(seeded, role, base[k])
    {
      assert NewFrom(db, base, base[k]);
      var id :| id in ids && id in db'.permissions && db'.permissions[id] == base[k];
      assert id in PermissionsOf(seeded, role) && SameRight(seeded.permissions[id], base[k]);
    }
  }

  lemma CreatedHasOtherRight(db: Db, base: seq<Permission>, db': Db, ids: seq<Id>, id: Id, k: nat)
    requires CreatedFrom(db, base, db', ids) && DistinctBase(base) && id in ids
    requires k < |base| && PermissionNamed(db, base[k].name)
    ensures !SameRight(db'.permissions[id], base[k])
  {
    var p := db'.permissions[id];
    assert NewFrom(db, base, p);
    var j :| 0 <= j < |base| && base[j] == p;
  }

  /** What the seed assigns, it has created. */
  lemma SeedAssignsCreated(db: Db, role: Id, base: seq<Permission>, id: Id)
    requires Integrity(db) && role in db.roles && DistinctBase(base) && Created(db, base).1 != []
    requires id in PermissionsOf(Seeded(db, role, base), role)
    ensures id in Created(db, base).1 && Seeded(db, role, base).permissions == Created(db, base).0.permissions
  {
    SeedReplaces(db, role, base);
  }

  lemma TakenNameIsMissing(db: Db, role: Id, base: seq<Permission>, k: nat)
    requires Integrity(db) && role in db.roles && DistinctBase(base) && Created(db, base).1 != []
    requires k < |base| && PermissionNamed(db, base[k].name)
    ensures !CarriesOne(Seeded(db, role, base), role, base[k])
  {
    var (db', ids) := Created(db, base);
    var seeded := Seeded(db, role, base);
    CreatedExactly(db, base);
    forall p | p in PermissionsOf(seeded, role) && p in seeded.permissions
      ensures !SameRight(seeded.permissions[p], base[k])
    {
      SeedAssignsCreated(db, role, base, p);
      CreatedHasOtherRight(db, base, db', ids, p, k);
    }
  }

  /** Seeding leaves the role with all base rights exactly if none of the base names was taken, or
      all were and the role had the rights already: a partial seed replaces what the role had. */
  lemma SeedCarriesAllIff(db: Db, role: Id, base: seq<Permission>)
    requires Integrity(db) && role in db.roles && DistinctBase(base)
    ensures CarriesAll(Seeded(db, role, base), role, base)
       <==> || (forall p :: p in base ==> !PermissionNamed(db, p.name))
            || ((forall p :: p in base ==> PermissionNamed(db, p.name)) && CarriesAll(db, role, base))
  {
    var (db', ids) := Created(db, base);
    CreatedExactly(db, base);
    if ids == [] {
      forall p | p in base
        ensures PermissionNamed(db, p.name)
      {
        assert !NewFrom(db, base, p);
      }
    } else {
      assert ids[0] in ids && NewFrom(db, base, db'.permissions[ids[0]]);
      if forall p :: p in base ==> !PermissionNamed(db, p.name) {
        AllFreeCarriesAll(db, role, base);
      } else {
        var taken :| taken in base && PermissionNamed(db, taken.name);
        var k :| 0 <= k < |base| && base[k] == taken;
        TakenNameIsMissing(db, role, base, k);
      }
    }
  }

  /** A reachable database: an admin role that holds one base right and nothing else. */
  const PARTIAL: seq<Op> := [CreateRole("admin"), CreatePermission(BASE[0]), AssignPermissions(0, [1])]

  lemma PartialDatabase()
    ensures Exec(PARTIAL) == Db(map[], map[0 := "admin"], map[1 := BASE[0]], {}, {(0, 1)}, 2)
  {
    assert PARTIAL[..2][..1] == PARTIAL[..1] && PARTIAL[..1][..0] == [];
    var created := Db(map[], map[0 := "admin"], map[], {}, {}, 1);
    assert Exec(PARTIAL[..1]) == created;
    var named := created.(permissions := map[1 := BASE[0]], nextId := 2);
    assert Exec(PARTIAL[..2]) == named;
    assert Exec(PARTIAL) == WithPermissions(named, 0, Elements([1]));
  }

  /** Seeding it takes away the right the role had. */
  lemma PartialSeedLosesRight()
    ensures CarriesAll(Exec(PARTIAL), 0, [BASE[0]]) && !CarriesAll(Seeded(Exec(PARTIAL), 0, BASE), 0, [BASE[0]])
  {
    var db, base := Exec(PARTIAL), BASE;
    PartialDatabase();
    BaseIsDistinct();
    assert (0, 1) in db.rolePermissions && 1 in PermissionsOf(db, 0);
    SomethingCreated(db, base, 1);
    TakenNameIsMissing(db, 0, base, 0);
  }

  lemma SomethingCreated(db: Db, base: seq<Permission>, k: nat)
    requires Integrity(db) && DistinctBase(base) && k < |base| && !PermissionNamed(db, base[k].name)
    ensures Created(db, base).1 != []
  {
    CreatedExactly(db, base);
    assert NewFrom(db, base, base[k]);
  }

  /** Two letters of its name, and the first letters of action and resource, tell the entry. */
  lemma BaseLetters(k: nat)
    requires k < |BASE|
    ensures |BASE[k].name| > 7 && BASE[k].name[0] == "ACRUDMMM"[k] && BASE[k].name[7] == "cIcIIURP"[k]
    ensures BASE[k].action != "" && BASE[k].action[0] == "mcrudmmm"[k]
    ensures BASE[k].resource != "" && BASE[k].resource[0] == "aiiiiurp"[k]
  {
  }

  lemma BaseIsDistinct()
    ensures DistinctBase(BASE)
  {
    forall i, j | 0 <= i < j < |BASE|
      ensures BASE[i].name != BASE[j].name && !SameRight(BASE[i], BASE[j])
    {
      BaseLetters(i);
      BaseLetters(j);
    }
  }

  /** A first start-up on a database without any of the base permissions gives the administrator
      every base right. */
  lemma AdminGetsEverything(db: Db, db': Db, email: string, role: Id, user: Id, k: nat)
    requires Integrity(db) && IsAdminSeeded(db, db', email, role, user) && k < |BASE|
    requires forall p :: p in BASE ==> !PermissionNamed(db, p.name)
    ensures Granted(db', user, BASE[k].action, BASE[k].resource)
  {
    BaseIsDistinct();
    var withRole := WithAdminRole(db, role);
    assert forall p :: p in BASE ==> !PermissionNamed(withRole, p.name);
    SeedCarriesAllIff(withRole, role, BASE);
    var seeded := Seeded(withRole, role, BASE);
    var p :| p in PermissionsOf(seeded, role) && p in seeded.permissions && SameRight(seeded.permissions[p], BASE[k]);
    assert (role, p) in db'.rolePermissions && (user, role) in db'.userRoles;
  }
}
