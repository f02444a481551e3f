/**
 What each administrative operation does to the decisions of RequirePermission, in terms of the
 tables before it: which rows decide afterwards, and when the operation changes nothing.
 */
module RbacDecisions {
  import opened Rbac

  predicate Right(p: Permission, action: string, resource: string) {
    p.action == action && p.resource == resource
  }

  /** Some permission of the role is for this action on this resource. */
  predicate Carries(db: Db, role: Id, action: string, resource: string) {
    exists p :: (role, p) in db.rolePermissions && p in db.permissions && Right(db.permissions[p], action, resource)
  }

  /** The middleware lets a user through exactly if some role of the user carries the right. */
  lemma GrantedIff(db: Db, user: Id, action: string, resource: string)
    ensures Granted(db, user, action, resource)
       <==> exists role :: (user, role) in db.userRoles && Carries(db, role, action, resource)
  {
    GrantedThrough(db, user, action, resource);
    if Granted(db, user, action, resource) {
      var role, p :| && role in RolesOf(db, user) && p in PermissionsOf(db, role) && p in db.permissions
                     && db.permissions[p].action == action && db.permissions[p].resource == resource;
      assert (user, role) in db.userRoles && (role, p) in db.rolePermissions;
      assert Right(db.permissions[p], action, resource) && Carries(db, role, action, resource);
    }
    if role :| (user, role) in db.userRoles && Carries(db, role, action, resource) {
      var p :| (role, p) in db.rolePermissions && p in db.permissions && Right(db.permissions[p], action, resource);
      assert role in RolesOf(db, user) && p in PermissionsOf(db, role);
    }
  }

  lemma SameCarries(db: Db, db': Db, role: Id, action: string, resource: string)
    requires db'.permissions == db.permissions
    requires forall p :: (role, p) in db'.rolePermissions <==> (role, p) in db.rolePermissions
    ensures Carries(db', role, action, resource) == Carries(db, role, action, resource)
  {
  }

  /** When a list of roles can replace a user's roles: the empty list always can, any other one if
      the user and all the roles exist and no role is repeated. */
  predicate Replaceable(db: Db, user: Id, ids: seq<Id>) {
    || |ids| == 0
    || (&& user in db.users && (forall i :: 0 <= i < |ids| ==> ids[i] in db.roles)
        && forall i, j :: 0 <= i < |ids| && 0 <= j < |ids| && ids[i] == ids[j] ==> i == j)
  }

  /** Afterwards exactly the listed roles decide for the user; a list that cannot replace leaves
      everything as it was. */
  lemma RoleReplacementDecides(db: Db, user: Id, ids: seq<Id>, action: string, resource: string)
    ensures Replaceable(db, user, ids)
            ==> (Granted(Apply(db, SetRoles(user, ids)), user, action, resource)
                 <==> exists i :: 0 <= i < |ids| && Carries(db, ids[i], action, resource))
    ensures !Replaceable(db, user, ids) ==> Apply(db, SetRoles(user, ids)) == db
  {
    var db' := Apply(db, SetRoles(user, ids));
    if Replaceable(db, user, ids) {
      assert CanSetRoles(db, user, ids);
      GrantedIff(db', user, action, resource);
      forall role
        ensures (user, role) in db'.userRoles <==> role in ids
        ensures Carries(db', role, action, resource) == Carries(db, role, action, resource)
      {
        SameCarries(db, db', role, action, resource);
      }
    }
  }

  /** A repeated role fails the whole replacement; the rest of the list does not matter. */
  lemma RepeatedRoleFails(db: Db, user: Id, ids: seq<Id>, i: nat, j: nat)
    requires i < j < |ids| && ids[i] == ids[j]
    ensures Apply(db, SetRoles(user, ids)) == db
  {
  }

  /** Afterwards exactly the listed permissions are what the role carries, repeated or not; if one of
      them, or the role, does not exist, everything stays as it was. */
  lemma PermissionReplacementDecides(db: Db, role: Id, ids: seq<Id>, action: string, resource: string)
    ensures |ids| == 0 || (role in db.roles && forall i :: 0 <= i < |ids| ==> ids[i] in db.permissions)
            ==> (Carries(Apply(db, AssignPermissions(role, ids)), role, action, resource)
                 <==> exists i :: 0 <= i < |ids| && ids[i] in db.permissions
                                  && Right(db.permissions[ids[i]], action, resource))
    ensures |ids| != 0 && !(role in db.roles && forall i :: 0 <= i < |ids| ==> ids[i] in db.permissions)
            ==> Apply(db, AssignPermissions(role, ids)) == db
    ensures forall other :: other != role
                            ==> (Carries(Apply(db, AssignPermissions(role, ids)), other, action, resource)
                                 <==> Carries(db, other, action, resource))
  {
    var db' := Apply(db, AssignPermissions(role, ids));
    forall other | other != role
      ensures Carries(db', other, action, resource) == Carries(db, other, action, resource)
    {
      SameCarries(db, db', other, action, resource);
    }
    if |ids| == 0 || (role in db.roles && forall i :: 0 <= i < |ids| ==> ids[i] in db.permissions) {
      assert CanAssignPermissions(db, role, ids);
      assert forall p :: (role, p) in db'.rolePermissions <==> p in ids;
      if i :| 0 <= i < |ids| && Right(db.permissions[ids[i]], action, resource) {
        assert (role, ids[i]) in db'.rolePermissions;
      }
    }
  }

  /** Assigning a role that exists to a user that exists adds what the role carries and no more. */
  lemma AssignedRoleDecides(ops: seq<Op>, user: Id, role: Id, action: string, resource: string)
    ensures var db := Exec(ops);
            Granted(Apply(db, AssignRole(user, role)), user, action, resource)
            <==> || Granted(db, user, action, resource)
                 || (user in db.users && role in db.roles && Carries(db, role, action, resource))
  {
    var db, db' := Exec(ops), Apply(Exec(ops), AssignRole(user, role));
    IntegrityKept(ops);
    GrantedIff(db, user, action, resource);
    GrantedIff(db', user, action, resource);
    forall r
      ensures Carries(db', r, action, resource) == Carries(db, r, action, resource)
    {
      SameCarries(db, db', r, action, resource);
    }
    if user in db.users && role in db.roles {
      assert (user, role) in db'.userRoles;
    }
  }

  /** After a role has been taken from a user exactly the user's other roles decide. */
  lemma RemovedRoleDecides(db: Db, user: Id, role: Id, action: string, resource: string)
    ensures Granted(Apply(db, RemoveRole(user, role)), user, action, resource)
       <==> exists r :: r != role && (user, r) in db.userRoles && Carries(db, r, action, resource)
  {
    var db' := Apply(db, RemoveRole(user, role));
    GrantedIff(db', user, action, resource);
    forall r
      ensures Carries(db', r, action, resource) == Carries(db, r, action, resource)
    {
      SameCarries(db, db', r, action, resource);
    }
  }

  /** A deleted permission is gone and grants nothing: exactly the other permissions decide. */
  lemma DeletedPermissionDecides(db: Db, id: Id, user: Id, action: string, resource: string)
    ensures id !in Apply(db, DeletePermission(id)).permissions
    ensures Granted(Apply(db, DeletePermission(id)), user, action, resource)
       <==> exists role, p :: && p != id && (user, role) in db.userRoles && (role, p) in db.rolePermissions
                              && p in db.permissions && Right(db.permissions[p], action, resource)
  {
    var db' := Apply(db, DeletePermission(id));
    GrantedIff(db', user, action, resource);
    if role, p :| && p != id && (user, role) in db.userRoles && (role, p) in db.rolePermissions
                  && p in db.permissions && Right(db.permissions[p], action, resource)
    {
      assert (role, p) in db'.rolePermissions && Carries(db', role, action, resource);
    }
  }

  /** A permission whose name no other one has is changed in place, and roles carry it as it is now;
      else, or if there is none with this id, everything stays as it was. */
  lemma UpdatedPermissionDecides(db: Db, id: Id, p: Permission, role: Id, action: string, resource: string)
    ensures var db' := Apply(db, UpdatePermission(id, p));
            if id in db.permissions && forall q :: q in db.permissions && q != id ==> db.permissions[q].name != p.name
            then Carries(db', role, action, resource)
                 <==> || ((role, id) in db.rolePermissions && Right(p, action, resource))
                      || (exists q :: q != id && (role, q) in db.rolePermissions && q in db.permissions
                                      && Right(db.permissions[q], action, resource))
            else db' == db
  {
    var db' := Apply(db, UpdatePermission(id, p));
    if id in db.permissions && forall q :: q in db.permissions && q != id ==> db.permissions[q].name != p.name {
      if q :| q != id && (role, q) in db.rolePermissions && q in db.permissions
              && Right(db.permissions[q], action, resource)
      {
        assert q in db'.permissions;
      }
      if (role, id) in db.rolePermissions && Right(p, action, resource) {
        assert id in db'.permissions;
      }
    } else if id in db.permissions {
      var q :| q in db.permissions && q != id && db.permissions[q].name == p.name;
      assert q in db.permissions - {id};
    }
  }

  /** A new user, role or permission gets a row of its own exactly if its name is free. */
  lemma CreatedIff(db: Db, name: string, p: Permission)
    requires Integrity(db)
    ensures var db' := Apply(db, CreateUser(name));
            if exists i :: i in db.users && db.users[i] == name then db' == db
            else db.nextId !in db.users && db' == db.(users := db.users[db.nextId := name], nextId := db.nextId + 1)
    ensures var db' := Apply(db, CreateRole(name));
            if exists i :: i in db.roles && db.roles[i] == name then db' == db
            else db.nextId !in db.roles && db' == db.(roles := db.roles[db.nextId := name], nextId := db.nextId + 1)
    ensures var db' := Apply(db, CreatePermission(p));
            if exists i :: i in db.permissions && db.permissions[i].name == p.name then db' == db
            else && db.nextId !in db.permissions
                 && db' == db.(permissions := db.permissions[db.nextId := p], nextId := db.nextId + 1)
  {
  }

  /** A deleted role is gone, with all its assignments. */
  lemma DeletedRoleIsGone(db: Db, role: Id, user: Id, p: Id)
    ensures var db' := Apply(db, DeleteRole(role));
            role !in db'.roles && (user, role) !in db'.userRoles && (role, p) !in db'.rolePermissions
  {
  }

  /** A first start-up gives the administrator these eight rights. */
  lemma AdminRights(db: Db, db': Db, email: string, role: Id, user: Id, action: string, resource: string)
    requires Integrity(db) && IsAdminSeeded(db, db', email, role, user)
    requires forall p :: p in BASE ==> !PermissionNamed(db, p.name)
    requires || (action == "manage" && resource in {"admin", "users", "roles", "permissions"})
             || (action in {"create", "read", "update", "delete"} && resource == "incident")
    ensures Granted(db', user, action, resource)
  {
    var k := BaseEntry(action, resource);
    AdminGetsEverything(db, db', email, role, user, k);
  }

  lemma BaseEntry(action: string, resource: string) returns (k: nat)
    requires || (action == "manage" && resource in {"admin", "users", "roles", "permissions"})
             || (action in {"create", "read", "update", "delete"} && resource == "incident")
    ensures k < |BASE| && BASE[k].action == action && BASE[k].resource == resource
  {
    if action == "manage" {
      k := if resource == "admin" then 0 else if resource == "users" then 5 else if resource == "roles" then 6 else 7;
    } else {
      k := if action == "create" then 1 else if action == "read" then 2 else if action == "update" then 3 else 4;
    }
  }
}
