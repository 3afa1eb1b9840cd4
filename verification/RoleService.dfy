/** The stateful code: request handlers and background tasks over one database and queue.
    Every method is specified by the function of the same name in `RoleTables`. */
module RoleService {
  import opened Options
  import opened RoleTables
  import opened Sequences

  class RoleStore {
    var users: set<UserId>
    var permissions: set<PermissionId>
    var roles: map<RoleId, set<PermissionId>>
    var held: set<(UserId, RoleId)>
    var view: set<Row>
    var queue: seq<Task>

    ghost function Abstract(): State
      reads this
    {
      State(Base(users, roles, held), view, queue)
    }

    constructor (users: set<UserId>, permissions: set<PermissionId>)
      ensures Abstract() == State(Base(users, map[], {}), {}, [])
      ensures this.permissions == permissions
    {
      this.users, this.permissions := users, permissions;
      roles, held, view, queue := map[], {}, {}, [];
    }

    // ---- UserPermissionRepository ----

    /** One transaction: either every row is stored or the unique constraint rejects them all, also
        for a row that the list repeats. */
    method CreateMany(rows: seq<Row>) returns (outcome: Outcome)
      modifies this`view
      ensures (view, outcome)
              == if Distinct(rows) then InsertRows(old(view), set x | x in rows) else (old(view), Duplicate)
    {
      var fresh' := set x | x in rows;
      if Distinct(rows) && fresh' !! view {
        view := view + fresh';
        outcome := Done;
      } else {
        outcome := Duplicate;
      }
    }

    method DeleteByUserAndRole(u: UserId, r: RoleId)
      modifies this`view
      ensures view == WithoutUserRole(old(view), u, r)
    {
      view := set x | x in view && !(x.user == u && x.fromRole == Some(r));
    }

    method DeleteByPermissionAndRole(p: PermissionId, r: RoleId)
      modifies this`view
      ensures view == WithoutRolePermissions(old(view), {p}, r)
    {
      view := set x | x in view && !(x.permission == p && x.fromRole == Some(r));
    }

    // ---- UserRolePermissionsService ----

    method AddRolePermissions(u: UserId, r: RoleId) returns (outcome: Outcome)
      requires r in roles
      modifies this`view
      ensures (view, outcome) == InsertRows(old(view), GrantRows(Base(users, roles, held), u, r))
    {
      var rows: seq<Row> := [];
      var rest := roles[r];
      while rest != {}
        invariant rest <= roles[r]
        invariant forall x :: x in rows <==> x.user == u && x.fromRole == Some(r) && x.permission in roles[r] - rest
        invariant Distinct(rows)
        decreases rest
      {
        var p :| p in rest;
        rows, rest := rows + [Row(u, p, Some(r))], rest - {p};
      }
      assert (set x | x in rows) == GrantRows(Base(users, roles, held), u, r);
      outcome := CreateMany(rows);
    }

    // ---- UserRolesService ----

    method AddRole(u: UserId, r: RoleId, inWorker: bool) returns (outcome: Outcome)
      requires u in users && r in roles
      modifies this
      ensures (Abstract(), outcome) == RoleTables.AddRole(old(Abstract()), u, r, inWorker)
      ensures permissions == old(permissions)
    {
      if (u, r) in held {
        return AlreadyHeld;
      }
      held := held + {(u, r)};
      if inWorker {
        queue := queue + [Created(u, r)];
        outcome := Done;
      } else {
        outcome := AddRolePermissions(u, r);
      }
    }

    method DeleteRole(u: UserId, r: RoleId, inWorker: bool) returns (outcome: Outcome)
      requires u in users && r in roles
      modifies this
      ensures (Abstract(), outcome) == RoleTables.DeleteRole(old(Abstract()), u, r, inWorker)
      ensures permissions == old(permissions)
    {
      if (u, r) !in held {
        return NotHeld;
      }
      held := held - {(u, r)};
      queue := queue + [Deleted(u, r)];
      if inWorker {
        queue := queue + [Deleted(u, r)];
        assert queue == old(queue) + [Deleted(u, r), Deleted(u, r)];
      } else {
        DeleteByUserAndRole(u, r);
      }
      outcome := Done;
    }

    // ---- update_role ----

    /** The requested permissions are looked up one by one; the first unknown one rejects the
        request before anything is saved. */
    method UpdateRole(r: RoleId, wanted: seq<PermissionId>) returns (outcome: Outcome)
      requires r in roles
      modifies this
      ensures (Abstract(), outcome)
              == RoleTables.UpdateRole(old(Abstract()), permissions, r, Elements(wanted))
      ensures permissions == old(permissions)
    {
      var chosen: set<PermissionId> := {};
      for i := 0 to |wanted|
        invariant chosen == Elements(wanted[..i])
        invariant chosen <= permissions
      {
        assert wanted[..i + 1] == wanted[..i] + [wanted[i]];
        if wanted[i] !in permissions {
          assert wanted[i] in Elements(wanted);
          return UnknownPermission;
        }
        chosen := chosen + {wanted[i]};
      }
      assert wanted[..|wanted|] == wanted;
      var before := roles[r];
      roles := roles[r := chosen];
      queue := queue + [Updated(r, chosen - before, before - chosen)];
      outcome := Done;
    }

    // ---- the worker ----

    method OnUserRoleCreated(u: UserId, r: RoleId) returns (outcome: Outcome)
      modifies this`view
      ensures (view, outcome) == Execute(Base(users, roles, held), old(view), Created(u, r))
    {
      if r !in roles {
        return RoleMissing;
      }
      if u !in users {
        return UserMissing;
      }
      outcome := AddRolePermissions(u, r);
    }

    method OnUserRoleDeleted(u: UserId, r: RoleId) returns (outcome: Outcome)
      modifies this`view
      ensures (view, outcome) == Execute(Base(users, roles, held), old(view), Deleted(u, r))
    {
      if r !in roles {
        return RoleMissing;
      }
      if u !in users {
        return UserMissing;
      }
      DeleteByUserAndRole(u, r);
      outcome := Done;
    }

    /** Added permissions go to every current holder in one insert, then the removed ones are
        deleted one statement at a time. */
    method OnRoleUpdated(r: RoleId, added: set<PermissionId>, removed: set<PermissionId>) returns (outcome: Outcome)
      modifies this`view
      ensures (view, outcome) == Execute(Base(users, roles, held), old(view), Updated(r, added, removed))
    {
      if r !in roles {
        return RoleMissing;
      }
      var rows: seq<Row> := [];
      var holders := set h | h in held && h.1 == r;
      var left := holders;
      while left != {}
        invariant left <= holders
        invariant forall x :: x in rows <==>
                    x.fromRole == Some(r) && x.permission in added && (x.user, r) in holders - left
        invariant Distinct(rows)
        decreases left
      {
        var h :| h in left;
        var rest, sofar := added, rows;
        while rest != {}
          invariant rest <= added && h in left && sofar <= rows
          invariant forall x :: x in rows <==>
                      x in sofar || (x.fromRole == Some(r) && x.user == h.0 && x.permission in added - rest)
          invariant Distinct(rows)
          decreases rest
        {
          var p :| p in rest;
          rows, rest := rows + [Row(h.0, p, Some(r))], rest - {p};
        }
        left := left - {h};
      }
      var b := Base(users, roles, held);
      assert (set x | x in rows) == HolderRows(b, r, added) by {
        forall x | x in rows ensures x in HolderRows(b, r, added) {
          var h := (x.user, r);
          assert h in held && h.1 == r && x == Row(h.0, x.permission, Some(r));
        }
      }
      outcome := CreateMany(rows);
      if outcome != Done {
        return;
      }
      ghost var grown := view;
      var rest := removed;
      while rest != {}
        invariant rest <= removed
        invariant view == WithoutRolePermissions(grown, removed - rest, r)
        decreases rest
      {
        var p :| p in rest;
        DeleteByPermissionAndRole(p, r);
        rest := rest - {p};
      }
      assert view == WithoutRolePermissions(grown, removed, r);
    }

    /** The worker takes the oldest task. */
    method RunNext() returns (outcome: Outcome)
      modifies this`view, this`queue
      ensures (Abstract(), outcome) == Work(old(Abstract()))
    {
      if queue == [] {
        return Done;
      }
      var t := queue[0];
      queue := queue[1..];
      match t {
        case Created(u, r) => outcome := OnUserRoleCreated(u, r);
        case Deleted(u, r) => outcome := OnUserRoleDeleted(u, r);
        case Updated(r, added, removed) => outcome := OnRoleUpdated(r, added, removed);
      }
    }
  }
}
