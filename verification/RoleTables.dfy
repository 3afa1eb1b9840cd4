/** The tables and the task queue behind role permissions.

    `user_permissions` is a materialised copy of "who holds which role" joined with
    "which permissions a role has", plus permissions granted directly to a user. It is
    maintained by three background tasks. The functions here say what each request and
    each task does to the tables; `RoleConvergence` proves what follows from them and
    `RoleService` is the stateful code they specify. */
module RoleTables {
  import opened Options

  type UserId = nat
  type RoleId = nat
  type PermissionId = nat

  /** One `user_permissions` row; a direct grant has no originating role. */
  datatype Row = Row(user: UserId, permission: PermissionId, fromRole: Option<RoleId>)

  /** The tables that the tasks read when they run. */
  datatype Base = Base(
    users: set<UserId>,
    roles: map<RoleId, set<PermissionId>>,
    held: set<(UserId, RoleId)>)

  datatype Task =
    | Created(user: UserId, role: RoleId)
    | Deleted(user: UserId, role: RoleId)
    | Updated(role: RoleId, added: set<PermissionId>, removed: set<PermissionId>)

  datatype State = State(base: Base, view: set<Row>, queue: seq<Task>)

  /** How a request or a task ends. `Duplicate` is the unique constraint aborting an insert. */
  datatype Outcome =
    | Done
    | RoleMissing
    | UserMissing
    | Duplicate
    | AlreadyHeld
    | NotHeld
    | UnknownPermission

  // ---- what a task inserts and deletes ----

  function GrantRows(b: Base, u: UserId, r: RoleId): set<Row>
    requires r in b.roles
  {
    set p | p in b.roles[r] :: Row(u, p, Some(r))
  }

  function HolderRows(b: Base, r: RoleId, added: set<PermissionId>): set<Row> {
    set h, p | h in b.held && h.1 == r && p in added :: Row(h.0, p, Some(r))
  }

  function InsertRows(view: set<Row>, rows: set<Row>): (set<Row>, Outcome) {
    if rows !! view then (view + rows, Done) else (view, Duplicate)
  }

  function WithoutUserRole(view: set<Row>, u: UserId, r: RoleId): set<Row> {
    set x | x in view && !(x.user == u && x.fromRole == Some(r))
  }

  function WithoutRolePermissions(view: set<Row>, removed: set<PermissionId>, r: RoleId): set<Row> {
    set x | x in view && !(x.permission in removed && x.fromRole == Some(r))
  }

  /** One task against the base tables as they are when it runs. */
  function Execute(b: Base, view: set<Row>, t: Task): (set<Row>, Outcome) {
    if t.role !in b.roles then (view, RoleMissing) else
    match t
    case Created(u, r) =>
      if u !in b.users then (view, UserMissing) else InsertRows(view, GrantRows(b, u, r))
    case Deleted(u, r) =>
      if u !in b.users then (view, UserMissing) else (WithoutUserRole(view, u, r), Done)
    case Updated(r, added, removed) =>
      var (grown, outcome) := InsertRows(view, HolderRows(b, r, added));
      if outcome == Done then (WithoutRolePermissions(grown, removed, r), Done) else (view, Duplicate)
  }

  /** A worker takes the oldest task; one that aborts leaves the view as it was. */
  function Work(s: State): (State, Outcome) {
    if s.queue == [] then (s, Done) else
    var (view, outcome) := Execute(s.base, s.view, s.queue[0]);
    (State(s.base, view, s.queue[1..]), outcome)
  }

  // ---- requests ----

  function AddRole(s: State, u: UserId, r: RoleId, inWorker: bool): (State, Outcome) {
    if u !in s.base.users then (s, UserMissing)
    else if r !in s.base.roles then (s, RoleMissing)
    else if (u, r) in s.base.held then (s, AlreadyHeld)
    else
      var b := s.base.(held := s.base.held + {(u, r)});
      if inWorker then (State(b, s.view, s.queue + [Created(u, r)]), Done)
      else
        var (view, outcome) := InsertRows(s.view, GrantRows(b, u, r));
        (State(b, view, s.queue), outcome)
  }

  /** The first deletion task is sent whatever `inWorker` says. */
  function DeleteRole(s: State, u: UserId, r: RoleId, inWorker: bool): (State, Outcome) {
    if u !in s.base.users then (s, UserMissing)
    else if r !in s.base.roles then (s, RoleMissing)
    else if (u, r) !in s.base.held then (s, NotHeld)
    else
      var b := s.base.(held := s.base.held - {(u, r)});
      if inWorker then (State(b, s.view, s.queue + [Deleted(u, r), Deleted(u, r)]), Done)
      else (State(b, WithoutUserRole(s.view, u, r), s.queue + [Deleted(u, r)]), Done)
  }

  /** `known` is the permission table; an unknown id rejects the whole request. */
  function UpdateRole(s: State, known: set<PermissionId>, r: RoleId, wanted: set<PermissionId>): (State, Outcome) {
    if r !in s.base.roles then (s, RoleMissing)
    else if !(wanted <= known) then (s, UnknownPermission)
    else
      var before := s.base.roles[r];
      (State(s.base.(roles := s.base.roles[r := wanted]), s.view,
             s.queue + [Updated(r, wanted - before, before - wanted)]), Done)
  }

  /** Deleting a role or a user cascades to the rows that refer to it, but not to queued tasks. */
  function DropRole(s: State, r: RoleId): State {
    State(Base(s.base.users, s.base.roles - {r}, set h | h in s.base.held && h.1 != r),
          (set x | x in s.view && x.fromRole != Some(r)), s.queue)
  }

  function DropUser(s: State, u: UserId): State {
    State(Base(s.base.users - {u}, s.base.roles, set h | h in s.base.held && h.0 != u),
          (set x | x in s.view && x.user != u), s.queue)
  }

  /** A new role comes with permissions and no holders. */
  function NewRole(s: State, r: RoleId, permissions: set<PermissionId>): State {
    s.(base := s.base.(roles := s.base.roles[r := permissions]))
  }

  function Elements(ids: seq<PermissionId>): set<PermissionId> {
    set p | p in ids
  }

  // ---- the simple form the view is meant to equal ----

  predicate Wanted(b: Base, x: Row) {
    x.fromRole.Some? && (x.user, x.fromRole.value) in b.held &&
    x.fromRole.value in b.roles && x.permission in b.roles[x.fromRole.value]
  }

  ghost predicate ViewIsJoin(b: Base, view: set<Row>) {
    forall x: Row :: x.fromRole.Some? ==> (x in view <==> Wanted(b, x))
  }

  predicate References(b: Base) {
    forall h :: h in b.held ==> h.0 in b.users && h.1 in b.roles
  }

  function DirectGrants(view: set<Row>): set<Row> {
    set x | x in view && x.fromRole == None
  }
}
