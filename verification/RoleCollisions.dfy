/** When a task's insert meets the unique constraint, and what that costs.

    `add_role` and an `update_role` that adds permissions, both outstanding for one role, may
    insert the same row twice: the second task aborts. `AddMeets` and `UpdateMeets` are the guards
    that rule this out; `RoleAborts` shows that they are exact. */
module RoleCollisions {
  import opened Options
  import opened RoleTables
  import opened RoleConvergence

  // ---- what a caller can look up before a request ----

  /** Would the task insert the row, whatever the base tables say when it runs? */
  predicate Opens(t: Task, x: Row) {
    x.fromRole == Some(t.role) &&
    match t
    case Created(u, _) => u == x.user
    case Updated(_, added, _) => x.permission in added
    case Deleted(_, _) => false
  }

  /** A queued update grants the row's permission, and no later task deletes the row. */
  predicate GrantedForGood(q: seq<Task>, x: Row) {
    exists i :: 0 <= i < |q| && q[i].Updated? && Opens(q[i], x) && !HasKill(q[i + 1..], x)
  }

  /** The queue gives the row's user the role, and no later task deletes the row. */
  predicate CreatedForGood(q: seq<Task>, x: Row) {
    exists i :: 0 <= i < |q| && q[i].Created? && Opens(q[i], x) && !HasKill(q[i + 1..], x)
  }

  /** The row is there, and no queued task deletes it. */
  predicate Stays(q: seq<Task>, x: Row, present: bool) {
    present && !HasKill(q, x)
  }

  /** Before `add_role`: a queued update grants the new holder a permission for good. */
  ghost predicate AddMeets(s: State, u: UserId, r: RoleId) {
    exists p :: GrantedForGood(s.queue, Row(u, p, Some(r)))
  }

  /** Before `update_role`: the queue gives a holder, for good, a permission that the update adds. */
  ghost predicate UpdateMeets(s: State, r: RoleId, added: set<PermissionId>) {
    exists h, p :: h in s.base.held && h.1 == r && p in added && CreatedForGood(s.queue, Row(h.0, p, Some(r)))
  }

  /** The request is one that neither condition rules out. */
  ghost predicate Guarded(s: State, a: Action) {
    match a
    case Add(u, r) => AddRole(s, u, r, true).1 == Done ==> !AddMeets(s, u, r)
    case Update(known, r, wanted) =>
      UpdateRole(s, known, r, wanted).1 == Done ==> !UpdateMeets(s, r, wanted - s.base.roles[r])
    case _ => true
  }

  ghost predicate GuardedRun(s: State, actions: seq<Action>)
    decreases |actions|
  {
    actions == [] || (Guarded(s, actions[0]) && GuardedRun(Step(s, actions[0]).0, actions[1..]))
  }

  // ---- one row through the queue, whatever the base tables say ----

  /** No task that opens the row finds it there, even if every such task did insert it. */
  predicate NeverTwice(q: seq<Task>, x: Row, present: bool) {
    q == []
    || ((Opens(q[0], x) ==> !present) && NeverTwice(q[1..], x, !Kills(q[0], x) && (Opens(q[0], x) || present)))
  }

  /** Is the row left there, if every task that opens it does insert it? */
  predicate Left(q: seq<Task>, x: Row, present: bool) {
    if q == [] then present else Left(q[1..], x, !Kills(q[0], x) && (Opens(q[0], x) || present))
  }

  lemma {:induction false} LessIsNeverTwice(q: seq<Task>, x: Row, v: bool, w: bool)
    requires NeverTwice(q, x, v) && (w ==> v)
    ensures NeverTwice(q, x, w)
  {
    if q == [] {
    } else {
      var t := q[0];
      LessIsNeverTwice(q[1..], x, !Kills(t, x) && (Opens(t, x) || v), !Kills(t, x) && (Opens(t, x) || w));
    }
  }

  lemma {:induction false} NeverTwiceAppend(q: seq<Task>, t: Task, x: Row, present: bool)
    requires NeverTwice(q, x, present) && (Opens(t, x) ==> !Left(q, x, present))
    ensures NeverTwice(q + [t], x, present)
  {
    if q == [] {
      assert (q + [t])[1..] == [];
    } else {
      assert (q + [t])[1..] == q[1..] + [t];
      NeverTwiceAppend(q[1..], t, x, !Kills(q[0], x) && (Opens(q[0], x) || present));
    }
  }

  lemma {:induction false} NothingOpened(q: seq<Task>, x: Row)
    requires forall t :: t in q ==> !Opens(t, x)
    ensures NeverTwice(q, x, false)
  {
    if q == [] {
    } else {
      NothingOpened(q[1..], x);
    }
  }

  lemma KillRest(q: seq<Task>, x: Row)
    requires q != []
    ensures HasKill(q, x) <==> Kills(q[0], x) || HasKill(q[1..], x)
  {
    if i :| 0 <= i < |q| && Kills(q[i], x) {
      if i > 0 {
        assert q[1..][i - 1] == q[i];
      }
    }
    if i :| 0 <= i < |q[1..]| && Kills(q[1..][i], x) {
      assert q[i + 1] == q[1..][i];
    }
  }

  /** A row is left only if it stays or was opened for good. */
  lemma {:induction false} LeftMeans(q: seq<Task>, x: Row, present: bool)
    requires forall t :: t in q ==> Disjoint(t)
    ensures Left(q, x, present) ==> Stays(q, x, present) || GrantedForGood(q, x) || CreatedForGood(q, x)
  {
    if q == [] {
    } else {
      var t, rest := q[0], q[1..];
      KillRest(q, x);
      LeftMeans(rest, x, !Kills(t, x) && (Opens(t, x) || present));
      assert q[0 + 1..] == rest;
      if i :| 0 <= i < |rest| && rest[i].Updated? && Opens(rest[i], x) && !HasKill(rest[i + 1..], x) {
        assert q[i + 1] == rest[i] && q[i + 1 + 1..] == rest[i + 1..];
      }
      if i :| 0 <= i < |rest| && rest[i].Created? && Opens(rest[i], x) && !HasKill(rest[i + 1..], x) {
        assert q[i + 1] == rest[i] && q[i + 1 + 1..] == rest[i + 1..];
      }
    }
  }

  // ---- the invariant ----

  /** Converging, and no row is inserted twice by what is queued. */
  ghost predicate Fine(s: State) {
    Converging(s) && forall x: Row :: Alive(s.base, x) ==> NeverTwice(s.queue, x, x in s.view)
  }

  /** A task hits the unique constraint exactly when it inserts a row that is there. */
  lemma DuplicateIff(b: Base, view: set<Row>, t: Task)
    requires References(b)
    ensures Execute(b, view, t).1 == Duplicate <==> exists x: Row :: Inserts(b, t, x) && x in view
  {
    forall x: Row | Inserts(b, t, x)
      ensures t.Created? ==> x in GrantRows(b, t.user, t.role)
      ensures t.Updated? ==> x in HolderRows(b, t.role, t.added)
    {
      if t.Updated? {
        var h := (x.user, t.role);
        assert h in b.held && x == Row(h.0, x.permission, Some(t.role));
      }
    }
    if Execute(b, view, t).1 == Duplicate {
      var rows := if t.Created? then GrantRows(b, t.user, t.role) else HolderRows(b, t.role, t.added);
      var x :| x in rows && x in view;
      assert Inserts(b, t, x);
    }
  }

  lemma FineNoAbort(s: State)
    requires Fine(s)
    ensures Work(s).1 != Duplicate
  {
    if s.queue != [] {
      DuplicateIff(s.base, s.view, s.queue[0]);
    }
  }

  lemma WorkFine(s: State)
    requires Fine(s)
    ensures Fine(Work(s).0)
  {
    FineNoAbort(s);
    WorkConverges(s);
    if s.queue != [] {
      var s', t := Work(s).0, s.queue[0];
      forall x: Row | Alive(s'.base, x) ensures NeverTwice(s'.queue, x, x in s'.view) {
        ExecuteIsEffect(s.base, s.view, t, x);
        LessIsNeverTwice(s'.queue, x, !Kills(t, x) && (Opens(t, x) || x in s.view), x in s'.view);
      }
    }
  }

  /** An outdated task that opens a row never opens it for good. */
  lemma OutdatedIsKilled(s: State, x: Row)
    requires Converging(s) && Alive(s.base, x)
    ensures (x.user, x.fromRole.value) !in s.base.held ==> !CreatedForGood(s.queue, x)
    ensures x.permission !in s.base.roles[x.fromRole.value] ==> !GrantedForGood(s.queue, x)
  {
    assert Answered(s.base, s.queue, x);
  }

  lemma {:induction false} StaysThrough(b: Base, q: seq<Task>, x: Row, present: bool)
    requires Stays(q, x, present)
    ensures After(b, q, x, present)
  {
    if q == [] {
    } else {
      KillRest(q, x);
      StaysThrough(b, q[1..], x, Effect(b, q[0], x, present));
    }
  }

  /** A row that is not wanted does not stay. */
  lemma UnwantedDoesNotStay(s: State, x: Row)
    requires Converging(s) && x.fromRole.Some? && !Wanted(s.base, x)
    ensures !Stays(s.queue, x, x in s.view)
  {
    if Stays(s.queue, x, x in s.view) {
      StaysThrough(s.base, s.queue, x, x in s.view);
    }
  }

  lemma AddFine(s: State, u: UserId, r: RoleId)
    requires Fine(s) && Guarded(s, Add(u, r))
    ensures Fine(AddRole(s, u, r, true).0)
  {
    AddConverges(s, u, r);
    var (s', outcome) := AddRole(s, u, r, true);
    if outcome == Done {
      forall x: Row | Alive(s'.base, x) ensures NeverTwice(s'.queue, x, x in s'.view) {
        if x.user == u && x.fromRole == Some(r) {
          assert x == Row(u, x.permission, Some(r));
          OutdatedIsKilled(s, x);
          UnwantedDoesNotStay(s, x);
          LeftMeans(s.queue, x, x in s.view);
        }
        NeverTwiceAppend(s.queue, Created(u, r), x, x in s.view);
      }
    }
  }

  lemma RemoveFine(s: State, u: UserId, r: RoleId)
    requires Fine(s)
    ensures Fine(DeleteRole(s, u, r, true).0)
  {
    RemoveConverges(s, u, r);
    var (s', outcome) := DeleteRole(s, u, r, true);
    if outcome == Done {
      var t := Deleted(u, r);
      assert s'.queue == s.queue + [t] + [t];
      forall x: Row | Alive(s'.base, x) ensures NeverTwice(s'.queue, x, x in s'.view) {
        NeverTwiceAppend(s.queue, t, x, x in s.view);
        NeverTwiceAppend(s.queue + [t], t, x, x in s.view);
      }
    }
  }

  lemma UpdateFine(s: State, known: set<PermissionId>, r: RoleId, wanted: set<PermissionId>)
    requires Fine(s) && Guarded(s, Update(known, r, wanted))
    ensures Fine(UpdateRole(s, known, r, wanted).0)
  {
    UpdateConverges(s, known, r, wanted);
    var (s', outcome) := UpdateRole(s, known, r, wanted);
    if outcome == Done {
      var t := Updated(r, wanted - s.base.roles[r], s.base.roles[r] - wanted);
      assert s'.queue == s.queue + [t];
      forall x: Row | Alive(s'.base, x) ensures NeverTwice(s'.queue, x, x in s'.view) {
        if Opens(t, x) {
          var h := (x.user, r);
          assert x == Row(h.0, x.permission, Some(r));
          OutdatedIsKilled(s, x);
          UnwantedDoesNotStay(s, x);
          LeftMeans(s.queue, x, x in s.view);
        }
        NeverTwiceAppend(s.queue, t, x, x in s.view);
      }
    }
  }

  lemma CascadeFine(s: State, a: Action)
    requires Fine(s) && (a.LoseRole? || a.LoseUser? || a.CreateRole?)
    ensures Fine(Step(s, a).0)
  {
    StepConverges(s, a);
    var s' := Step(s, a).0;
    forall x: Row | Alive(s'.base, x) ensures NeverTwice(s'.queue, x, x in s'.view) {
      if Alive(s.base, x) {
        LessIsNeverTwice(s.queue, x, x in s.view, x in s'.view);
      } else {
        NothingOpened(s.queue, x);
      }
    }
  }

  lemma StepFine(s: State, a: Action)
    requires Fine(s) && Guarded(s, a)
    ensures Fine(Step(s, a).0) && Step(s, a).1 != Duplicate
  {
    match a
    case Add(u, r) => AddFine(s, u, r);
    case Remove(u, r) => RemoveFine(s, u, r);
    case Update(known, r, wanted) => UpdateFine(s, known, r, wanted);
    case RunTask =>
      FineNoAbort(s);
      WorkFine(s);
    case _ => CascadeFine(s, a);
  }

  /** A run whose requests all pass the guards never aborts, and so converges, with no assumption
      about aborts. */
  lemma {:induction false} GuardedRunsNeverAbort(s: State, actions: seq<Action>)
    requires Fine(s) && GuardedRun(s, actions)
    ensures NoAbort(s, actions) && Fine(Run(s, actions))
    ensures Run(s, actions).queue == [] ==> ViewIsJoin(Run(s, actions).base, Run(s, actions).view)
    decreases |actions|
  {
    if actions == [] {
      ViewConverges(s, []);
    } else {
      StepFine(s, actions[0]);
      GuardedRunsNeverAbort(Step(s, actions[0]).0, actions[1..]);
    }
  }

  lemma SettledFine(s: State)
    requires Settled(s)
    ensures Fine(s)
  {
  }

  // ---- a simpler discipline ----

  predicate Grants(t: Task, r: RoleId) {
    t.Updated? && t.role == r && t.added != {}
  }

  predicate PendingGrant(q: seq<Task>, r: RoleId) {
    exists t :: t in q && Grants(t, r)
  }

  predicate PendingCreated(q: seq<Task>, r: RoleId) {
    exists t :: t in q && t.Created? && t.role == r
  }

  /** An addition to a role's holders and an addition to its permissions are never outstanding
      together. */
  predicate Calm(s: State, a: Action) {
    match a
    case Add(_, r) => !PendingGrant(s.queue, r)
    case Update(_, r, wanted) => r in s.base.roles && !(wanted <= s.base.roles[r]) ==> !PendingCreated(s.queue, r)
    case _ => true
  }

  predicate CalmRun(s: State, actions: seq<Action>)
    decreases |actions|
  {
    actions == [] || (Calm(s, actions[0]) && CalmRun(Step(s, actions[0]).0, actions[1..]))
  }

  lemma CalmIsGuarded(s: State, a: Action)
    requires Calm(s, a)
    ensures Guarded(s, a)
  {
    if a.Add? && AddMeets(s, a.u, a.r) {
      var p :| GrantedForGood(s.queue, Row(a.u, p, Some(a.r)));
      var i :| 0 <= i < |s.queue| && s.queue[i].Updated? && Opens(s.queue[i], Row(a.u, p, Some(a.r)));
      assert Grants(s.queue[i], a.r);
    }
  }

  /** Kept apart, the two kinds of addition never collide. */
  lemma {:induction false} CalmRunsNeverAbort(s: State, actions: seq<Action>)
    requires Fine(s) && CalmRun(s, actions)
    ensures GuardedRun(s, actions)
    ensures NoAbort(s, actions) && Fine(Run(s, actions))
    ensures Run(s, actions).queue == [] ==> ViewIsJoin(Run(s, actions).base, Run(s, actions).view)
    decreases |actions|
  {
    if actions == [] {
    } else {
      CalmIsGuarded(s, actions[0]);
      StepFine(s, actions[0]);
      CalmRunsNeverAbort(Step(s, actions[0]).0, actions[1..]);
    }
    GuardedRunsNeverAbort(s, actions);
  }

  lemma EmptyDifference(a: set<PermissionId>, b: set<PermissionId>)
    ensures a - b == {} <==> a <= b
  {
    assert forall p :: p in a - b <==> p in a && p !in b;
  }

  // ---- one operation at a time ----

  function Drain(s: State): State
    decreases |s.queue|
  {
    if s.queue == [] then s else Drain(Work(s).0)
  }

  predicate DrainAborts(s: State)
    decreases |s.queue|
  {
    s.queue != [] && (Work(s).1 == Duplicate || DrainAborts(Work(s).0))
  }

  lemma {:induction false} FineDrains(s: State)
    requires Fine(s)
    ensures Settled(Drain(s)) && Drain(s).base == s.base && !DrainAborts(s)
    decreases |s.queue|
  {
    if s.queue == [] {
      ViewConverges(s, []);
    } else {
      FineNoAbort(s);
      WorkFine(s);
      FineDrains(Work(s).0);
    }
  }

  /** An operation issued on a settled store, worker or inline, then drained, settles again:
      no insert meets the constraint. */
  lemma DrainedOperationsSettle(s: State, a: Action)
    requires Settled(s)
    ensures Step(s, a).1 != Duplicate && !DrainAborts(Step(s, a).0) && Settled(Drain(Step(s, a).0))
    ensures a.Add? ==> AddRole(s, a.u, a.r, false).1 != Duplicate && Settled(AddRole(s, a.u, a.r, false).0)
    ensures a.Remove? ==> Settled(Drain(DeleteRole(s, a.u, a.r, false).0))
  {
    SettledFine(s);
    CalmIsGuarded(s, a);
    StepFine(s, a);
    FineDrains(Step(s, a).0);
    if a.Add? {
      InlineAddSettles(s, a.u, a.r);
    }
    if a.Remove? && DeleteRole(s, a.u, a.r, false).1 == Done {
      var s' := DeleteRole(s, a.u, a.r, false).0;
      RepeatedDeletionChangesNothing(s'.base, s.view, Deleted(a.u, a.r));
      assert Drain(s') == Work(s').0;
    }
  }

  lemma InlineAddSettles(s: State, u: UserId, r: RoleId)
    requires Settled(s)
    ensures AddRole(s, u, r, false).1 != Duplicate && Settled(AddRole(s, u, r, false).0)
  {
    if u in s.base.users && r in s.base.roles && (u, r) !in s.base.held {
      var rows := GrantRows(s.base.(held := s.base.held + {(u, r)}), u, r);
      assert forall x :: x in rows ==> x.fromRole.Some? && !Wanted(s.base, x);
      assert rows !! s.view;
    }
  }

  /** Why sending the deletion task twice is harmless. */
  lemma RepeatedDeletionChangesNothing(b: Base, view: set<Row>, t: Task)
    requires t.Deleted?
    ensures var once := Execute(b, view, t); Execute(b, once.0, t) == once
  {
    var once := WithoutUserRole(view, t.user, t.role);
    assert WithoutUserRole(once, t.user, t.role) == once;
  }

  lemma DirectGrantsUntouched(s: State, a: Action)
    requires !a.LoseUser?
    ensures DirectGrants(Step(s, a).0.view) == DirectGrants(s.view)
  {
    if a.RunTask? && s.queue != [] {
      var t := s.queue[0];
      if t.Updated? && t.role in s.base.roles {
        assert DirectGrants(HolderRows(s.base, t.role, t.added)) == {};
      }
    }
  }

  /** No role operation or task, aborted or not, touches a permission granted directly. */
  lemma {:induction false} RunsKeepDirectGrants(s: State, actions: seq<Action>)
    requires forall a :: a in actions ==> !a.LoseUser?
    ensures DirectGrants(Run(s, actions).view) == DirectGrants(s.view)
    decreases |actions|
  {
    if actions == [] {
    } else {
      DirectGrantsUntouched(s, actions[0]);
      RunsKeepDirectGrants(Step(s, actions[0]).0, actions[1..]);
    }
  }

  lemma DrainTwo(s: State)
    requires |s.queue| == 2
    ensures Drain(s) == Work(Work(s).0).0
    ensures DrainAborts(s) <==> Work(s).1 == Duplicate || Work(Work(s).0).1 == Duplicate
  {
    var s1 := Work(s).0;
    var s2 := Work(s1).0;
    assert Drain(s2) == s2 && !DrainAborts(s2);
    assert Drain(s1) == s2;
  }

  // ---- the two overlaps that do collide, from any settled store ----

  predicate OtherHolder(b: Base, r: RoleId) {
    exists h :: h in b.held && h.1 == r
  }

  ghost predicate CanAddAndUpdate(s: State, u: UserId, known: set<PermissionId>, r: RoleId, wanted: set<PermissionId>) {
    Settled(s) && u in s.base.users && r in s.base.roles && (u, r) !in s.base.held && wanted <= known
  }

  function AddThenUpdate(s: State, u: UserId, known: set<PermissionId>, r: RoleId, wanted: set<PermissionId>): State {
    UpdateRole(AddRole(s, u, r, true).0, known, r, wanted).0
  }

  function UpdateThenAdd(s: State, u: UserId, known: set<PermissionId>, r: RoleId, wanted: set<PermissionId>): State {
    AddRole(UpdateRole(s, known, r, wanted).0, u, r, true).0
  }

  /** Adding a holder, then updating the role before the first task ran: the update task aborts
      exactly when it adds a permission, and the view is then wrong exactly when the role had a
      holder already. */
  lemma AddThenUpdateCollides(s: State, u: UserId, known: set<PermissionId>, r: RoleId, wanted: set<PermissionId>)
    requires CanAddAndUpdate(s, u, known, r, wanted)
    ensures var q := AddThenUpdate(s, u, known, r, wanted);
            && (DrainAborts(q) <==> !(wanted <= s.base.roles[r]))
            && (ViewIsJoin(Drain(q).base, Drain(q).view)
                <==> wanted <= s.base.roles[r] || !OtherHolder(s.base, r))
  {
    var b, q := s.base, AddThenUpdate(s, u, known, r, wanted);
    var created, updated := Created(u, r), Updated(r, wanted - b.roles[r], b.roles[r] - wanted);
    assert q.queue == [created, updated];
    var rows := GrantRows(q.base, u, r);
    assert forall x :: x in rows ==> x.fromRole.Some? && !Wanted(b, x);
    assert rows !! s.view;
    var s1, s2 := Work(q).0, Work(Work(q).0).0;
    assert s1.queue == [updated] && s1.view == s.view + rows;
    DrainTwo(q);
    EmptyDifference(wanted, b.roles[r]);
    if wanted <= b.roles[r] {
      assert HolderRows(q.base, r, updated.added) == {};
      assert Work(s1).1 == Done;
      assert wanted == b.roles[r] - updated.removed;
      forall x: Row | x.fromRole.Some? ensures x in s2.view <==> Wanted(q.base, x) {
        ExecuteRowByRow(s, q, x, rows);
      }
    } else {
      var p :| p in updated.added;
      var h := (u, r);
      assert h in q.base.held && Row(h.0, p, Some(r)) in HolderRows(q.base, r, updated.added);
      assert Row(u, p, Some(r)) in s1.view;
      assert s2.view == s1.view;
      if OtherHolder(b, r) {
        var h :| h in b.held && h.1 == r;
        var x := Row(h.0, p, Some(r));
        assert x !in s2.view && Wanted(q.base, x);
      } else {
        assert forall x: Row :: x.fromRole.Some? ==> (x in s2.view <==> Wanted(q.base, x));
      }
    }
  }

  lemma ExecuteRowByRow(s: State, q: State, x: Row, rows: set<Row>)
    requires Settled(s) && References(q.base) && |q.queue| == 2 && q.queue[1].Updated?
    requires q.queue[1].role in s.base.roles && q.queue[1].added == {}
    requires var r := q.queue[1].role; q.base.roles == s.base.roles[r := s.base.roles[r] - q.queue[1].removed]
    requires q.queue[0].Created? && q.queue[0].role == q.queue[1].role
    requires q.base.held == s.base.held + {(q.queue[0].user, q.queue[0].role)}
    requires rows == GrantRows(q.base, q.queue[0].user, q.queue[0].role)
    requires x.fromRole.Some?
    ensures x in WithoutRolePermissions(s.view + rows, q.queue[1].removed, q.queue[1].role) <==> Wanted(q.base, x)
  {
  }

  /** The other order: the update task now grants the new holder the added permissions, the
      second task aborts exactly when there are any, and the view is then right only if the
      update kept none of the old permissions. */
  lemma UpdateThenAddCollides(s: State, u: UserId, known: set<PermissionId>, r: RoleId, wanted: set<PermissionId>)
    requires CanAddAndUpdate(s, u, known, r, wanted)
    ensures var q := UpdateThenAdd(s, u, known, r, wanted);
            && (DrainAborts(q) <==> !(wanted <= s.base.roles[r]))
            && (ViewIsJoin(Drain(q).base, Drain(q).view)
                <==> wanted <= s.base.roles[r] || wanted !! s.base.roles[r])
  {
    var b, q := s.base, UpdateThenAdd(s, u, known, r, wanted);
    var created, updated := Created(u, r), Updated(r, wanted - b.roles[r], b.roles[r] - wanted);
    assert q.queue == [updated, created];
    var rows := HolderRows(q.base, r, updated.added);
    assert forall x :: x in rows ==> x.fromRole.Some? && !Wanted(b, x);
    assert rows !! s.view;
    var s1, s2 := Work(q).0, Work(Work(q).0).0;
    assert s1.queue == [created] && s1.view == WithoutRolePermissions(s.view + rows, updated.removed, r);
    DrainTwo(q);
    EmptyDifference(wanted, b.roles[r]);
    FirstTaskOfUpdateThenAdd(s, u, r, wanted, q.base);
    var granted := GrantRows(q.base, u, r);
    if wanted <= b.roles[r] {
      assert granted !! s1.view;
      assert ViewIsJoin(q.base, s1.view + granted);
    } else {
      var p :| p in updated.added;
      assert Row(u, p, Some(r)) in granted && Row(u, p, Some(r)) in s1.view;
      assert s2.view == s1.view;
      if wanted !! b.roles[r] {
        assert updated.added == wanted;
        assert ViewIsJoin(q.base, s2.view);
      } else {
        var k :| k in wanted && k in b.roles[r];
        assert Row(u, k, Some(r)) !in s2.view && Wanted(q.base, Row(u, k, Some(r)));
      }
    }
  }

  /** The update task serves every holder but the new one fully, and gives that one only the
      added permissions. */
  lemma FirstTaskOfUpdateThenAdd(s: State, u: UserId, r: RoleId, wanted: set<PermissionId>, c: Base)
    requires Settled(s) && r in s.base.roles && u in s.base.users && (u, r) !in s.base.held
    requires c == Base(s.base.users, s.base.roles[r := wanted], s.base.held + {(u, r)})
    ensures var added, removed := wanted - s.base.roles[r], s.base.roles[r] - wanted;
            var view := WithoutRolePermissions(s.view + HolderRows(c, r, added), removed, r);
            forall x: Row :: x.fromRole.Some? ==>
              (x in view <==> if x.user == u && x.fromRole.value == r then x.permission in added else Wanted(c, x))
  {
    var added := wanted - s.base.roles[r];
    var rows := HolderRows(c, r, added);
    forall x: Row | x.fromRole == Some(r) && (x.user, r) in c.held && x.permission in added ensures x in rows {
      var h := (x.user, r);
      assert h in c.held && x == Row(h.0, x.permission, Some(r));
    }
  }

  /** The smallest lasting divergence: one holder, a second one added, one permission added. */
  lemma CollisionExample()
    ensures var s := State(Base({1, 2}, map[7 := {}], {(1, 7)}), {}, []);
            var q := AddThenUpdate(s, 2, {5}, 7, {5});
            Settled(s) && DrainAborts(q) && Drain(q).queue == []
            && Row(1, 5, Some(7)) !in Drain(q).view && Wanted(Drain(q).base, Row(1, 5, Some(7)))
  {
    var s := State(Base({1, 2}, map[7 := {}], {(1, 7)}), {}, []);
    var q := AddThenUpdate(s, 2, {5}, 7, {5});
    var s1, s2 := Work(q).0, Work(Work(q).0).0;
    var none: set<PermissionId>, five: set<PermissionId> := {}, {5};
    assert five - none == five && none - five == none;
    assert q.queue == [Created(2, 7), Updated(7, {5}, {})];
    assert s1.view == {Row(2, 5, Some(7))};
    var h := (2, 7);
    assert h in q.base.held && Row(h.0, 5, Some(7)) in HolderRows(q.base, 7, {5});
    assert s2.view == s1.view;
    DrainTwo(q);
  }
}
