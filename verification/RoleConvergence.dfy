/** Why the permission view catches up with the role tables, and when it does not.

    The proofs look at one role-derived row at a time: on a single row every task is a
    function on booleans ("is the row there"), so draining the queue is a fold. */
module RoleConvergence {
  import opened Options
  import opened RoleTables

  // ---- one row at a time ----

  predicate Alive(b: Base, x: Row) {
    x.fromRole.Some? && x.user in b.users && x.fromRole.value in b.roles
  }

  /** Does task `t`, run against `b`, insert the row? */
  predicate Inserts(b: Base, t: Task, x: Row) {
    Alive(b, x) && t.role == x.fromRole.value &&
    match t
    case Created(u, r) => u == x.user && x.permission in b.roles[r]
    case Updated(r, added, _) => (x.user, r) in b.held && x.permission in added
    case Deleted(_, _) => false
  }

  /** Is `t` meant to delete the row? */
  predicate Kills(t: Task, x: Row) {
    x.fromRole == Some(t.role) &&
    match t
    case Created(_, _) => false
    case Deleted(u, _) => u == x.user
    case Updated(_, _, removed) => x.permission in removed
  }

  predicate Effect(b: Base, t: Task, x: Row, present: bool) {
    if Alive(b, x) && Kills(t, x) then false else Inserts(b, t, x) || present
  }

  /** Is the row there once the queue has drained against these base tables? */
  predicate After(b: Base, q: seq<Task>, x: Row, present: bool) {
    if q == [] then present else After(b, q[1..], x, Effect(b, q[0], x, present))
  }

  /** A queued task that speaks of a grant the base tables no longer support. */
  predicate Premature(b: Base, t: Task, x: Row) {
    Alive(b, x) && t.role == x.fromRole.value &&
    match t
    case Created(u, r) => u == x.user && (u, r) !in b.held
    case Updated(r, added, _) => x.permission in added && x.permission !in b.roles[r]
    case Deleted(_, _) => false
  }

  predicate HasKill(q: seq<Task>, x: Row) {
    exists i :: 0 <= i < |q| && Kills(q[i], x)
  }

  /** Every premature task is answered by a later task that takes the row away again. */
  predicate Answered(b: Base, q: seq<Task>, x: Row) {
    forall i :: 0 <= i < |q| && Premature(b, q[i], x) ==> HasKill(q[i + 1..], x)
  }

  predicate Disjoint(t: Task) {
    t.Updated? ==> t.added !! t.removed
  }

  /** The inductive invariant: draining the queue now would leave exactly the wanted rows. */
  ghost predicate Converging(s: State) {
    && References(s.base)
    && (forall x :: x in s.view && x.fromRole.Some? ==> Alive(s.base, x))
    && (forall t :: t in s.queue ==> Disjoint(t))
    && (forall x: Row :: x.fromRole.Some? ==>
          After(s.base, s.queue, x, x in s.view) == Wanted(s.base, x) && Answered(s.base, s.queue, x))
  }

  lemma {:induction false} AfterAppend(b: Base, q: seq<Task>, t: Task, x: Row, present: bool)
    ensures After(b, q + [t], x, present) == Effect(b, t, x, After(b, q, x, present))
  {
    if q == [] {
      assert (q + [t])[1..] == [];
    } else {
      assert (q + [t])[1..] == q[1..] + [t];
      AfterAppend(b, q[1..], t, x, Effect(b, q[0], x, present));
    }
  }

  lemma {:induction false} AfterSame(b: Base, c: Base, q: seq<Task>, x: Row, present: bool)
    requires forall t, v :: t in q ==> Effect(b, t, x, v) == Effect(c, t, x, v)
    ensures After(b, q, x, present) == After(c, q, x, present)
  {
    if q == [] {
    } else {
      assert Effect(b, q[0], x, present) == Effect(c, q[0], x, present);
      AfterSame(b, c, q[1..], x, Effect(b, q[0], x, present));
    }
  }

  /** Moving from base `b` to `c` can only change what premature tasks do, and those are
      all answered, so a row that would not survive the queue before does not survive it now. */
  lemma {:induction false} PrematureIsHarmless(b: Base, c: Base, q: seq<Task>, x: Row, v: bool, w: bool)
    requires Alive(b, x) && Alive(c, x)
    requires forall t, k :: t in q && Effect(b, t, x, k) != Effect(c, t, x, k) ==> Premature(b, t, x)
    requires Answered(b, q, x)
    requires (w ==> v) || HasKill(q, x)
    ensures After(c, q, x, w) ==> After(b, q, x, v)
  {
    if q == [] {
    } else {
      var rest := q[1..];
      forall i | 0 <= i < |rest| && Premature(b, rest[i], x) ensures HasKill(rest[i + 1..], x) {
        assert rest[i] == q[i + 1] && q[i + 1 + 1..] == rest[i + 1..];
      }
      var v', w' := Effect(b, q[0], x, v), Effect(c, q[0], x, w);
      assert (w' ==> v') || HasKill(rest, x) by {
        if Kills(q[0], x) {
          assert !w';
        } else if Premature(b, q[0], x) {
          assert q[0 + 1..] == rest;
        } else {
          assert Effect(b, q[0], x, w) == w';
          if !(w ==> v) {
            var i :| 0 <= i < |q| && Kills(q[i], x);
            assert rest[i - 1] == q[i];
          }
        }
      }
      PrematureIsHarmless(b, c, rest, x, v', w');
    }
  }

  // ---- every step keeps the invariant ----

  /** A task that does not abort does to each row what `Effect` says. */
  lemma ExecuteIsEffect(b: Base, view: set<Row>, t: Task, x: Row)
    requires References(b) && Disjoint(t)
    requires forall y :: y in view && y.fromRole.Some? ==> Alive(b, y)
    requires Execute(b, view, t).1 != Duplicate
    requires x.fromRole.Some?
    ensures x in Execute(b, view, t).0 <==> Effect(b, t, x, x in view)
  {
    if t.Updated? && t.role in b.roles && x.fromRole == Some(t.role) {
      var rows := HolderRows(b, t.role, t.added);
      if (x.user, t.role) in b.held && x.permission in t.added {
        var h := (x.user, t.role);
        assert h in b.held && h.1 == t.role && x == Row(h.0, x.permission, Some(t.role));
        assert x in rows;
      }
    }
  }

  lemma WorkConverges(s: State)
    requires Converging(s) && Work(s).1 != Duplicate
    ensures Converging(Work(s).0)
  {
    if s.queue != [] {
      var s', t := Work(s).0, s.queue[0];
      forall x: Row | x.fromRole.Some?
        ensures After(s'.base, s'.queue, x, x in s'.view) == Wanted(s'.base, x)
        ensures Answered(s'.base, s'.queue, x)
        ensures x in s'.view ==> Alive(s'.base, x)
      {
        ExecuteIsEffect(s.base, s.view, t, x);
        AnsweredRest(s.base, s.queue, x);
      }
    }
  }

  lemma AnsweredRest(b: Base, q: seq<Task>, x: Row)
    requires q != [] && Answered(b, q, x)
    ensures Answered(b, q[1..], x)
  {
    forall i | 0 <= i < |q[1..]| && Premature(b, q[1..][i], x) ensures HasKill(q[1..][i + 1..], x) {
      assert q[1..][i] == q[i + 1] && q[i + 1 + 1..] == q[1..][i + 1..];
    }
  }

  /** Appending a task keeps the queue answered, if what it makes premature it also kills. */
  lemma AnsweredAppend(b: Base, c: Base, q: seq<Task>, t: Task, x: Row)
    requires Answered(b, q, x)
    requires !Premature(c, t, x)
    requires Kills(t, x) || (forall i :: 0 <= i < |q| && Premature(c, q[i], x) ==> Premature(b, q[i], x))
    ensures Answered(c, q + [t], x)
  {
    var q' := q + [t];
    forall i | 0 <= i < |q'| && Premature(c, q'[i], x) ensures HasKill(q'[i + 1..], x) {
      assert i < |q| && q'[i] == q[i];
      var later := q'[i + 1..];
      if Kills(t, x) {
        assert later[|later| - 1] == t;
      } else {
        var k :| 0 <= k < |q[i + 1..]| && Kills(q[i + 1..][k], x);
        assert later[k] == q[i + 1..][k];
      }
    }
  }

  lemma AddConverges(s: State, u: UserId, r: RoleId)
    requires Converging(s)
    ensures Converging(AddRole(s, u, r, true).0)
  {
    var (s', outcome) := AddRole(s, u, r, true);
    if outcome == Done {
      var b, c, t := s.base, s'.base, Created(u, r);
      forall x: Row | x.fromRole.Some?
        ensures After(c, s'.queue, x, x in s'.view) == Wanted(c, x) && Answered(c, s'.queue, x)
      {
        var present := x in s.view;
        AfterAppend(c, s.queue, t, x, present);
        AnsweredAppend(b, c, s.queue, t, x);
        if !(x.user == u && x.fromRole.value == r) {
          AfterSame(b, c, s.queue, x, present);
        } else if x.permission !in b.roles[r] {
          PrematureIsHarmless(b, c, s.queue, x, present, present);
        }
      }
    }
  }

  lemma RemoveConverges(s: State, u: UserId, r: RoleId)
    requires Converging(s)
    ensures Converging(DeleteRole(s, u, r, true).0)
  {
    var (s', outcome) := DeleteRole(s, u, r, true);
    if outcome == Done {
      var b, c, t := s.base, s'.base, Deleted(u, r);
      var once := s.queue + [t];
      assert s'.queue == once + [t];
      forall x: Row | x.fromRole.Some?
        ensures After(c, s'.queue, x, x in s'.view) == Wanted(c, x) && Answered(c, s'.queue, x)
      {
        var present := x in s.view;
        AfterAppend(c, s.queue, t, x, present);
        AfterAppend(c, once, t, x, present);
        AnsweredAppend(b, c, s.queue, t, x);
        AnsweredAppend(c, c, once, t, x);
        if !(x.user == u && x.fromRole.value == r) {
          AfterSame(b, c, s.queue, x, present);
        }
      }
    }
  }

  lemma UpdateConverges(s: State, known: set<PermissionId>, r: RoleId, wanted: set<PermissionId>)
    requires Converging(s)
    ensures Converging(UpdateRole(s, known, r, wanted).0)
  {
    var (s', outcome) := UpdateRole(s, known, r, wanted);
    if outcome == Done {
      var b, c := s.base, s'.base;
      var t := Updated(r, wanted - b.roles[r], b.roles[r] - wanted);
      assert s'.queue == s.queue + [t];
      forall x: Row | x.fromRole.Some?
        ensures After(c, s'.queue, x, x in s'.view) == Wanted(c, x) && Answered(c, s'.queue, x)
      {
        var present := x in s.view;
        AfterAppend(c, s.queue, t, x, present);
        AnsweredAppend(b, c, s.queue, t, x);
        if x.fromRole.value != r || !Alive(b, x) || x.permission !in t.added + t.removed {
          AfterSame(b, c, s.queue, x, present);
        } else if x.permission in t.added && (x.user, r) !in b.held {
          PrematureIsHarmless(b, c, s.queue, x, present, present);
        }
      }
    }
  }

  /** While its user or its role is gone, nothing the queue does reaches a row. */
  lemma {:induction false} DeadRowsStay(b: Base, q: seq<Task>, x: Row, present: bool)
    requires !Alive(b, x)
    ensures After(b, q, x, present) == present
  {
    if q == [] {
    } else {
      DeadRowsStay(b, q[1..], x, present);
    }
  }

  lemma DropRoleConverges(s: State, r: RoleId)
    requires Converging(s)
    ensures Converging(DropRole(s, r))
  {
    var s' := DropRole(s, r);
    forall x: Row | x.fromRole.Some?
      ensures After(s'.base, s'.queue, x, x in s'.view) == Wanted(s'.base, x) && Answered(s'.base, s'.queue, x)
    {
      if x.fromRole.value == r {
        DeadRowsStay(s'.base, s.queue, x, false);
      } else {
        AfterSame(s.base, s'.base, s.queue, x, x in s.view);
        AnsweredSame(s.base, s'.base, s.queue, x);
      }
    }
  }

  lemma DropUserConverges(s: State, u: UserId)
    requires Converging(s)
    ensures Converging(DropUser(s, u))
  {
    var s' := DropUser(s, u);
    forall x: Row | x.fromRole.Some?
      ensures After(s'.base, s'.queue, x, x in s'.view) == Wanted(s'.base, x) && Answered(s'.base, s'.queue, x)
    {
      if x.user == u {
        DeadRowsStay(s'.base, s.queue, x, false);
      } else {
        AfterSame(s.base, s'.base, s.queue, x, x in s.view);
        AnsweredSame(s.base, s'.base, s.queue, x);
      }
    }
  }

  lemma AnsweredSame(b: Base, c: Base, q: seq<Task>, x: Row)
    requires Answered(b, q, x)
    requires forall t :: t in q && Premature(c, t, x) ==> Premature(b, t, x)
    ensures Answered(c, q, x)
  {
  }

  /** Identifiers are UUIDs: a new role's id appears nowhere yet. */
  predicate FreshRole(s: State, r: RoleId) {
    r !in s.base.roles && forall t :: t in s.queue ==> t.role != r
  }

  lemma NewRoleConverges(s: State, r: RoleId, permissions: set<PermissionId>)
    requires Converging(s) && FreshRole(s, r)
    ensures Converging(NewRole(s, r, permissions))
  {
    var s' := NewRole(s, r, permissions);
    forall x: Row | x.fromRole.Some?
      ensures After(s'.base, s'.queue, x, x in s'.view) == Wanted(s'.base, x) && Answered(s'.base, s'.queue, x)
    {
      AfterSame(s.base, s'.base, s.queue, x, x in s.view);
      AnsweredSame(s.base, s'.base, s.queue, x);
    }
  }

  // ---- runs ----

  /** What can happen next: a request, the worker taking a task, or a cascade. */
  datatype Action =
    | Add(u: UserId, r: RoleId)
    | Remove(u: UserId, r: RoleId)
    | Update(known: set<PermissionId>, r: RoleId, wanted: set<PermissionId>)
    | RunTask
    | CreateRole(r: RoleId, permissions: set<PermissionId>)
    | LoseRole(r: RoleId)
    | LoseUser(u: UserId)

  function Step(s: State, a: Action): (State, Outcome) {
    match a
    case Add(u, r) => AddRole(s, u, r, true)
    case Remove(u, r) => DeleteRole(s, u, r, true)
    case Update(known, r, wanted) => UpdateRole(s, known, r, wanted)
    case RunTask => Work(s)
    case CreateRole(r, permissions) => (if FreshRole(s, r) then NewRole(s, r, permissions) else s, Done)
    case LoseRole(r) => (DropRole(s, r), Done)
    case LoseUser(u) => (DropUser(s, u), Done)
  }

  function Run(s: State, actions: seq<Action>): State
    decreases |actions|
  {
    if actions == [] then s else Run(Step(s, actions[0]).0, actions[1..])
  }

  predicate NoAbort(s: State, actions: seq<Action>)
    decreases |actions|
  {
    actions == [] || (Step(s, actions[0]).1 != Duplicate && NoAbort(Step(s, actions[0]).0, actions[1..]))
  }

  ghost predicate Settled(s: State) {
    s.queue == [] && References(s.base) && ViewIsJoin(s.base, s.view)
  }

  lemma StepConverges(s: State, a: Action)
    requires Converging(s) && Step(s, a).1 != Duplicate
    ensures Converging(Step(s, a).0)
  {
    match a
    case Add(u, r) => AddConverges(s, u, r);
    case Remove(u, r) => RemoveConverges(s, u, r);
    case Update(known, r, wanted) => UpdateConverges(s, known, r, wanted);
    case RunTask => WorkConverges(s);
    case CreateRole(r, permissions) => if FreshRole(s, r) { NewRoleConverges(s, r, permissions); }
    case LoseRole(r) => DropRoleConverges(s, r);
    case LoseUser(u) => DropUserConverges(s, u);
  }

  /** Main result: whatever the interleaving of requests and tasks, as long as no insert hits
      the unique constraint, an empty queue means the view is exactly the join. */
  lemma {:induction false} ViewConverges(s: State, actions: seq<Action>)
    requires Converging(s)
    requires NoAbort(s, actions)
    ensures Converging(Run(s, actions))
    ensures Run(s, actions).queue == [] ==> ViewIsJoin(Run(s, actions).base, Run(s, actions).view)
    decreases |actions|
  {
    if actions == [] {
    } else {
      StepConverges(s, actions[0]);
      ViewConverges(Step(s, actions[0]).0, actions[1..]);
    }
  }

  lemma SettledConverges(s: State)
    requires Settled(s)
    ensures Converging(s)
  {
  }
}
