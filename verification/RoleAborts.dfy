/** The guards of `RoleCollisions` are exact: with any tasks outstanding, exactly when the next
    request makes the queue abort, and exactly when the drained view is then wrong. */
module RoleAborts {
  import opened Options
  import opened RoleTables
  import opened RoleConvergence
  import opened RoleCollisions

  // ---- an abort is a row inserted twice ----

  /** Draining the queue never inserts the row while it is there. */
  predicate Clean(b: Base, q: seq<Task>, x: Row, present: bool) {
    q == [] || ((Inserts(b, q[0], x) ==> !present) && Clean(b, q[1..], x, Effect(b, q[0], x, present)))
  }

  predicate Sound(s: State) {
    && References(s.base)
    && (forall x :: x in s.view && x.fromRole.Some? ==> Alive(s.base, x))
    && (forall t :: t in s.queue ==> Disjoint(t))
  }

  ghost predicate InsertedTwice(s: State) {
    exists x: Row :: x.fromRole.Some? && !Clean(s.base, s.queue, x, x in s.view)
  }

  lemma WorkIsSound(s: State)
    requires Sound(s) && s.queue != [] && Work(s).1 != Duplicate
    ensures Sound(Work(s).0)
  {
    var s' := Work(s).0;
    assert forall t :: t in s'.queue ==> t in s.queue;
    forall x | x in s'.view && x.fromRole.Some? ensures Alive(s'.base, x) {
      ExecuteIsEffect(s.base, s.view, s.queue[0], x);
    }
  }

  /** Draining a queue aborts somewhere exactly when, row by row, some row is inserted twice. */
  lemma {:induction false} AbortsIffInsertedTwice(s: State)
    requires Sound(s)
    ensures DrainAborts(s) <==> InsertedTwice(s)
    decreases |s.queue|
  {
    if s.queue == [] {
    } else {
      var t := s.queue[0];
      DuplicateIff(s.base, s.view, t);
      if Work(s).1 == Duplicate {
        var x: Row :| Inserts(s.base, t, x) && x in s.view;
        assert !Clean(s.base, s.queue, x, x in s.view);
      } else {
        var s' := Work(s).0;
        forall x: Row | x.fromRole.Some?
          ensures Clean(s.base, s.queue, x, x in s.view) <==> Clean(s'.base, s'.queue, x, x in s'.view)
        {
          ExecuteIsEffect(s.base, s.view, t, x);
        }
        WorkIsSound(s);
        AbortsIffInsertedTwice(s');
      }
    }
  }

  // ---- one row through the queue ----

  /** A queued task inserts the row, and no later task deletes it. */
  predicate InsertedForGood(b: Base, q: seq<Task>, x: Row) {
    exists i :: 0 <= i < |q| && Inserts(b, q[i], x) && !HasKill(q[i + 1..], x)
  }

  lemma InsertedRest(b: Base, q: seq<Task>, x: Row)
    requires q != []
    ensures InsertedForGood(b, q, x)
            <==> InsertedForGood(b, q[1..], x) || (Inserts(b, q[0], x) && !HasKill(q[1..], x))
  {
    var rest := q[1..];
    assert q[0 + 1..] == rest;
    if i :| 0 <= i < |q| && Inserts(b, q[i], x) && !HasKill(q[i + 1..], x) {
      if i > 0 {
        assert rest[i - 1] == q[i] && rest[i - 1 + 1..] == q[i + 1..];
      }
    }
    if i :| 0 <= i < |rest| && Inserts(b, rest[i], x) && !HasKill(rest[i + 1..], x) {
      assert q[i + 1] == rest[i] && q[i + 1 + 1..] == rest[i + 1..];
    }
  }

  /** The queue leaves a row exactly if the row stays or is inserted for good. */
  lemma {:induction false} AfterIff(b: Base, q: seq<Task>, x: Row, present: bool)
    requires Alive(b, x) && forall t :: t in q ==> Disjoint(t)
    ensures After(b, q, x, present) <==> Stays(q, x, present) || InsertedForGood(b, q, x)
  {
    if q == [] {
    } else {
      assert q[0] in q && Disjoint(q[0]);
      KillRest(q, x);
      InsertedRest(b, q, x);
      AfterIff(b, q[1..], x, Effect(b, q[0], x, present));
    }
  }

  lemma {:induction false} CleanAppend(b: Base, q: seq<Task>, t: Task, x: Row, present: bool)
    ensures Clean(b, q + [t], x, present)
            <==> Clean(b, q, x, present) && (Inserts(b, t, x) ==> !After(b, q, x, present))
  {
    if q == [] {
      assert (q + [t])[1..] == [];
    } else {
      assert (q + [t])[1..] == q[1..] + [t];
      CleanAppend(b, q[1..], t, x, Effect(b, q[0], x, present));
    }
  }

  /** What is never inserted twice by any base tables is not by these, nor with fewer rows there. */
  lemma {:induction false} NeverTwiceIsClean(b: Base, q: seq<Task>, x: Row, v: bool, w: bool)
    requires Alive(b, x) ==> NeverTwice(q, x, v)
    requires w ==> v
    ensures Clean(b, q, x, w)
  {
    if q == [] {
    } else {
      var t := q[0];
      NeverTwiceIsClean(b, q[1..], x,
        if Alive(b, x) then !Kills(t, x) && (Opens(t, x) || v) else true, Effect(b, t, x, w));
    }
  }

  // ---- a request whose own task aborts ----

  /** Everything queued before the last task runs, so a drain that aborts leaves what it left. */
  lemma {:induction false} OnlyLastAborts(b: Base, view: set<Row>, q: seq<Task>, t: Task)
    requires Sound(State(b, view, q + [t])) && DrainAborts(State(b, view, q + [t]))
    requires forall x: Row :: x.fromRole.Some? ==> Clean(b, q, x, x in view)
    ensures var s := Drain(State(b, view, q + [t]));
            s.base == b && forall x: Row :: x.fromRole.Some? ==> (x in s.view <==> After(b, q, x, x in view))
    decreases |q|
  {
    var s := State(b, view, q + [t]);
    var s' := Work(s).0;
    if q == [] {
      assert s'.queue == [];
      assert Drain(s') == s' && !DrainAborts(s');
    } else {
      assert s.queue[0] == q[0] && s.queue[1..] == q[1..] + [t];
      DuplicateIff(b, view, q[0]);
      assert Work(s).1 != Duplicate;
      forall x: Row | x.fromRole.Some?
        ensures x in s'.view <==> Effect(b, q[0], x, x in view)
        ensures Clean(b, q[1..], x, x in s'.view)
      {
        ExecuteIsEffect(b, view, q[0], x);
      }
      WorkIsSound(s);
      assert s' == State(b, s'.view, q[1..] + [t]);
      OnlyLastAborts(b, s'.view, q[1..], t);
    }
  }

  lemma QueueIsClean(s: State, c: Base)
    requires Fine(s) && forall x :: Alive(c, x) ==> Alive(s.base, x)
    ensures forall x: Row :: x.fromRole.Some? ==> Clean(c, s.queue, x, x in s.view)
  {
    forall x: Row | x.fromRole.Some? ensures Clean(c, s.queue, x, x in s.view) {
      NeverTwiceIsClean(c, s.queue, x, x in s.view, x in s.view);
    }
  }

  /** A row that both the queue and the request's own task insert makes the drain abort. */
  lemma MeetsAborts(s: State, c: Base, t: Task, x: Row)
    requires Sound(State(c, s.view, s.queue + [t])) && Inserts(c, t, x) && InsertedForGood(c, s.queue, x)
    ensures DrainAborts(State(c, s.view, s.queue + [t]))
  {
    var s' := State(c, s.view, s.queue + [t]);
    forall k | k in s.queue ensures Disjoint(k) {
      assert k in s'.queue;
    }
    AfterIff(c, s.queue, x, x in s.view);
    CleanAppend(c, s.queue, t, x, x in s.view);
    assert InsertedTwice(s');
    AbortsIffInsertedTwice(s');
  }

  // ---- adding a holder ----

  lemma GrantedIsInserted(c: Base, q: seq<Task>, x: Row)
    requires Alive(c, x) && (x.user, x.fromRole.value) in c.held && GrantedForGood(q, x)
    ensures InsertedForGood(c, q, x)
  {
    var i :| 0 <= i < |q| && q[i].Updated? && Opens(q[i], x) && !HasKill(q[i + 1..], x);
    assert Inserts(c, q[i], x);
  }

  lemma CreatedIsInserted(c: Base, q: seq<Task>, x: Row)
    requires Alive(c, x) && x.permission in c.roles[x.fromRole.value] && CreatedForGood(q, x)
    ensures InsertedForGood(c, q, x)
  {
    var i :| 0 <= i < |q| && q[i].Created? && Opens(q[i], x) && !HasKill(q[i + 1..], x);
    assert Inserts(c, q[i], x);
  }

  /** What inserts a row is a grant or a creation. */
  lemma InsertedMeans(c: Base, q: seq<Task>, x: Row)
    requires InsertedForGood(c, q, x)
    ensures (GrantedForGood(q, x) && (x.user, x.fromRole.value) in c.held)
            || (CreatedForGood(q, x) && x.permission in c.roles[x.fromRole.value])
  {
    var i :| 0 <= i < |q| && Inserts(c, q[i], x) && !HasKill(q[i + 1..], x);
    assert Opens(q[i], x);
  }

  /** With any tasks outstanding, adding a holder makes the queue abort exactly when a queued
      update grants a permission of which nothing queued later deletes this user's row. */
  lemma AddAbortsIff(s: State, u: UserId, r: RoleId)
    requires Fine(s) && AddRole(s, u, r, true).1 == Done
    ensures DrainAborts(AddRole(s, u, r, true).0) <==> AddMeets(s, u, r)
  {
    var s' := AddRole(s, u, r, true).0;
    AddConverges(s, u, r);
    if AddMeets(s, u, r) {
      var p :| GrantedForGood(s.queue, Row(u, p, Some(r)));
      var x := Row(u, p, Some(r));
      OutdatedIsKilled(s, x);
      GrantedIsInserted(s'.base, s.queue, x);
      MeetsAborts(s, s'.base, Created(u, r), x);
    } else {
      AddFine(s, u, r);
      FineDrains(s');
    }
  }

  /** The queued updates grant the new holder every permission of the role for good. */
  ghost predicate AddCovered(s: State, u: UserId, r: RoleId)
    requires r in s.base.roles
  {
    forall p :: p in s.base.roles[r] ==> GrantedForGood(s.queue, Row(u, p, Some(r)))
  }

  lemma AddLeaves(s: State, u: UserId, r: RoleId, x: Row)
    requires Fine(s) && AddRole(s, u, r, true).1 == Done && x.fromRole.Some?
    ensures var c := AddRole(s, u, r, true).0.base;
            After(c, s.queue, x, x in s.view)
            <==> if x.user == u && x.fromRole == Some(r) then GrantedForGood(s.queue, x) else Wanted(c, x)
  {
    var c := AddRole(s, u, r, true).0.base;
    if x.user == u && x.fromRole == Some(r) {
      OutdatedIsKilled(s, x);
      UnwantedDoesNotStay(s, x);
      AfterIff(c, s.queue, x, x in s.view);
      if GrantedForGood(s.queue, x) {
        GrantedIsInserted(c, s.queue, x);
      }
      if InsertedForGood(c, s.queue, x) {
        InsertedMeans(c, s.queue, x);
      }
    } else {
      AfterSame(s.base, c, s.queue, x, x in s.view);
    }
  }

  /** And then the drained view is the join exactly when it did not abort, or when the queued
      updates gave the new holder everything. */
  lemma AddSettlesIff(s: State, u: UserId, r: RoleId)
    requires Fine(s) && AddRole(s, u, r, true).1 == Done
    ensures var s' := Drain(AddRole(s, u, r, true).0);
            ViewIsJoin(s'.base, s'.view) <==> !AddMeets(s, u, r) || AddCovered(s, u, r)
  {
    var s' := AddRole(s, u, r, true).0;
    AddConverges(s, u, r);
    AddAbortsIff(s, u, r);
    if AddMeets(s, u, r) {
      QueueIsClean(s, s'.base);
      OnlyLastAborts(s'.base, s.view, s.queue, Created(u, r));
      forall x: Row | x.fromRole.Some?
        ensures x in Drain(s').view
                <==> if x.user == u && x.fromRole == Some(r) then GrantedForGood(s.queue, x) else Wanted(s'.base, x)
      {
        AddLeaves(s, u, r, x);
      }
      forall p ensures GrantedForGood(s.queue, Row(u, p, Some(r))) ==> p in s.base.roles[r] {
        OutdatedIsKilled(s, Row(u, p, Some(r)));
      }
      if ViewIsJoin(s'.base, Drain(s').view) {
        forall p | p in s.base.roles[r] ensures GrantedForGood(s.queue, Row(u, p, Some(r))) {
          assert Wanted(s'.base, Row(u, p, Some(r)));
        }
      }
      if AddCovered(s, u, r) {
        forall x: Row | x.fromRole.Some? ensures x in Drain(s').view <==> Wanted(s'.base, x) {
          if x.user == u && x.fromRole == Some(r) {
            assert x == Row(u, x.permission, Some(r));
          }
        }
      }
    } else {
      AddFine(s, u, r);
      FineDrains(s');
    }
  }

  // ---- updating a role ----

  /** With any tasks outstanding, updating a role makes the queue abort exactly when it adds a
      permission that the queue gives, for good, to a holder. */
  lemma UpdateAbortsIff(s: State, known: set<PermissionId>, r: RoleId, wanted: set<PermissionId>)
    requires Fine(s) && UpdateRole(s, known, r, wanted).1 == Done
    ensures DrainAborts(UpdateRole(s, known, r, wanted).0) <==> UpdateMeets(s, r, wanted - s.base.roles[r])
  {
    var s', added := UpdateRole(s, known, r, wanted).0, wanted - s.base.roles[r];
    UpdateConverges(s, known, r, wanted);
    if UpdateMeets(s, r, added) {
      var h, p :| h in s.base.held && h.1 == r && p in added && CreatedForGood(s.queue, Row(h.0, p, Some(r)));
      var x := Row(h.0, p, Some(r));
      CreatedIsInserted(s'.base, s.queue, x);
      MeetsAborts(s, s'.base, Updated(r, added, s.base.roles[r] - wanted), x);
    } else {
      UpdateFine(s, known, r, wanted);
      FineDrains(s');
    }
  }

  /** What an update leaves undone if its own task aborts is done by the tasks before it: they give
      every holder the added permissions, and leave none a removed one. */
  ghost predicate UpdateCovered(s: State, r: RoleId, added: set<PermissionId>, removed: set<PermissionId>) {
    forall h | h in s.base.held && h.1 == r ::
      (forall p :: p in added ==> CreatedForGood(s.queue, Row(h.0, p, Some(r))))
      && (forall p :: p in removed ==> !Lingers(s, Row(h.0, p, Some(r))))
  }

  /** The row stays, or a queued update grants it for good. */
  predicate Lingers(s: State, x: Row) {
    Stays(s.queue, x, x in s.view) || GrantedForGood(s.queue, x)
  }

  predicate Holder(b: Base, r: RoleId, x: Row) {
    x.fromRole == Some(r) && (x.user, r) in b.held
  }

  lemma UpdateLeaves(s: State, known: set<PermissionId>, r: RoleId, wanted: set<PermissionId>, x: Row)
    requires Fine(s) && UpdateRole(s, known, r, wanted).1 == Done && x.fromRole.Some?
    ensures var c := UpdateRole(s, known, r, wanted).0.base;
            After(c, s.queue, x, x in s.view)
            <==> if Holder(s.base, r, x) && x.permission in wanted - s.base.roles[r] then CreatedForGood(s.queue, x)
                 else if Holder(s.base, r, x) && x.permission in s.base.roles[r] - wanted then Lingers(s, x)
                 else Wanted(c, x)
  {
    var b, c := s.base, UpdateRole(s, known, r, wanted).0.base;
    var changed := (wanted - b.roles[r]) + (b.roles[r] - wanted);
    if x.fromRole == Some(r) && x.permission in changed && Alive(b, x) {
      OutdatedIsKilled(s, x);
      AfterIff(c, s.queue, x, x in s.view);
      if !Wanted(b, x) {
        UnwantedDoesNotStay(s, x);
      }
      if InsertedForGood(c, s.queue, x) {
        InsertedMeans(c, s.queue, x);
      }
      if Holder(b, r, x) && GrantedForGood(s.queue, x) {
        GrantedIsInserted(c, s.queue, x);
      }
      if x.permission in wanted && CreatedForGood(s.queue, x) {
        CreatedIsInserted(c, s.queue, x);
      }
    } else {
      AfterSame(b, c, s.queue, x, x in s.view);
    }
  }

  /** And then the drained view is the join exactly when it did not abort, or when the tasks before
      it did its work. */
  lemma UpdateSettlesIff(s: State, known: set<PermissionId>, r: RoleId, wanted: set<PermissionId>)
    requires Fine(s) && UpdateRole(s, known, r, wanted).1 == Done
    ensures var s' := Drain(UpdateRole(s, known, r, wanted).0);
            var added, removed := wanted - s.base.roles[r], s.base.roles[r] - wanted;
            ViewIsJoin(s'.base, s'.view) <==> !UpdateMeets(s, r, added) || UpdateCovered(s, r, added, removed)
  {
    var s' := UpdateRole(s, known, r, wanted).0;
    var added, removed := wanted - s.base.roles[r], s.base.roles[r] - wanted;
    UpdateConverges(s, known, r, wanted);
    UpdateAbortsIff(s, known, r, wanted);
    if UpdateMeets(s, r, added) {
      QueueIsClean(s, s'.base);
      OnlyLastAborts(s'.base, s.view, s.queue, Updated(r, added, removed));
      forall x: Row | x.fromRole.Some?
        ensures x in Drain(s').view
                <==> if Holder(s.base, r, x) && x.permission in added then CreatedForGood(s.queue, x)
                     else if Holder(s.base, r, x) && x.permission in removed then Lingers(s, x)
                     else Wanted(s'.base, x)
      {
        UpdateLeaves(s, known, r, wanted, x);
      }
      CoveredIffJoin(s, s'.base, Drain(s').view, r, wanted);
    } else {
      UpdateFine(s, known, r, wanted);
      FineDrains(s');
    }
  }

  lemma CoveredIffJoin(s: State, c: Base, view: set<Row>, r: RoleId, wanted: set<PermissionId>)
    requires References(s.base) && r in s.base.roles && c == s.base.(roles := s.base.roles[r := wanted])
    requires forall x: Row :: x.fromRole.Some? ==>
               (x in view
                <==> if Holder(s.base, r, x) && x.permission in wanted - s.base.roles[r] then CreatedForGood(s.queue, x)
                     else if Holder(s.base, r, x) && x.permission in s.base.roles[r] - wanted then Lingers(s, x)
                     else Wanted(c, x))
    ensures ViewIsJoin(c, view) <==> UpdateCovered(s, r, wanted - s.base.roles[r], s.base.roles[r] - wanted)
  {
    if ViewIsJoin(c, view) {
      forall h, p | h in s.base.held && h.1 == r
        ensures p in wanted - s.base.roles[r] ==> CreatedForGood(s.queue, Row(h.0, p, Some(r)))
        ensures p in s.base.roles[r] - wanted ==> !Lingers(s, Row(h.0, p, Some(r)))
      {
        var x := Row(h.0, p, Some(r));
        assert (x.user, r) == h && Holder(s.base, r, x);
        assert x in view <==> Wanted(c, x);
      }
    }
    if UpdateCovered(s, r, wanted - s.base.roles[r], s.base.roles[r] - wanted) {
      forall x: Row | x.fromRole.Some? ensures x in view <==> Wanted(c, x) {
        if Holder(s.base, r, x) {
          var h := (x.user, r);
          assert h in s.base.held && x == Row(h.0, x.permission, Some(r));
        }
      }
    }
  }

  // ---- over whole runs ----

  /** Stopping the requests at any point of the run would let the queue drain without an abort. */
  predicate AlwaysDrains(s: State, actions: seq<Action>)
    decreases |actions|
  {
    !DrainAborts(s) && (actions == [] || AlwaysDrains(Step(s, actions[0]).0, actions[1..]))
  }

  lemma GuardIsExact(s: State, a: Action)
    requires Fine(s)
    ensures Guarded(s, a) <==> !DrainAborts(Step(s, a).0)
  {
    if Guarded(s, a) {
      StepFine(s, a);
      FineDrains(Step(s, a).0);
    } else {
      match a
      case Add(u, r) => AddAbortsIff(s, u, r);
      case Update(known, r, wanted) => UpdateAbortsIff(s, known, r, wanted);
    }
  }

  /** The guards are exact for whole runs: a run passes them all exactly when at no point of it the
      queue, left to drain, would abort. */
  lemma {:induction false} GuardedIffAlwaysDrains(s: State, actions: seq<Action>)
    requires Fine(s)
    ensures GuardedRun(s, actions) <==> AlwaysDrains(s, actions)
    decreases |actions|
  {
    FineDrains(s);
    if actions == [] {
    } else {
      GuardIsExact(s, actions[0]);
      if Guarded(s, actions[0]) {
        StepFine(s, actions[0]);
        GuardedIffAlwaysDrains(Step(s, actions[0]).0, actions[1..]);
      } else {
        DrainsFirst(Step(s, actions[0]).0, actions[1..]);
      }
    }
  }

  lemma DrainsFirst(s: State, actions: seq<Action>)
    ensures AlwaysDrains(s, actions) ==> !DrainAborts(s)
  {
  }

  /** After any guarded run from a settled store, whatever is outstanding: what the next addition or
      update does to the drained queue and the drained view. */
  lemma NextRequest(s: State, actions: seq<Action>, a: Action)
    requires Settled(s) && GuardedRun(s, actions)
    ensures var now := Run(s, actions);
            var next := Step(now, a).0;
            Step(now, a).1 == Done ==>
              (a.Add? ==>
                 (DrainAborts(next) <==> AddMeets(now, a.u, a.r))
                 && (ViewIsJoin(Drain(next).base, Drain(next).view)
                     <==> !AddMeets(now, a.u, a.r) || AddCovered(now, a.u, a.r)))
              && (a.Update? ==>
                    var added, removed := a.wanted - now.base.roles[a.r], now.base.roles[a.r] - a.wanted;
                    (DrainAborts(next) <==> UpdateMeets(now, a.r, added))
                    && (ViewIsJoin(Drain(next).base, Drain(next).view)
                        <==> !UpdateMeets(now, a.r, added) || UpdateCovered(now, a.r, added, removed)))
  {
    SettledFine(s);
    GuardedRunsNeverAbort(s, actions);
    var now := Run(s, actions);
    if Step(now, a).1 == Done {
      match a
      case Add(u, r) =>
        AddAbortsIff(now, u, r);
        AddSettlesIff(now, u, r);
      case Update(known, r, wanted) =>
        UpdateAbortsIff(now, known, r, wanted);
        UpdateSettlesIff(now, known, r, wanted);
      case _ =>
    }
  }
}
