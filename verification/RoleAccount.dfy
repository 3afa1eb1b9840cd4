/** What the requests of a run add up to: who exists, who holds what, what each role grants and what
    was sent to the queue, each told from the requests alone, without the tables. */
module RoleAccount {
  import opened Options
  import opened RoleTables
  import opened RoleConvergence
  import opened RoleCollisions

  function Front(log: seq<Action>): seq<Action>
    requires log != []
  {
    log[..|log| - 1]
  }

  function Last(log: seq<Action>): Action
    requires log != []
  {
    log[|log| - 1]
  }

  // ---- the account ----

  predicate UserThere(s: State, log: seq<Action>, u: UserId)
    decreases |log|
  {
    if log == [] then u in s.base.users else UserThere(s, Front(log), u) && Last(log) != LoseUser(u)
  }

  /** A role is created under an id that nothing uses. */
  predicate Creates(s: State, log: seq<Action>, r: RoleId)
    requires log != []
  {
    Last(log).CreateRole? && Last(log).r == r && FreshRole(Run(s, Front(log)), r)
  }

  predicate RoleThere(s: State, log: seq<Action>, r: RoleId)
    decreases |log|
  {
    if log == [] then r in s.base.roles
    else Creates(s, log, r) || (RoleThere(s, Front(log), r) && Last(log) != LoseRole(r))
  }

  /** The latest request about the pair decides; losing the user or the role ends it. */
  predicate HoldsRole(s: State, log: seq<Action>, u: UserId, r: RoleId)
    decreases |log|
  {
    if log == [] then (u, r) in s.base.held
    else if Last(log) == Add(u, r) then UserThere(s, Front(log), u) && RoleThere(s, Front(log), r)
    else HoldsRole(s, Front(log), u, r) && Last(log) !in {Remove(u, r), LoseUser(u), LoseRole(r)}
  }

  /** The latest accepted update of the role decides. */
  predicate RoleGrants(s: State, log: seq<Action>, r: RoleId, p: PermissionId)
    decreases |log|
  {
    if log == [] then r in s.base.roles && p in s.base.roles[r]
    else if Creates(s, log, r) then p in Last(log).permissions
    else if Last(log).Update? && Last(log).r == r && RoleThere(s, Front(log), r) && Last(log).wanted <= Last(log).known
    then p in Last(log).wanted
    else RoleGrants(s, Front(log), r, p) && Last(log) != LoseRole(r)
  }

  /** The tasks that the last request sends. */
  function SentLast(s: State, log: seq<Action>): seq<Task>
    requires log != []
  {
    var before := Front(log);
    match Last(log)
    case Add(u, r) =>
      if UserThere(s, before, u) && RoleThere(s, before, r) && !HoldsRole(s, before, u, r) then [Created(u, r)] else []
    case Remove(u, r) => if HoldsRole(s, before, u, r) then [Deleted(u, r), Deleted(u, r)] else []
    case Update(known, r, wanted) =>
      if RoleThere(s, before, r) && wanted <= known
      then [Updated(r, (set p | p in wanted && !RoleGrants(s, before, r, p)), Granted(s, before, r) - wanted)]
      else []
    case _ => []
  }

  /** The permissions of a role. */
  function Granted(s: State, log: seq<Action>, r: RoleId): set<PermissionId> {
    set p | p in Mentioned(s, log, r) && RoleGrants(s, log, r, p)
  }

  /** Every permission that was ever asked for. */
  function Mentioned(s: State, log: seq<Action>, r: RoleId): set<PermissionId>
    decreases |log|
  {
    if log == [] then if r in s.base.roles then s.base.roles[r] else {}
    else Mentioned(s, Front(log), r)
         + if Last(log).Update? then Last(log).wanted else if Last(log).CreateRole? then Last(log).permissions else {}
  }

  function Sent(s: State, log: seq<Action>): seq<Task>
    decreases |log|
  {
    if log == [] then s.queue else Sent(s, Front(log)) + SentLast(s, log)
  }

  /** How many of them the worker has taken. */
  function Taken(s: State, log: seq<Action>): (taken: nat)
    ensures taken <= |Sent(s, log)|
    decreases |log|
  {
    if log == [] then 0
    else if Last(log).RunTask? && Taken(s, Front(log)) < |Sent(s, Front(log))| then Taken(s, Front(log)) + 1
    else Taken(s, Front(log))
  }

  // ---- the tables agree with it ----

  lemma {:induction false} RunFront(s: State, log: seq<Action>)
    requires log != []
    ensures Run(s, log) == Step(Run(s, Front(log)), Last(log)).0
    decreases |log|
  {
    if |log| == 1 {
      assert Front(log) == [] && log[1..] == [];
    } else {
      assert Front(log)[1..] == Front(log[1..]) && Last(log[1..]) == Last(log) && Front(log)[0] == log[0];
      RunFront(Step(s, log[0]).0, log[1..]);
    }
  }

  /** The base tables, row by row. */
  ghost predicate BaseAgrees(s: State, log: seq<Action>) {
    var b := Run(s, log).base;
    && References(b)
    && (forall u :: u in b.users <==> UserThere(s, log, u))
    && (forall r :: r in b.roles <==> RoleThere(s, log, r))
    && (forall u: UserId, r: RoleId :: (u, r) in b.held <==> HoldsRole(s, log, u, r))
    && (forall r, p :: r in b.roles && p in b.roles[r] <==> RoleGrants(s, log, r, p))
  }

  lemma UsersAgree(s: State, log: seq<Action>)
    requires log != [] && BaseAgrees(s, Front(log))
    ensures forall u :: u in Run(s, log).base.users <==> UserThere(s, log, u)
    ensures forall r :: r in Run(s, log).base.roles <==> RoleThere(s, log, r)
  {
    RunFront(s, log);
    var b, c := Run(s, Front(log)).base, Run(s, log).base;
    forall u ensures u in c.users <==> UserThere(s, log, u) {
      assert u in b.users <==> UserThere(s, Front(log), u);
    }
    forall r ensures r in c.roles <==> RoleThere(s, log, r) {
      assert r in b.roles <==> RoleThere(s, Front(log), r);
    }
  }

  lemma HoldersAgree(s: State, log: seq<Action>)
    requires log != [] && BaseAgrees(s, Front(log))
    ensures forall u: UserId, r: RoleId :: (u, r) in Run(s, log).base.held <==> HoldsRole(s, log, u, r)
  {
    RunFront(s, log);
    var b, c := Run(s, Front(log)).base, Run(s, log).base;
    forall u: UserId, r: RoleId ensures (u, r) in c.held <==> HoldsRole(s, log, u, r) {
      assert (u, r) in b.held <==> HoldsRole(s, Front(log), u, r);
    }
  }

  lemma GrantsAgree(s: State, log: seq<Action>)
    requires log != [] && BaseAgrees(s, Front(log))
    ensures var c := Run(s, log).base;
            forall r, p :: r in c.roles && p in c.roles[r] <==> RoleGrants(s, log, r, p)
  {
    RunFront(s, log);
    var b, c := Run(s, Front(log)).base, Run(s, log).base;
    forall r, p ensures r in c.roles && p in c.roles[r] <==> RoleGrants(s, log, r, p) {
      assert r in b.roles && p in b.roles[r] <==> RoleGrants(s, Front(log), r, p);
    }
  }

  lemma StepAgrees(s: State, log: seq<Action>)
    requires log != [] && BaseAgrees(s, Front(log))
    ensures BaseAgrees(s, log)
  {
    UsersAgree(s, log);
    HoldersAgree(s, log);
    GrantsAgree(s, log);
    assert References(Run(s, log).base) by {
      RunFront(s, log);
    }
  }

  /** Over every run, aborts or not, the base tables hold exactly what the requests add up to. */
  lemma {:induction false} BaseIsAccount(s: State, log: seq<Action>)
    requires References(s.base)
    ensures BaseAgrees(s, log)
    decreases |log|
  {
    if log == [] {
    } else {
      BaseIsAccount(s, Front(log));
      StepAgrees(s, log);
    }
  }

  /** Main result for a reader of the view: when the queue of a run without aborts is empty, a user
      has a role-derived permission exactly if the requests add up to it. */
  lemma ViewIsAccount(s: State, log: seq<Action>)
    requires Converging(s) && NoAbort(s, log) && Run(s, log).queue == []
    ensures forall u: UserId, p: PermissionId, r: RoleId ::
              Row(u, p, Some(r)) in Run(s, log).view <==> HoldsRole(s, log, u, r) && RoleGrants(s, log, r, p)
  {
    ViewConverges(s, log);
    BaseIsAccount(s, log);
    forall u: UserId, p: PermissionId, r: RoleId
      ensures Row(u, p, Some(r)) in Run(s, log).view <==> HoldsRole(s, log, u, r) && RoleGrants(s, log, r, p)
    {
      var b, x := Run(s, log).base, Row(u, p, Some(r));
      assert x in Run(s, log).view <==> Wanted(b, x);
      assert (u, r) in b.held <==> HoldsRole(s, log, u, r);
      assert r in b.roles && p in b.roles[r] <==> RoleGrants(s, log, r, p);
    }
  }

  lemma {:induction false} GrantsAreMentioned(s: State, log: seq<Action>, r: RoleId, p: PermissionId)
    requires RoleGrants(s, log, r, p)
    ensures p in Mentioned(s, log, r)
    decreases |log|
  {
    if log == [] {
    } else if RoleGrants(s, Front(log), r, p) {
      GrantsAreMentioned(s, Front(log), r, p);
    }
  }

  lemma GrantedIsRole(s: State, log: seq<Action>, r: RoleId)
    requires BaseAgrees(s, log) && r in Run(s, log).base.roles
    ensures Run(s, log).base.roles[r] == Granted(s, log, r)
  {
    var role := Run(s, log).base.roles[r];
    forall p ensures p in role <==> p in Granted(s, log, r) {
      assert p in role <==> RoleGrants(s, log, r, p);
      if RoleGrants(s, log, r, p) {
        GrantsAreMentioned(s, log, r, p);
      }
    }
  }

  lemma SentIsAppended(s: State, log: seq<Action>)
    requires log != [] && BaseAgrees(s, Front(log))
    ensures var now := Run(s, Front(log));
            !Last(log).RunTask? ==> Step(now, Last(log)).0.queue == now.queue + SentLast(s, log)
  {
    var now, a := Run(s, Front(log)), Last(log);
    match a
    case Add(u, r) =>
      assert (u, r) in now.base.held <==> HoldsRole(s, Front(log), u, r);
    case Remove(u, r) =>
      assert (u, r) in now.base.held <==> HoldsRole(s, Front(log), u, r);
    case Update(known, r, wanted) =>
      if r in now.base.roles {
        GrantedIsRole(s, Front(log), r);
        assert forall p :: p in now.base.roles[r] <==> RoleGrants(s, Front(log), r, p);
        assert (set p | p in wanted && !RoleGrants(s, Front(log), r, p)) == wanted - now.base.roles[r];
      }
    case _ =>
  }

  lemma QueueStep(s: State, log: seq<Action>)
    requires log != [] && BaseAgrees(s, Front(log))
    requires Run(s, Front(log)).queue == Sent(s, Front(log))[Taken(s, Front(log))..]
    ensures Run(s, log).queue == Sent(s, log)[Taken(s, log)..]
  {
    var before, now := Front(log), Run(s, Front(log));
    RunFront(s, log);
    if Last(log).RunTask? {
      assert SentLast(s, log) == [] && Sent(s, log) == Sent(s, before);
      assert Run(s, log).queue == if now.queue == [] then [] else now.queue[1..];
    } else {
      SentIsAppended(s, log);
      assert Taken(s, log) == Taken(s, before);
      assert Sent(s, log)[Taken(s, before)..] == Sent(s, before)[Taken(s, before)..] + SentLast(s, log);
    }
  }

  /** And the queue holds exactly the tasks sent and not yet taken, in the order sent: one for an
      addition, two for a removal, one with the two differences for an update. */
  lemma {:induction false} QueueIsAccount(s: State, log: seq<Action>)
    requires References(s.base)
    ensures Run(s, log).queue == Sent(s, log)[Taken(s, log)..]
    decreases |log|
  {
    if log == [] {
    } else {
      QueueIsAccount(s, Front(log));
      BaseIsAccount(s, Front(log));
      QueueStep(s, log);
    }
  }

  // ---- what a request answers ----

  /** Each request is refused for the reason its caller can see, and for no other. */
  lemma AnswersAre(s: State, log: seq<Action>, u: UserId, r: RoleId,
                   known: set<PermissionId>, wanted: set<PermissionId>)
    requires References(s.base)
    ensures var now := Run(s, log);
            var there := UserThere(s, log, u) && RoleThere(s, log, r);
            var add, remove := AddRole(now, u, r, true).1, DeleteRole(now, u, r, true).1;
            var update := UpdateRole(now, known, r, wanted).1;
            && (add == UserMissing <==> !UserThere(s, log, u)) && (remove == UserMissing <==> !UserThere(s, log, u))
            && (add == AlreadyHeld <==> HoldsRole(s, log, u, r)) && (remove == Done <==> HoldsRole(s, log, u, r))
            && (add == Done <==> there && !HoldsRole(s, log, u, r))
            && (remove == NotHeld <==> there && !HoldsRole(s, log, u, r))
            && (add == RoleMissing <==> UserThere(s, log, u) && !RoleThere(s, log, r))
            && (remove == RoleMissing <==> UserThere(s, log, u) && !RoleThere(s, log, r))
            && (update == RoleMissing <==> !RoleThere(s, log, r))
            && (update == UnknownPermission <==> RoleThere(s, log, r) && exists p :: p in wanted && p !in known)
            && (update == Done <==> RoleThere(s, log, r) && forall p :: p in wanted ==> p in known)
  {
    BaseIsAccount(s, log);
    var b := Run(s, log).base;
    assert (u, r) in b.held <==> HoldsRole(s, log, u, r);
    assert References(b);
  }

  /** A role change without the worker changes the base tables in the same way and answers the same,
      unless its insert collides; it sends nothing, but a removal still sends one of its tasks. */
  lemma InlineIsTheSameChange(s: State, u: UserId, r: RoleId)
    ensures AddRole(s, u, r, false).0.base == AddRole(s, u, r, true).0.base
    ensures DeleteRole(s, u, r, false).0.base == DeleteRole(s, u, r, true).0.base
    ensures AddRole(s, u, r, false).1 in {AddRole(s, u, r, true).1, Duplicate}
    ensures DeleteRole(s, u, r, false).1 == DeleteRole(s, u, r, true).1
    ensures AddRole(s, u, r, false).0.queue == s.queue
    ensures DeleteRole(s, u, r, false).0.queue
            == s.queue + if DeleteRole(s, u, r, true).1 == Done then [Deleted(u, r)] else []
  {
  }

  /** After a removal the user has nothing from the role, at once without the worker and once the
      queue has drained with it, from every state that guarded runs reach. */
  lemma RemovalRemoves(s: State, u: UserId, r: RoleId, p: PermissionId)
    requires Fine(s) && (u, r) in s.base.held
    ensures DeleteRole(s, u, r, true).1 == Done && (u, r) !in DeleteRole(s, u, r, true).0.base.held
    ensures Row(u, p, Some(r)) !in Drain(DeleteRole(s, u, r, true).0).view
    ensures Row(u, p, Some(r)) !in DeleteRole(s, u, r, false).0.view
  {
    var s' := DeleteRole(s, u, r, true).0;
    RemoveFine(s, u, r);
    FineDrains(s');
    assert !Wanted(s'.base, Row(u, p, Some(r)));
  }

  /** A task stops on a missing role, then on a missing user, and otherwise aborts or is done. */
  lemma TaskAnswersAre(b: Base, view: set<Row>, t: Task)
    ensures var outcome := Execute(b, view, t).1;
            && (outcome == RoleMissing <==> t.role !in b.roles)
            && (outcome == UserMissing <==> t.role in b.roles && !t.Updated? && t.user !in b.users)
            && outcome in {RoleMissing, UserMissing, Duplicate, Done}
            && (outcome != Done ==> Execute(b, view, t).0 == view)
  {
  }
}
