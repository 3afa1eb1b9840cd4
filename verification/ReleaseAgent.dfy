/** The release agent: one run picks a build, deploys it and records it in two files, and may be
    killed or fail at any point; the next run resumes from what the files say. */
module ReleaseAgent {
  import opened Options

  /** A build is identified by its workflow run and attempt; `image` is the rest of the release. */
  datatype Target = Target(runId: int, runAttempt: int, image: string)

  datatype Receipt = Receipt(target: Target, success: bool)

  /** The two files, and every target handed to the cluster so far. */
  datatype State = State(pending: Option<Target>, latest: Option<Receipt>, deployed: seq<Target>)

  predicate Older(a: Target, b: Target) {
    a.runId < b.runId || (a.runId == b.runId && a.runAttempt < b.runAttempt)
  }

  datatype Choice = Nothing | RefuseOlder | Go(target: Target)

  function Choose(pending: Option<Target>, candidate: Option<Target>, previous: Option<Receipt>): Choice {
    if pending.Some? then Go(pending.value)
    else if candidate == None then Nothing
    else if previous == None then Go(candidate.value)
    else
      var before, after := previous.value.target, candidate.value;
      if Older(after, before) then RefuseOlder
      else if !Older(before, after) && previous.value.success then Nothing
      else Go(after)
  }

  /** How one effect goes: done, an exception instead of it, or the process killed before or
      after it. File writes are atomic renames. */
  datatype Fate = Goes | Raises | DiesBefore | DiesAfter

  /** The fates of a run's effects, in the order the code performs them. */
  datatype Script = Script(
    savePending: Fate, reportPending: Fate, deploy: Fate, reportSuccess: Fate,
    saveSuccess: Fate, unlinkPending: Fate, saveFailure: Fate)

  predicate Happens(f: Fate) {
    f.Goes? || f.DiesAfter?
  }

  function Fail(s: State, t: Target, saveFailure: Fate): State {
    if Happens(saveFailure) then s.(latest := Some(Receipt(t, false))) else s
  }

  /** The last effects: recording the success, then dropping the pending file. */
  function Finish(s: State, t: Target, f: Script): State {
    if f.saveSuccess.Raises? then Fail(s, t, f.saveFailure)
    else if f.saveSuccess.DiesBefore? then s
    else
      var saved := s.(latest := Some(Receipt(t, true)));
      if f.saveSuccess.DiesAfter? || f.unlinkPending.DiesBefore? then saved
      else if f.unlinkPending.Raises? then Fail(saved, t, f.saveFailure)
      else saved.(pending := None)
  }

  function Deploy(s: State, t: Target, f: Script): State {
    if f.deploy.DiesBefore? then s
    else
      var tried := s.(deployed := s.deployed + [t]);
      if f.deploy.DiesAfter? then tried
      else if f.deploy.Raises? || f.reportSuccess.Raises? then Fail(tried, t, f.saveFailure)
      else if !f.reportSuccess.Goes? then tried
      else Finish(tried, t, f)
  }

  /** One run; `candidate` is the newest successful build, looked up only if nothing is pending. */
  function RunOnce(s: State, candidate: Option<Target>, apply: bool, f: Script): State {
    var choice := Choose(s.pending, if s.pending.Some? then None else candidate, s.latest);
    if !choice.Go? || !apply then s
    else
      var t := choice.target;
      var saved := if Happens(f.savePending) then s.(pending := Some(t)) else s;
      if !f.savePending.Goes? || !f.reportPending.Goes? then saved else Deploy(saved, t, f)
  }

  class Agent {
    var pending: Option<Target>
    var latest: Option<Receipt>
    var deployed: seq<Target>

    ghost function Abstract(): State
      reads this
    {
      State(pending, latest, deployed)
    }

    constructor ()
      ensures Abstract() == State(None, None, [])
    {
      pending, latest, deployed := None, None, [];
    }

    /** The body of the `try`: false if an exception reaches the handler. `dead` is set when
        the process is killed. */
    method Attempt(t: Target, f: Script) returns (ok: bool, dead: bool)
      modifies this
      ensures ok || dead ==> Abstract() == Deploy(old(Abstract()), t, f)
      ensures !ok && !dead ==> Fail(Abstract(), t, f.saveFailure) == Deploy(old(Abstract()), t, f)
    {
      ok, dead := false, false;
      if f.deploy.DiesBefore? {
        return false, true;
      }
      deployed := deployed + [t];
      if !f.deploy.Goes? {
        return false, f.deploy.DiesAfter?;
      }
      if !f.reportSuccess.Goes? {
        return false, !f.reportSuccess.Raises?;
      }
      if Happens(f.saveSuccess) {
        latest := Some(Receipt(t, true));
      }
      if !f.saveSuccess.Goes? {
        return false, !f.saveSuccess.Raises?;
      }
      if Happens(f.unlinkPending) {
        pending := None;
      }
      return f.unlinkPending.Goes?, f.unlinkPending.DiesBefore? || f.unlinkPending.DiesAfter?;
    }

    method Run(candidate: Option<Target>, apply: bool, f: Script)
      modifies this
      ensures Abstract() == RunOnce(old(Abstract()), candidate, apply, f)
    {
      var choice := Choose(pending, if pending.Some? then None else candidate, latest);
      if !choice.Go? || !apply {
        return;
      }
      var t := choice.target;
      if Happens(f.savePending) {
        pending := Some(t);
      }
      if !f.savePending.Goes? || !f.reportPending.Goes? {
        return;
      }
      var ok, dead := Attempt(t, f);
      if !ok && !dead && Happens(f.saveFailure) {
        latest := Some(Receipt(t, false));
      }
    }
  }

  // ---- runs ----

  datatype Input = Input(candidate: Option<Target>, apply: bool, script: Script)

  /** Any number of runs, the latest outermost. */
  datatype History = Fresh | Then(earlier: History, last: Input)

  function Replay(h: History): State {
    match h
    case Fresh => State(None, None, [])
    case Then(earlier, i) => RunOnce(Replay(earlier), i.candidate, i.apply, i.script)
  }

  predicate NeverBackwards(deployed: seq<Target>) {
    forall i, j :: 0 <= i < j < |deployed| ==> !Older(deployed[j], deployed[i])
  }

  /** Nothing deployed so far is newer than `t`. */
  predicate Newest(t: Target, deployed: seq<Target>) {
    forall i :: 0 <= i < |deployed| ==> !Older(t, deployed[i])
  }

  ghost predicate Consistent(s: State) {
    && NeverBackwards(s.deployed)
    && (s.pending.Some? ==> Newest(s.pending.value, s.deployed))
    && (s.pending.Some? && s.latest.Some? ==> !Older(s.pending.value, s.latest.value.target))
    && (s.pending == None ==> if s.latest == None then s.deployed == []
                              else s.latest.value.success && Newest(s.latest.value.target, s.deployed))
    && (s.latest.Some? ==> s.latest.value.target in s.deployed)
  }

  lemma ChoiceIsNewest(s: State, candidate: Option<Target>)
    requires Consistent(s)
    requires Choose(s.pending, candidate, s.latest).Go?
    ensures Consistent(s.(pending := Some(Choose(s.pending, candidate, s.latest).target)))
  {
  }

  lemma DeployKeepsConsistent(s: State, t: Target, f: Script)
    requires Consistent(s) && s.pending == Some(t)
    ensures Consistent(Deploy(s, t, f))
  {
    var tried := s.(deployed := s.deployed + [t]);
    assert tried.deployed[|s.deployed|] == t;
    assert forall j :: 0 <= j < |s.deployed| ==> tried.deployed[j] == s.deployed[j];
    assert Consistent(tried) && t in tried.deployed;
    assert Consistent(Fail(tried, t, f.saveFailure)) && Consistent(Finish(tried, t, f));
  }

  lemma RunKeepsConsistent(s: State, i: Input)
    requires Consistent(s)
    ensures Consistent(RunOnce(s, i.candidate, i.apply, i.script))
  {
    var candidate := if s.pending.Some? then None else i.candidate;
    var choice := Choose(s.pending, candidate, s.latest);
    if choice.Go? {
      ChoiceIsNewest(s, candidate);
      DeployKeepsConsistent(s.(pending := Some(choice.target)), choice.target, i.script);
    }
  }

  /** Safety over every history of runs, failures and kills: deployments never go back to an
      older build, the pending build is never older than the recorded one, and a recorded build
      was deployed; with nothing pending, the record is a success. */
  lemma {:induction false} NeverAnOlderBuild(h: History)
    ensures var s := Replay(h);
            && NeverBackwards(s.deployed)
            && (s.pending.Some? && s.latest.Some? ==> !Older(s.pending.value, s.latest.value.target))
            && (s.latest.Some? ==> s.latest.value.target in s.deployed)
            && (s.pending == None && s.latest.Some? ==> s.latest.value.success)
    ensures Consistent(Replay(h))
  {
    if h.Fresh? {
    } else {
      NeverAnOlderBuild(h.earlier);
      RunKeepsConsistent(Replay(h.earlier), h.last);
    }
  }

  predicate Extends(h: History, first: History) {
    h == first || (h.Then? && Extends(h.earlier, first))
  }

  /** The build `t` is behind: what may still be deployed is strictly newer. */
  predicate Past(s: State, t: Target) {
    if s.pending.Some? then Older(t, s.pending.value)
    else s.latest.Some? && s.latest.value.success && !Older(s.latest.value.target, t)
  }

  predicate SameBuild(a: Target, b: Target) {
    a.runId == b.runId && a.runAttempt == b.runAttempt
  }

  /** A success of `t` is recorded, and its own pending file is still there. */
  predicate Unfinished(s: State, t: Target) {
    s.pending.Some? && SameBuild(s.pending.value, t)
  }

  predicate Recorded(s: State, t: Target) {
    s.latest == Some(Receipt(t, true))
  }

  /** Once a build's success is recorded and it is not pending, everything deployed from then on is
      strictly newer: that build is never deployed again. */
  lemma {:induction false} SuccessIsFinal(first: History, h: History, t: Target)
    requires Extends(h, first)
    requires Recorded(Replay(first), t) && !Unfinished(Replay(first), t)
    ensures |Replay(first).deployed| <= |Replay(h).deployed|
    ensures forall i :: |Replay(first).deployed| <= i < |Replay(h).deployed| ==> Older(t, Replay(h).deployed[i])
    ensures Past(Replay(h), t)
  {
    if h == first {
      NeverAnOlderBuild(first);
    } else {
      SuccessIsFinal(first, h.earlier, t);
      RunStaysPast(Replay(h.earlier), h.last, t);
    }
  }

  lemma RunStaysPast(s: State, i: Input, t: Target)
    requires Past(s, t)
    ensures var s' := RunOnce(s, i.candidate, i.apply, i.script);
            Past(s', t)
            && (s'.deployed == s.deployed || exists u :: Older(t, u) && s'.deployed == s.deployed + [u])
  {
  }

  const ALL_FINE := Script(Goes, Goes, Goes, Goes, Goes, Goes, Goes)

  /** The pending file is what makes a success final: killed between recording the success and
      dropping the file, the agent deploys the same build again, whatever is newest by then. */
  lemma KilledBeforeUnlinkRedeploys(t: Target, candidate: Option<Target>)
    ensures var killed := Input(Some(t), true, ALL_FINE.(unlinkPending := DiesBefore));
            var h := Then(Then(Fresh, killed), Input(candidate, true, ALL_FINE));
            Replay(Then(Fresh, killed)).latest == Some(Receipt(t, true))
            && Replay(h).deployed == [t, t] && Replay(h).latest == Some(Receipt(t, true)) && Replay(h).pending == None
  {
    var killed := Input(Some(t), true, ALL_FINE.(unlinkPending := DiesBefore));
    var s := Replay(Then(Fresh, killed));
    assert Replay(Fresh) == State(None, None, []);
    assert s == State(Some(t), Some(Receipt(t, true)), [t]);
  }

  /** A run that meets no fault leaves the chosen build deployed, recorded and not pending. */
  lemma CleanRunCompletes(s: State, candidate: Option<Target>)
    ensures var choice := Choose(s.pending, if s.pending.Some? then None else candidate, s.latest);
            choice.Go? ==>
              RunOnce(s, candidate, true, ALL_FINE)
              == State(None, Some(Receipt(choice.target, true)), s.deployed + [choice.target])
  {
  }

  /** Does this run hand the build to the cluster again? */
  predicate Redeploys(s: State, i: Input, t: Target) {
    var s' := RunOnce(s, i.candidate, i.apply, i.script);
    |s'.deployed| > |s.deployed| && SameBuild(s'.deployed[|s.deployed|], t)
  }

  /** The faults that keep a run from reaching the deployment. */
  predicate ReachesDeploy(i: Input) {
    i.apply && i.script.savePending.Goes? && i.script.reportPending.Goes? && !i.script.deploy.DiesBefore?
  }

  lemma DeployAdds(s: State, t: Target, f: Script)
    ensures Deploy(s, t, f).deployed == if f.deploy.DiesBefore? then s.deployed else s.deployed + [t]
  {
  }

  /** After any history that left a success of `t` recorded, a run deploys `t` again exactly when it
      gets as far as deploying and the pending file of `t` is still there. */
  lemma RedeploysIffUnfinished(h: History, i: Input, t: Target)
    requires Recorded(Replay(h), t)
    ensures Redeploys(Replay(h), i, t) <==> ReachesDeploy(i) && Unfinished(Replay(h), t)
  {
    var s := Replay(h);
    NeverAnOlderBuild(h);
    var choice := Choose(s.pending, if s.pending.Some? then None else i.candidate, s.latest);
    if choice.Go? {
      DeployAdds(s.(pending := Some(choice.target)), choice.target, i.script);
    }
  }

  /** Whether some continuation of the history deploys the build again. */
  ghost predicate EverRedeployed(h: History, t: Target) {
    exists h', k :: Extends(h', h) && |Replay(h).deployed| <= k < |Replay(h').deployed|
                    && SameBuild(Replay(h').deployed[k], t)
  }

  /** Over all continuations: a recorded success is ever deployed again exactly when the agent was
      stopped between recording it and dropping its pending file. */
  lemma EverRedeployedIffUnfinished(h: History, t: Target)
    requires Recorded(Replay(h), t)
    ensures EverRedeployed(h, t) <==> Unfinished(Replay(h), t)
  {
    if Unfinished(Replay(h), t) {
      var i := Input(None, true, ALL_FINE);
      RedeploysIffUnfinished(h, i, t);
      var k := |Replay(h).deployed|;
      assert Extends(h, h) && Extends(Then(h, i), h);
      assert k < |Replay(Then(h, i)).deployed| && SameBuild(Replay(Then(h, i)).deployed[k], t);
    } else if h', k :| Extends(h', h) && |Replay(h).deployed| <= k < |Replay(h').deployed|
                       && SameBuild(Replay(h').deployed[k], t)
    {
      SuccessIsFinal(h, h', t);
    }
  }

  /** The agent catches up: whatever happened before, after two runs that meet no fault the
      recorded success is the newest build, if it is not older than what the files held. */
  lemma TwoCleanRunsCatchUp(h: History, newest: Target)
    requires var s := Replay(h);
             && (s.pending.Some? ==> !Older(newest, s.pending.value))
             && (s.latest.Some? ==> !Older(newest, s.latest.value.target))
    ensures var i := Input(Some(newest), true, ALL_FINE);
            var s := Replay(Then(Then(h, i), i));
            && s.pending == None && s.latest.Some? && s.latest.value.success
            && !Older(s.latest.value.target, newest) && !Older(newest, s.latest.value.target)
  {
    var i, s := Input(Some(newest), true, ALL_FINE), Replay(h);
    var once := Replay(Then(h, i));
    NeverAnOlderBuild(h);
    CleanRunCompletes(s, Some(newest));
    assert once.pending == None && once.latest.Some? && once.latest.value.success;
    CleanRunCompletes(once, Some(newest));
  }

  // ---- what one run does, told from its first fault ----

  /** The effects before the handler, in order. */
  function Effects(f: Script): seq<Fate> {
    [f.savePending, f.reportPending, f.deploy, f.reportSuccess, f.saveSuccess, f.unlinkPending]
  }

  /** How many effects are done before the first that is not. */
  function Done(fates: seq<Fate>): (done: nat)
    ensures done <= |fates| && forall k :: 0 <= k < done ==> fates[k].Goes?
    ensures done < |fates| ==> !fates[done].Goes?
  {
    if fates == [] || !fates[0].Goes? then 0
    else
      var rest := Done(fates[1..]);
      assert forall k :: 0 < k < rest + 1 ==> fates[k] == fates[1..][k - 1];
      rest + 1
  }

  /** The k-th effect took place: it was done, or it is the one the process was killed after. */
  predicate TookPlace(f: Script, k: nat)
    requires k < 6
  {
    k < Done(Effects(f)) || (k == Done(Effects(f)) && Effects(f)[k].DiesAfter?)
  }

  /** The first fault is an exception inside the guarded block, and the failure could be saved. */
  predicate RecordsFailure(f: Script) {
    var done := Done(Effects(f));
    2 <= done < 6 && Effects(f)[done].Raises? && Happens(f.saveFailure)
  }

  lemma FirstFault(f: Script)
    ensures Done(Effects(f))
            == if !f.savePending.Goes? then 0 else if !f.reportPending.Goes? then 1 else if !f.deploy.Goes? then 2
               else if !f.reportSuccess.Goes? then 3 else if !f.saveSuccess.Goes? then 4
               else if !f.unlinkPending.Goes? then 5 else 6
  {
    var fates := Effects(f);
    assert fates[0] == f.savePending && fates[1] == f.reportPending && fates[2] == f.deploy;
    assert fates[3] == f.reportSuccess && fates[4] == f.saveSuccess && fates[5] == f.unlinkPending;
    assert |fates| == 6;
  }

  /** The files and the cluster after one run that chose `t`: a failure is recorded exactly when the
      first fault is an exception from the deployment on, else a success exactly when its record was
      written; the pending file is there from its writing to its removal. */
  lemma RunLeaves(s: State, i: Input, t: Target)
    requires Choose(s.pending, if s.pending.Some? then None else i.candidate, s.latest) == Go(t) && i.apply
    ensures var s', f := RunOnce(s, i.candidate, i.apply, i.script), i.script;
            && s'.latest == (if RecordsFailure(f) then Some(Receipt(t, false))
                             else if TookPlace(f, 4) then Some(Receipt(t, true)) else s.latest)
            && s'.pending == (if TookPlace(f, 5) then None else if TookPlace(f, 0) then Some(t) else s.pending)
            && s'.deployed == (if TookPlace(f, 2) || (Done(Effects(f)) == 2 && f.deploy.Raises?)
                               then s.deployed + [t] else s.deployed)
  {
    FirstFault(i.script);
  }

  /** A run that chose nothing, or may not apply, changes nothing. */
  lemma IdleRunChangesNothing(s: State, i: Input)
    requires !Choose(s.pending, if s.pending.Some? then None else i.candidate, s.latest).Go? || !i.apply
    ensures RunOnce(s, i.candidate, i.apply, i.script) == s
  {
  }

  /** The choice, for any contents of the files: what is pending first; else the candidate, unless
      it is the recorded success or older than the record. */
  lemma ChoiceIs(pending: Option<Target>, candidate: Option<Target>, latest: Option<Receipt>, t: Target)
    ensures var choice := Choose(pending, candidate, latest);
            && (choice == Go(t)
                <==> pending == Some(t)
                     || (pending == None && candidate == Some(t)
                         && (latest == None || Older(latest.value.target, t)
                             || (SameBuild(latest.value.target, t) && !latest.value.success))))
            && (choice == RefuseOlder
                <==> pending == None && candidate.Some? && latest.Some? && Older(candidate.value, latest.value.target))
  {
  }

  /** What a run deploys, over every history: the pending build, else the candidate if nothing is
      recorded or it is newer than the record; and exactly that one, image included. */
  lemma RunDeploys(h: History, i: Input, t: Target)
    ensures var s := Replay(h);
            RunOnce(s, i.candidate, i.apply, i.script).deployed == s.deployed + [t]
            <==> ReachesDeploy(i)
                 && (s.pending == Some(t)
                     || (s.pending == None && i.candidate == Some(t)
                         && (s.latest == None || Older(s.latest.value.target, t))))
  {
    var s := Replay(h);
    NeverAnOlderBuild(h);
    var choice := Choose(s.pending, if s.pending.Some? then None else i.candidate, s.latest);
    if choice.Go? {
      DeployAdds(s.(pending := Some(choice.target)), choice.target, i.script);
      assert (s.deployed + [choice.target])[|s.deployed|] == choice.target;
      assert (s.deployed + [t])[|s.deployed|] == t;
    }
    assert s.deployed != s.deployed + [t];
  }

  /** Some applying run was offered this very build. */
  predicate Offered(h: History, t: Target) {
    h.Then? && ((h.last.apply && h.last.candidate == Some(t)) || Offered(h.earlier, t))
  }

  /** Nothing else ever reaches the files or the cluster. */
  lemma {:induction false} OnlyOfferedBuilds(h: History)
    ensures var s := Replay(h);
            && (forall t :: t in s.deployed ==> Offered(h, t))
            && (s.pending.Some? ==> Offered(h, s.pending.value))
            && (s.latest.Some? ==> Offered(h, s.latest.value.target))
  {
    if h.Fresh? {
    } else {
      OnlyOfferedBuilds(h.earlier);
      var s, i := Replay(h.earlier), h.last;
      var choice := Choose(s.pending, if s.pending.Some? then None else i.candidate, s.latest);
      if choice.Go? && i.apply {
        assert Offered(h, choice.target);
        RunLeaves(s, i, choice.target);
      } else {
        IdleRunChangesNothing(s, i);
      }
    }
  }
}
