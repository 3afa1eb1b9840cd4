/** Per-account lockout with a progressive ladder: the repository applies the durations, the
    service decides when to audit from its own copy of the thresholds. */
module AccountLockout {
  import opened Options

  type UserId = nat
  type Time = real  // seconds

  datatype Lockout = Lockout(failedCount: nat, lockedUntil: Option<Time>)

  type Table = map<UserId, Lockout>

  /** The repository's ladder. */
  const REPOSITORY_LADDER: map<nat, Time> := map[5 := 60.0, 10 := 300.0, 20 := 900.0, 50 := 86400.0]

  /** The service's own copy. */
  const SERVICE_LADDER: seq<(nat, Time)> := [(5, 60.0), (10, 300.0), (20, 900.0), (50, 86400.0)]

  datatype Audit = Locked(user: UserId, failedCount: nat) | AutoUnlocked(user: UserId, failedCount: nat)

  datatype Verdict = Passed | AccountLocked(retryAfter: int)

  function WaitSeconds(until: Time, now: Time): int
    requires now < until
  {
    var whole := (until - now).Floor;
    if whole < 1 then 1 else whole
  }

  function CheckLocked(t: Table, u: UserId, now: Time): (Table, Verdict) {
    if u !in t || t[u].lockedUntil == None then (t, Passed)
    else if t[u].lockedUntil.value <= now then (t[u := Lockout(t[u].failedCount, None)], Passed)
    else (t, AccountLocked(WaitSeconds(t[u].lockedUntil.value, now)))
  }

  function IncrementAndApplyLadder(t: Table, u: UserId, now: Time): Table {
    var row := if u in t then t[u] else Lockout(0, None);
    var count := row.failedCount + 1;
    t[u := Lockout(count, if count in REPOSITORY_LADDER then Some(now + REPOSITORY_LADDER[count]) else row.lockedUntil)]
  }

  /** Does recording a failure that leads to this row audit a lock? */
  predicate AuditsLock(row: Lockout) {
    (exists i :: 0 <= i < |SERVICE_LADDER| && SERVICE_LADDER[i].0 == row.failedCount) && row.lockedUntil.Some?
  }

  function Clear(t: Table, u: UserId): Table {
    if u in t then t[u := Lockout(0, None)] else t
  }

  class LockoutService {
    var rows: Table
    var audits: seq<Audit>

    constructor ()
      ensures rows == map[] && audits == []
    {
      rows, audits := map[], [];
    }

    method Check(u: UserId, now: Time) returns (verdict: Verdict)
      modifies this
      ensures (rows, verdict) == CheckLocked(old(rows), u, now)
      ensures audits == old(audits) + if rows != old(rows) then [AutoUnlocked(u, old(rows)[u].failedCount)] else []
    {
      if u !in rows || rows[u].lockedUntil == None {
        return Passed;
      }
      var row := rows[u];
      if row.lockedUntil.value <= now {
        rows := rows[u := Lockout(row.failedCount, None)];
        audits := audits + [AutoUnlocked(u, row.failedCount)];
        assert rows[u] != old(rows)[u];
        return Passed;
      }
      verdict := AccountLocked(WaitSeconds(row.lockedUntil.value, now));
    }

    method RecordFailed(u: UserId, now: Time)
      modifies this
      ensures rows == IncrementAndApplyLadder(old(rows), u, now)
      ensures audits == old(audits) + if AuditsLock(rows[u]) then [Locked(u, rows[u].failedCount)] else []
    {
      if u !in rows {
        rows := rows[u := Lockout(1, if 1 in REPOSITORY_LADDER then Some(now + REPOSITORY_LADDER[1]) else None)];
      } else {
        var row := rows[u];
        var count := row.failedCount + 1;
        row := row.(failedCount := count);
        if count in REPOSITORY_LADDER {
          row := row.(lockedUntil := Some(now + REPOSITORY_LADDER[count]));
        }
        rows := rows[u := row];
      }
      var crossed := false;
      for i := 0 to |SERVICE_LADDER|
        invariant crossed <==> exists j :: 0 <= j < i && SERVICE_LADDER[j].0 == rows[u].failedCount
      {
        crossed := crossed || SERVICE_LADDER[i].0 == rows[u].failedCount;
      }
      if crossed && rows[u].lockedUntil.Some? {
        audits := audits + [Locked(u, rows[u].failedCount)];
      }
    }

    method Reset(u: UserId)
      modifies this
      ensures rows == Clear(old(rows), u) && audits == old(audits)
    {
      if u !in rows {
        return;
      }
      rows := rows[u := Lockout(0, None)];
    }
  }

  // ---- runs ----

  datatype Event = CheckEvent(u: UserId, now: Time) | FailedEvent(u: UserId, now: Time) | ResetEvent(u: UserId)

  /** Every call a run has made, the latest outermost. */
  datatype Run = Start(begin: Time) | Then(earlier: Run, last: Event)

  function Replay(r: Run): Table {
    match r
    case Start(_) => map[]
    case Then(earlier, CheckEvent(u, now)) => CheckLocked(Replay(earlier), u, now).0
    case Then(earlier, FailedEvent(u, now)) => IncrementAndApplyLadder(Replay(earlier), u, now)
    case Then(earlier, ResetEvent(u)) => Clear(Replay(earlier), u)
  }

  function Clock(r: Run): Time {
    match r
    case Start(t) => t
    case Then(earlier, ResetEvent(_)) => Clock(earlier)
    case Then(_, e) => e.now
  }

  predicate ClockForward(r: Run) {
    r.Then? ==> ClockForward(r.earlier) && (r.last.ResetEvent? || Clock(r.earlier) <= r.last.now)
  }

  function FailuresSinceReset(r: Run, u: UserId): nat {
    match r
    case Start(_) => 0
    case Then(earlier, e) =>
      if e.u != u then FailuresSinceReset(earlier, u)
      else if e.ResetEvent? then 0
      else FailuresSinceReset(earlier, u) + if e.FailedEvent? then 1 else 0
  }

  function LocksAuditedSinceReset(r: Run, u: UserId): nat {
    match r
    case Start(_) => 0
    case Then(earlier, e) =>
      if e.u != u then LocksAuditedSinceReset(earlier, u)
      else if e.ResetEvent? then 0
      else LocksAuditedSinceReset(earlier, u) + if e.FailedEvent? && AuditsLock(Replay(r)[u]) then 1 else 0
  }

  /** How many rungs are at or below `n`, and the sum of their durations. */
  function Rungs(n: nat): nat {
    if n < 5 then 0 else if n < 10 then 1 else if n < 20 then 2 else if n < 50 then 3 else 4
  }

  function TotalLock(n: nat): Time {
    if n < 5 then 0.0 else if n < 10 then 60.0 else if n < 20 then 360.0 else if n < 50 then 1260.0 else 87660.0
  }

  /** The rungs and sums above are those of the ladder. */
  lemma LadderSums(n: nat)
    ensures Rungs(0) == 0 && TotalLock(0) == 0.0
    ensures n + 1 in REPOSITORY_LADDER ==>
              Rungs(n + 1) == Rungs(n) + 1 && TotalLock(n + 1) == TotalLock(n) + REPOSITORY_LADDER[n + 1]
    ensures n + 1 !in REPOSITORY_LADDER ==> Rungs(n + 1) == Rungs(n) && TotalLock(n + 1) == TotalLock(n)
  {
  }

  /** The two tables agree; the audit of every rung rests on it. */
  lemma LaddersAgree(n: nat)
    ensures n in REPOSITORY_LADDER <==> exists i :: 0 <= i < |SERVICE_LADDER| && SERVICE_LADDER[i].0 == n
    ensures forall i :: 0 <= i < |SERVICE_LADDER| ==>
              SERVICE_LADDER[i].0 in REPOSITORY_LADDER && REPOSITORY_LADDER[SERVICE_LADDER[i].0] == SERVICE_LADDER[i].1
  {
    assert SERVICE_LADDER[0].0 == 5 && SERVICE_LADDER[1].0 == 10;
    assert SERVICE_LADDER[2].0 == 20 && SERVICE_LADDER[3].0 == 50;
  }

  function CountOf(t: Table, u: UserId): nat {
    if u in t then t[u].failedCount else 0
  }

  function LockOf(t: Table, u: UserId): Option<Time> {
    if u in t then t[u].lockedUntil else None
  }

  /** Over every run, the stored count is the failures since the last reset, across
      auto-unlocks, and each rung at or below it was audited exactly once since. */
  lemma {:induction false} CountsAndAudits(r: Run, u: UserId)
    ensures CountOf(Replay(r), u) == FailuresSinceReset(r, u)
    ensures LocksAuditedSinceReset(r, u) == Rungs(FailuresSinceReset(r, u))
  {
    if r.Start? {
    } else {
      CountsAndAudits(r.earlier, u);
      if r.last.u == u && r.last.FailedEvent? {
        LadderSums(FailuresSinceReset(r.earlier, u));
        LaddersAgree(FailuresSinceReset(r, u));
      }
    }
  }

  /** The duration of the highest rung at or below `n`. */
  function LongestLock(n: nat): Time {
    if n < 5 then 0.0 else if n < 10 then 60.0 else if n < 20 then 300.0 else if n < 50 then 900.0 else 86400.0
  }

  lemma {:induction false} LockIsBounded(r: Run, u: UserId)
    requires ClockForward(r)
    ensures LockOf(Replay(r), u).Some? ==>
              LockOf(Replay(r), u).value <= Clock(r) + LongestLock(CountOf(Replay(r), u))
  {
    if r.Start? {
    } else {
      LockIsBounded(r.earlier, u);
    }
  }

  /** With a clock that never goes back, nothing but a reset moves an active lock earlier. */
  lemma ActiveLockNeverShortened(r: Run, u: UserId)
    requires ClockForward(r) && r.Then? && r.last != ResetEvent(u)
    requires LockOf(Replay(r.earlier), u).Some? && LockOf(Replay(r.earlier), u).value > Clock(r)
    ensures LockOf(Replay(r), u).Some? && LockOf(Replay(r), u).value >= LockOf(Replay(r.earlier), u).value
  {
    LockIsBounded(r.earlier, u);
  }

  // ---- the account of a lock ----

  /** How long each number of failures locks for. */
  function LockFor(failures: nat): Option<Time> {
    if failures == 5 then Some(60.0)
    else if failures == 10 then Some(300.0)
    else if failures == 20 then Some(900.0)
    else if failures == 50 then Some(86400.0)
    else None
  }

  /** The lock that a user's own events add up to: each rung sets it anew, a check at or after its
      end lifts it, a reset ends it. */
  function LockAccount(r: Run, u: UserId): Option<Time> {
    match r
    case Start(_) => None
    case Then(earlier, e) =>
      var before := LockAccount(earlier, u);
      if e.u != u then before
      else match e
        case ResetEvent(_) => None
        case FailedEvent(_, now) =>
          var duration := LockFor(FailuresSinceReset(r, u));
          if duration.Some? then Some(now + duration.value) else before
        case CheckEvent(_, now) => if before.Some? && before.value <= now then None else before
  }

  /** Over every run the stored lock is exactly that. */
  lemma {:induction false} LockIsAccount(r: Run, u: UserId)
    ensures LockOf(Replay(r), u) == LockAccount(r, u)
  {
    match r
    case Start(_) =>
    case Then(earlier, _) =>
      LockIsAccount(earlier, u);
      CountsAndAudits(earlier, u);
  }

  /** What a check answers after any run: it passes exactly when there is no lock or its end has
      come, and then leaves none, with the count kept; otherwise it raises with the whole seconds
      left, at least one, and changes nothing. */
  lemma CheckAnswers(r: Run, u: UserId, now: Time)
    ensures var (t, verdict), lock := CheckLocked(Replay(r), u, now), LockAccount(r, u);
            && (verdict == Passed <==> lock == None || lock.value <= now)
            && (verdict == Passed ==> LockOf(t, u) == None && CountOf(t, u) == FailuresSinceReset(r, u))
            && (verdict != Passed ==>
                  t == Replay(r) && var left := lock.value - now;
                  if left < 1.0 then verdict.retryAfter == 1
                  else verdict.retryAfter as real <= left < verdict.retryAfter as real + 1.0)
            && (forall v :: v != u ==> LockOf(t, v) == LockOf(Replay(r), v))
  {
    LockIsAccount(r, u);
    CountsAndAudits(r, u);
  }

  predicate EverFailed(r: Run, u: UserId) {
    r.Then? && ((r.last.FailedEvent? && r.last.u == u) || EverFailed(r.earlier, u))
  }

  /** Only a failure creates a row, and nothing removes one. */
  lemma {:induction false} RowsComeFromFailures(r: Run, u: UserId)
    ensures u in Replay(r) <==> EverFailed(r, u)
  {
    if r.Start? {
    } else {
      RowsComeFromFailures(r.earlier, u);
    }
  }

  /** No lock outlasts its rung: with a clock that never goes back, a check made once the longest
      lock reached has had its time passes. */
  lemma LocksEnd(r: Run, u: UserId, now: Time)
    requires ClockForward(r) && now >= Clock(r) + LongestLock(FailuresSinceReset(r, u))
    ensures CheckLocked(Replay(r), u, now).1 == Passed
  {
    LockIsBounded(r, u);
    CountsAndAudits(r, u);
  }

  predicate ExtendsWithoutReset(r: Run, first: Run, u: UserId) {
    r == first || (r.Then? && r.last != ResetEvent(u) && ExtendsWithoutReset(r.earlier, first, u))
  }

  lemma {:induction false} LockHolds(first: Run, r: Run, u: UserId)
    requires ClockForward(r) && ExtendsWithoutReset(r, first, u)
    requires LockOf(Replay(first), u).Some? && Clock(r) < LockOf(Replay(first), u).value
    ensures LockOf(Replay(r), u).Some? && LockOf(Replay(r), u).value >= LockOf(Replay(first), u).value
  {
    if r == first {
    } else {
      LockHolds(first, r.earlier, u);
      ActiveLockNeverShortened(r, u);
    }
  }

  /** A failure that reaches a rung locks the account for that rung's whole duration: until a
      reset, every check before its end raises, with a wait of at least one second that is not
      longer than what is left, rounded up to one. */
  lemma RungLocksOut(first: Run, r: Run, u: UserId, now: Time)
    requires first.Then? && first.last.FailedEvent? && first.last.u == u
    requires FailuresSinceReset(first, u) in REPOSITORY_LADDER
    requires ExtendsWithoutReset(r, first, u) && ClockForward(Then(r, CheckEvent(u, now)))
    requires now < first.last.now + REPOSITORY_LADDER[FailuresSinceReset(first, u)]
    ensures var verdict := CheckLocked(Replay(r), u, now).1;
            && verdict.AccountLocked? && 1 <= verdict.retryAfter
            && var left := LockOf(Replay(r), u).value - now;
               left - 1.0 < verdict.retryAfter as real && (left >= 1.0 ==> verdict.retryAfter as real <= left)
  {
    CountsAndAudits(first, u);
    LockHolds(first, r, u);
  }

  /** The latest event of this user is a check that passed: the login route's discipline. */
  predicate JustPassed(r: Run, u: UserId) {
    r.Then? &&
    if r.last.u != u then JustPassed(r.earlier, u)
    else r.last.CheckEvent? && CheckLocked(Replay(r.earlier), u, r.last.now).1 == Passed
  }

  predicate Disciplined(r: Run) {
    r.Then? ==> Disciplined(r.earlier) && (r.last.FailedEvent? ==> JustPassed(r.earlier, r.last.u))
  }

  function FirstFailure(r: Run, u: UserId): Option<Time> {
    match r
    case Start(_) => None
    case Then(earlier, e) =>
      if e.u != u then FirstFailure(earlier, u)
      else if e.ResetEvent? then None
      else if e.FailedEvent? && FirstFailure(earlier, u) == None then Some(e.now)
      else FirstFailure(earlier, u)
  }

  lemma {:induction false} PassedMeansUnlocked(r: Run, u: UserId)
    requires JustPassed(r, u)
    ensures LockOf(Replay(r), u) == None
  {
    if r.last.u != u {
      PassedMeansUnlocked(r.earlier, u);
    }
  }

  lemma {:induction false} LocksAddUp(r: Run, u: UserId)
    requires ClockForward(r) && Disciplined(r)
    ensures FirstFailure(r, u).Some? <==> FailuresSinceReset(r, u) > 0
    ensures FirstFailure(r, u).Some? ==>
              var due := FirstFailure(r, u).value + TotalLock(FailuresSinceReset(r, u));
              match LockOf(Replay(r), u)
              case Some(until) => until >= due
              case None => Clock(r) >= due
  {
    if r.Start? {
    } else {
      LocksAddUp(r.earlier, u);
      if r.last.u == u && r.last.FailedEvent? {
        CountsAndAudits(r.earlier, u);
        PassedMeansUnlocked(r.earlier, u);
        LadderSums(FailuresSinceReset(r.earlier, u));
      }
    }
  }

  /** If every recorded failure follows a passing check, the n-th failure since the last reset
      comes no sooner after the first than all the locks below n take together. */
  lemma FailuresAreSpaced(r: Run, u: UserId)
    requires ClockForward(r) && Disciplined(r)
    requires r.Then? && r.last.FailedEvent? && r.last.u == u
    ensures FirstFailure(r, u).Some?
    ensures r.last.now - FirstFailure(r, u).value >= TotalLock(FailuresSinceReset(r, u) - 1)
    ensures FailuresSinceReset(r, u) > 50 ==>
              r.last.now - FirstFailure(r, u).value >= 60.0 + 300.0 + 900.0 + 86400.0
  {
    LocksAddUp(r.earlier, u);
    PassedMeansUnlocked(r.earlier, u);
  }

  function Hammer(u: UserId, n: nat): Run {
    if n == 0 then Start(0.0) else Then(Hammer(u, n - 1), FailedEvent(u, 0.0))
  }

  /** The checks are what spaces failures out: without them any number fits in one instant. */
  lemma {:induction false} UncheckedFailuresAreNotSpaced(u: UserId, n: nat)
    requires n > 0
    ensures ClockForward(Hammer(u, n)) && FailuresSinceReset(Hammer(u, n), u) == n
    ensures FirstFailure(Hammer(u, n), u) == Some(0.0) && Hammer(u, n).last.now == 0.0
  {
    if n <= 1 {
    } else {
      UncheckedFailuresAreNotSpaced(u, n - 1);
    }
  }
}
