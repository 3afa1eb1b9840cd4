# Fief: role propagation, limits, devices, MFA, codecs and the release agent

Fief is an authentication server. This project models six of its cores, each a small state
machine or a codec, and proves what holds over every run or every input.

1. **Role permissions.** `user_permissions` is a materialised copy of "who holds which role"
   joined with "which permissions a role has", plus direct grants, and background tasks maintain
   it. The tasks read the base tables when they run, not when they are sent, and a deletion task
   is sent twice. `RoleTables` says what each request and task does, `RoleService` is the stateful
   code proved against it, `RoleConvergence` proves that an empty queue means the view is exactly
   the join, `RoleCollisions` that runs whose requests pass two guards never meet the unique
   constraint, and `RoleAborts` that the guards are exact: exactly when the next request makes the
   queue abort, and exactly when the drained view is then wrong, whatever is outstanding.
   `RoleAccount` tells from the requests alone who holds what, what each role grants, what was sent
   to the queue and what each request answers, and shows that the tables agree. The proofs follow one row at a time: on a single row every
   task is a function on booleans, so draining the queue is a fold, and the invariant is that the
   fold gives the wanted value and that every queued task speaking of a grant that is gone is
   followed by one that takes the row away.
2. **Rate limiter.** `RateLimiter` keeps one Redis sorted set per key, with eviction on every call
   and expiry of the whole key, and shows that this stands in for a full log of requests.
3. **Device list.** `DeviceSessions` groups two token tables by a device fingerprint, aggregates,
   sorts, and revokes through a key recomputed from the listing; `DeviceSessionsService` is the
   loops and deletes that compute it.
4. **Lockout and MFA.** `AccountLockout` is the progressive ladder, `MfaService` the derived
   `mfa_enabled` flag and the TOTP step counter, `RecoveryCodes` the single-use codes. `MfaAccount`
   tells the enrolments, passkeys and answers of a run from its requests alone.
5. **Codecs.** `Base64Url` is base64url with stripped padding, against CPython's lenient decoder;
   `OriginToken` is the dotted signed-origin token; `Ordering` is the ordering query string.
6. **Release agent.** `ReleaseAgent` is the script that picks a build, deploys it and records it in
   two files, under exceptions and kills at any of its effects.

`Options`, `Text` and `Sequences` hold what the others share: optional values, Python's string
operations and stable sorting.

Code that changes state is a class whose methods are specified by functions on values; the runs
of those functions are what the theorems quantify over. A run is the inductive list of its events,
latest outermost, or a sequence of actions.

## Where the code falls short of what is said about it

- `BrandingOriginVerifier.verify` is documented never to raise
  (fief/services/branding/origin_verifier.py:148). It raises for exactly two families of tokens
  (`OriginToken.RaisesExactly`): those that parse and whose signature part is not ASCII, which the
  constant-time comparison at line 189 refuses (`OriginToken.RaisesOnNonAscii`), and those that
  carry their own correct signature and an expiry of at least 2^1024 - 2^970, which line 202 cannot
  convert to a float (`OriginToken.RaisesOnHuge`).
- `RateLimiter.check` is documented to return 0 on any Redis error
  (fief/services/security/rate_limiter.py:94-96). The question for the oldest entry at line 137 is
  asked outside the guarded block, so the error escapes exactly when Redis fails there, that is, when
  the check is over the limit (`RateLimiter.AllowedIffUnderLimit`); `RateLimiter.RedisErrorEscapes`
  is a run of two calls in which it does.
- The announced wait is called a floor (fief/services/security/rate_limiter.py:132-134). It is one
  exactly when the hits that will still be in the window at its end fill the limit on their own
  (`RateLimiter.FloorIff`); with less than a second left the wait is rounded up to one, and
  `RateLimiter.WaitIsNoFloor` is a run in which a check is admitted earlier.
- The permission view does not always catch up. Adding a holder and adding permissions to the same
  role, both outstanding, can make a task abort. `RoleAborts.AddAbortsIff` and
  `RoleAborts.UpdateAbortsIff` say exactly when, `RoleAborts.AddSettlesIff` and
  `RoleAborts.UpdateSettlesIff` exactly when the drained view is then still the join, with any tasks
  outstanding; `RoleAborts.GuardedIffAlwaysDrains` lifts the condition to whole runs.
  `RoleCollisions.CollisionExample` is the smallest lasting divergence.
- A TOTP code is not single-use: the step counter allows three acceptances
  (`MfaService.AtMostThreeAcceptances`, `MfaService.ThreeAcceptancesHappen`). A code is taken again
  exactly while the stored step is below the last step it fits (`MfaService.TakenLaterIff`), so it is
  single-use exactly when accepted at that last step (`MfaService.SingleUseIff`).
- A build whose success is recorded is deployed again exactly when the agent stopped before dropping
  that build's pending file (`ReleaseAgent.EverRedeployedIffUnfinished`,
  `ReleaseAgent.RedeploysIffUnfinished`, `ReleaseAgent.KilledBeforeUnlinkRedeploys`).

## Model

| member | source | states |
|---|---|---|
| RoleConvergence.ViewConverges | fief/tasks/roles.py:17-48 | Main result: for every interleaving of adding a holder, removing one, updating, creating or deleting a role, deleting a user, and a worker taking the oldest task, started from a converging (in particular a settled) store and in which no insert hits the unique constraint, an empty queue means that a role-derived row is in the view exactly when the user holds the role and the role has the permission. |
| RoleConvergence.SettledConverges | fief/tasks/roles.py:30-48 | Every store with an empty queue and a view equal to the join may start such a run. |
| RoleConvergence.PrematureIsHarmless | fief/services/user_roles.py:63-93 | The core induction: when the base tables change under a queue in which every outdated grant task is followed by one that deletes the row, no row survives the queue that would not have survived before. |
| RoleConvergence.ExecuteIsEffect | fief/tasks/roles.py:30-48 | On every single row, a task that does not abort does exactly what its one-row effect says: deletes if meant to, else inserts if entitled to, else leaves the row. |
| RoleConvergence.WorkConverges | fief/tasks/user_roles.py:14-54 | Running the oldest task against the tables of that moment keeps the invariant. |
| RoleConvergence.AddConverges | fief/services/user_roles.py:44-68 | Giving a user a role and queueing its task keeps the invariant, errors included. |
| RoleConvergence.RemoveConverges | fief/services/user_roles.py:70-93 | Taking a role away and queueing its task twice keeps the invariant. |
| RoleConvergence.UpdateConverges | fief/apps/api/routers/roles.py:98-123 | Replacing a role's permissions and queueing the two differences keeps the invariant; an unknown permission changes nothing. |
| RoleConvergence.DropRoleConverges | fief/apps/api/routers/roles.py:134-142 | Deleting a role, with the rows that refer to it, keeps the invariant although its tasks stay queued. |
| RoleConvergence.DropUserConverges | fief/models/user_permission.py:17-19 | Deleting a user, with the rows that refer to it, keeps the invariant although its tasks stay queued. |
| RoleConvergence.NewRoleConverges | fief/apps/api/routers/roles.py:57-73 | Creating a role with permissions keeps the invariant although no task is queued. |
| RoleCollisions.GuardedRunsNeverAbort | fief/models/user_permission.py:15 | Every run from a settled store in which no addition finds a queued update granting the new holder a permission for good, and no update adds a permission that the queue gives a holder for good: no insert ever meets the unique constraint, and an empty queue means the view is the join, with no assumption about aborts. |
| RoleCollisions.CalmRunsNeverAbort | fief/models/user_permission.py:15 | In particular every run in which an addition of a holder and an addition of permissions to one role are never outstanding together. |
| RoleCollisions.AddFine | fief/services/user_roles.py:44-64 | A guarded addition keeps the invariant: the view converges, and no queued task that could insert a row, whatever the base tables say, finds it there. |
| RoleCollisions.UpdateFine | fief/apps/api/routers/roles.py:98-123 | So does a guarded update. |
| RoleCollisions.WorkFine | fief/tasks/roles.py:30-48 | So does running the oldest task, which then never aborts. |
| RoleCollisions.LeftMeans | fief/tasks/user_roles.py:14-54 | A queue can only leave a row there that is never deleted, or that some queued task inserts with no later deletion. |
| RoleCollisions.OutdatedIsKilled | fief/services/user_roles.py:88-93 | The queue never gives a role for good to a user who does not hold it, nor grants for good a permission that the role lacks. |
| RoleCollisions.DuplicateIff | fief/models/user_permission.py:15 | A task hits the unique constraint if and only if it inserts a row that is in the view. |
| RoleCollisions.DrainedOperationsSettle | fief/services/user_roles.py:44-93 | Any one operation on a settled store, its tasks then drained, aborts nothing and leaves the view equal to the join; the same for inline additions and removals. |
| RoleCollisions.InlineAddSettles | fief/services/user_roles.py:63-66 | Adding a holder without the worker inserts no row twice and leaves the view equal to the join at once. |
| RoleCollisions.FineDrains | fief/tasks/roles.py:30-48 | From every state such a run reaches, draining the queue never aborts, changes no base table and ends with the view equal to the join. |
| RoleCollisions.RepeatedDeletionChangesNothing | fief/services/user_roles.py:88-91 | The second of the two deletion tasks changes nothing and ends the same way as the first. |
| RoleCollisions.RunsKeepDirectGrants | fief/repositories/user_permission.py:52-65 | No run of role operations and tasks, aborted ones included, changes the permissions granted directly. |
| RoleCollisions.AddThenUpdateCollides | fief/tasks/roles.py:31-42 | From any settled store, adding a holder then updating the role with neither task run: a task aborts if and only if the update adds a permission, and the drained view is the join if and only if it adds none or the role had no other holder. |
| RoleCollisions.UpdateThenAddCollides | fief/services/user_role_permissions.py:9-19 | The other order: a task aborts if and only if the update adds a permission, and the drained view is the join if and only if it adds none or keeps none of the old permissions. |
| RoleCollisions.FirstTaskOfUpdateThenAdd | fief/tasks/roles.py:31-48 | In that order the update task serves every earlier holder fully and gives the new one exactly the added permissions. |
| RoleCollisions.CollisionExample | fief/models/user_permission.py:15 | A store of two users, one role and one permission in which the queue is empty and a holder lacks the role's permission for good. |
| RoleAborts.AddAbortsIff | fief/services/user_roles.py:53-64 | From every state that guarded runs reach, with any tasks outstanding, adding a holder makes the drain abort if and only if a queued update adds a permission to the role and no later task deletes that permission's row from this user. |
| RoleAborts.UpdateAbortsIff | fief/apps/api/routers/roles.py:98-123 | From the same states, updating a role makes the drain abort if and only if it adds a permission that the queued task of a present holder inserts too, with no later task deleting that row. |
| RoleAborts.AddSettlesIff | fief/services/user_role_permissions.py:9-19 | After that addition the drained view is the join if and only if nothing aborted, or the queued updates grant the new holder every permission of the role with no later deletion. |
| RoleAborts.UpdateSettlesIff | fief/tasks/roles.py:30-48 | After that update the drained view is the join if and only if nothing aborted, or the earlier tasks give every holder all added permissions and leave none a removed one. |
| RoleAborts.GuardedIffAlwaysDrains | fief/models/user_permission.py:15 | Over whole runs: every request passes its guard if and only if at no point of the run the queue, left to drain, would abort. |
| RoleAborts.NextRequest | fief/models/user_permission.py:15 | The four conditions after any guarded run from a settled store. |
| RoleAborts.AbortsIffInsertedTwice | fief/repositories/base.py:148-151 | Draining any queue aborts somewhere if and only if some single row, followed through the queue, is inserted while it is there. |
| RoleAborts.AfterIff | fief/tasks/roles.py:30-48 | A queue leaves a row if and only if the row is there and never deleted, or some task inserts it with no later deletion. |
| RoleAborts.OnlyLastAborts | fief/repositories/base.py:148-151 | If only a request's own task can abort and does, the drained view is what the tasks before it left. |
| RoleAccount.BaseIsAccount | fief/services/user_roles.py:44-93 | Over every run, aborts or not, the base tables are what the requests add up to: the latest addition or removal of a pair, the latest accepted update of a role, and every loss of a user or role decide. |
| RoleAccount.ViewIsAccount | fief/tasks/user_roles.py:14-54 | So, when the queue of a run without aborts is empty, a user has a role-derived permission if and only if the requests add up to it. |
| RoleAccount.QueueIsAccount | fief/services/user_roles.py:63-91 | Over every run the queue holds exactly the tasks sent and not yet taken, in order: one for an addition, two for a removal, one with the two differences for an update. |
| RoleAccount.AnswersAre | fief/services/user_roles.py:47-77 | After every run each addition, removal and update is done, or refused, exactly for the reason that the earlier requests give. |
| RoleAccount.InlineIsTheSameChange | fief/services/user_roles.py:63-93 | Without the worker the base tables change in the same way; an addition sends nothing, a removal still sends one task. |
| RoleAccount.RemovalRemoves | fief/services/user_roles.py:70-93 | Removing a held role is done, and leaves the user nothing from it: at once inline, after the drain otherwise. |
| RoleAccount.TaskAnswersAre | fief/tasks/user_roles.py:19-25 | A task stops exactly on a missing role, then on a missing user, and only a task that is done changes the view. |
| RoleService.RoleStore.constructor | fief/models/user_permission.py:13-25 | A fresh store has users and permissions, no roles, no rows and no tasks. |
| RoleService.RoleStore.CreateMany | fief/repositories/base.py:148-151 | Rows are inserted together or, if one is already there or is repeated in the list, not at all. |
| RoleService.RoleStore.DeleteByUserAndRole | fief/repositories/user_permission.py:52-56 | Exactly the rows of that user from that role go. |
| RoleService.RoleStore.DeleteByPermissionAndRole | fief/repositories/user_permission.py:58-65 | Exactly the rows of that permission from that role go, whoever holds it. |
| RoleService.RoleStore.AddRolePermissions | fief/services/user_role_permissions.py:9-19 | The loop inserts one row for each permission the role has now, together or not at all. |
| RoleService.RoleStore.AddRole | fief/services/user_roles.py:44-68 | Base row, then task or inline insert; refused if the role is already held. |
| RoleService.RoleStore.DeleteRole | fief/services/user_roles.py:70-93 | Base row removed, then two tasks, or one task and the inline deletion; refused if the role is not held. |
| RoleService.RoleStore.UpdateRole | fief/apps/api/routers/roles.py:98-123 | The lookup loop accepts exactly known permissions and saves nothing otherwise; the queued differences are against the former set. |
| RoleService.RoleStore.OnUserRoleCreated | fief/tasks/user_roles.py:14-31 | The task stops on a missing role, then on a missing user, else inserts the role's current permissions. |
| RoleService.RoleStore.OnUserRoleDeleted | fief/tasks/user_roles.py:37-54 | The task stops on a missing role, then on a missing user, else deletes the user's rows from that role. |
| RoleService.RoleStore.OnRoleUpdated | fief/tasks/roles.py:17-48 | The nested loops insert the added permissions for every current holder at once, then the last loop deletes the removed ones; a collision leaves the view as it was. |
| RoleService.RoleStore.RunNext | fief/tasks/user_roles.py:57-58 | The worker takes the oldest task, of any kind, against the tables of that moment. |
| RateLimiter.Limiter.Check | fief/services/security/rate_limiter.py:99-151 | Evict, add, count, re-arm and judge, against the stored set, for every way Redis may behave: answering, losing the transaction or its reply (return 0), or failing at the second question. |
| RateLimiter.Limiter.OldestWait | fief/services/security/rate_limiter.py:135-148 | The wait comes from the least stored score, at least one second, or the window if nothing is left. |
| RateLimiter.ExpiryIsHarmless | fief/services/security/rate_limiter.py:111-114 | Whole-key expiry and eviction together leave exactly the logged hits inside the window: expiry never drops a live entry. |
| RateLimiter.StoreRefinesLog | fief/services/security/rate_limiter.py:109-115 | Over every run with a non-decreasing clock, Redis errors included, each key's stored set and expiry time are those of the full log of calls that reached Redis, cut off at the edge of that key's last one. |
| RateLimiter.CountIsTheLog | fief/services/security/rate_limiter.py:99-115 | The count is the number of hits ever left for the key in (now - per_seconds, now], if and only if the window is at least one second. |
| RateLimiter.AllowedIffUnderLimit | fief/services/security/rate_limiter.py:109-151 | The outcome of every check: it returns if and only if the window's hits, itself included, are at most the limit, and then returns their number (itself alone with a window below a second); it returns 0 exactly when the transaction fails; over the limit it raises, with the Redis error exactly when the second question fails. |
| RateLimiter.RedisErrorEscapes | fief/services/security/rate_limiter.py:131-138 | One call a minute: the second of two calls lets the Redis error through, though the documentation promises 0. |
| RateLimiter.AtMostMaxAdmitted | fief/services/security/rate_limiter.py:109-151 | Over every run and for every time t, at most max_count checks of one key in (t - per_seconds, t] return a count without raising, for every window. |
| RateLimiter.RetryAfterInWindow | fief/services/security/rate_limiter.py:131-149 | A rejection's wait is between one second and the window if and only if the window is at least a second; otherwise it is the window. |
| RateLimiter.WaitIsTimeLeft | fief/services/security/rate_limiter.py:139-143 | A rejection announces the time until the first hit in its window leaves it, in whole seconds rounded down, never below one. |
| RateLimiter.OldestIsEarliest | fief/services/security/rate_limiter.py:137-140 | The oldest stored score is the time of the first hit the log has in the window. |
| RateLimiter.ShortWindowCountsOne | fief/services/security/rate_limiter.py:110-114 | With a window below a second every call finds an empty set. |
| RateLimiter.NonPositiveWaitIff | fief/services/security/rate_limiter.py:92-94 | The documented positive wait fails if and only if the window is below a second and the limit below one; the callers' windows are all 60 seconds or more. |
| RateLimiter.RejectionPersists | fief/services/security/rate_limiter.py:131-149 | After a rejection, whatever happens in between, no further check of that key is admitted before the oldest hit leaves the window, and one that Redis answers is rejected. |
| RateLimiter.FloorIff | fief/services/security/rate_limiter.py:132-149 | No continuation of the run admits a check of that key before the announced wait is over, if and only if the hits that will still be in the window at its end are at least max_count. |
| RateLimiter.RetryAfterIsAFloor | fief/services/security/rate_limiter.py:132-134 | In particular the wait is a floor whenever a whole second was left. |
| RateLimiter.AdmittedBeforeEnd | fief/services/security/rate_limiter.py:141-143 | Otherwise one further check, made as soon as the other hits have left, is admitted before the wait is over. |
| RateLimiter.WaitIsNoFloor | fief/services/security/rate_limiter.py:141-143 | A run of four calls, two allowed per second, in which that happens. |
| DeviceSessions.ListingPartitions | fief/services/security/device_sessions.py:179-287 | The rows have pairwise different fingerprints and together cover every live token; each row holds exactly the tokens of its fingerprint under the hash of their ids, their earliest creation and latest sighting, the label and address of the first of those seen last and their client names; rows come latest first. |
| DeviceSessions.RowOfFacts | fief/services/security/device_sessions.py:224-284 | Each aggregated row has those facts, whichever session is current. |
| DeviceSessions.ShowsLiveTokens | fief/models/generics.py:122-130 | A user's list shows exactly that user's tokens: a session up to and including the instant it expires, a refresh token only before it. |
| DeviceSessions.RowsAreNewestFirst | fief/repositories/session_token.py:35-41 | Within each row, sessions and refresh tokens come newest first. |
| DeviceSessions.SameDeviceIff | fief/services/security/device_sessions.py:91-158 | Two tokens belong to one device if and only if browser family, operating system and network of the last address agree. |
| DeviceSessions.LabelsAre | fief/services/security/device_sessions.py:116-144 | A device is labelled by its families only if both are named, and its kind is the first that applies of phone, tablet and computer. |
| DeviceSessions.CurrentRow | fief/services/security/device_sessions.py:266-269 | Exactly one row is current if the current session is listed, none otherwise. |
| DeviceSessions.OrderWithoutGroup | fief/services/security/device_sessions.py:199-286 | Without one fingerprint's tokens, the other fingerprints are listed in the same order. |
| DeviceSessions.ListingWithoutRow | fief/services/security/device_sessions.py:196-287 | Without one row's tokens, the listing is the former one without that row, every other row unchanged. |
| DeviceSessions.DeletedGroup | fief/repositories/session_token.py:28-58 | Deleting a group's ids from the table, scoped to the user, removes exactly that group from the live list. |
| DeviceSessions.RevokeRemovesOneRow | fief/services/security/device_sessions.py:308-327 | Revoking an unlisted key changes nothing; revoking a listed one makes the next listing the former one without its first row of that key, all else unchanged. |
| DeviceSessions.RevokeSparesOthers | fief/services/security/device_sessions.py:313-316 | Nobody else's listing changes. |
| DeviceSessions.TablesAfter | fief/repositories/refresh_token.py:39-68 | Token by token: revoking deletes the returned row's tokens of that user and no other; signing out deletes every token of the user but the current session. |
| DeviceSessions.KeysAreDistinct | fief/services/security/device_sessions.py:246-252 | With a collision-free hash, no two rows share a device key. |
| DeviceSessions.GroupsDiffer | fief/services/security/device_sessions.py:246-252 | Without that assumption, no two rows hash the same ids. |
| DeviceSessions.SignOutLeavesCurrent | fief/services/security/device_sessions.py:329-363 | Afterwards the list is the current session's row alone if that session is a live one of the user, else empty; no refresh token is left. |
| DeviceSessions.SignOutSparesOthers | fief/repositories/session_token.py:60-75 | Signing out elsewhere changes nobody else's listing. |
| DeviceSessions.Find | fief/services/security/device_sessions.py:308-311 | The row found is the first listed under that key, and none is found only if none is. |
| DeviceSessionsService.Service.GroupSessions | fief/services/security/device_sessions.py:201-212 | The first loop builds the dictionary: keys in order of first occurrence, each with its tokens in order. |
| DeviceSessionsService.Service.GroupRefreshes | fief/services/security/device_sessions.py:213-220 | The second loop extends it with the refresh tokens. |
| DeviceSessionsService.Service.BuildRows | fief/services/security/device_sessions.py:222-284 | The third loop makes one row for each key in dictionary order. |
| DeviceSessionsService.Service.ListForUser | fief/services/security/device_sessions.py:179-287 | Loops and sort together compute the listing. |
| DeviceSessionsService.SortedRowsAreListing | fief/services/security/device_sessions.py:286 | Sorting the built rows is building rows in sorted order, ties kept. |
| DeviceSessionsService.Service.DeleteSession | fief/repositories/session_token.py:43-58 | Exactly the session row with that id and owner goes, and the number of rows deleted is returned. |
| DeviceSessionsService.Service.DeleteRefresh | fief/repositories/refresh_token.py:39-53 | Exactly the refresh row with that id and owner goes, and the number of rows deleted is returned. |
| DeviceSessionsService.Service.DeleteSessions | fief/services/security/device_sessions.py:313-314 | One delete for each id removes exactly the user's sessions with those ids. |
| DeviceSessionsService.Service.DeleteRefreshes | fief/services/security/device_sessions.py:315-316 | One delete for each id removes exactly the user's refresh tokens with those ids. |
| DeviceSessionsService.Service.RevokeDevice | fief/services/security/device_sessions.py:289-327 | Re-list, match, delete: the tables and the returned row are those of the revocation the theorems are about. |
| DeviceSessionsService.Service.SignOut | fief/services/security/device_sessions.py:345-363 | Both tables keep what they should and the two returned counts are the rows deleted. |
| AccountLockout.LockoutService.Check | fief/services/security/account_lockout.py:80-113 | Passes, auto-unlocks with one audit and the count kept, or raises with the wait. |
| AccountLockout.LockoutService.RecordFailed | fief/services/security/account_lockout.py:115-137 | The row as the repository writes it; an audit exactly when the service's own ladder has the count and a lock is set. |
| AccountLockout.LockoutService.Reset | fief/repositories/user_lockout.py:82-88 | Clears count and lock of an existing row only. |
| AccountLockout.LaddersAgree | fief/services/security/account_lockout.py:65-70 | The service's thresholds and durations are exactly the repository's. |
| AccountLockout.CountsAndAudits | fief/repositories/user_lockout.py:57-80 | Over every run the stored count is the failures since the last reset, across auto-unlocks, and the locks audited since are exactly the rungs at or below it. |
| AccountLockout.LockIsBounded | fief/repositories/user_lockout.py:74-78 | A lock never ends later than the clock plus the highest rung reached. |
| AccountLockout.ActiveLockNeverShortened | fief/repositories/user_lockout.py:74-79 | With a non-decreasing clock, nothing but a reset moves an active lock earlier or removes it. |
| AccountLockout.LockIsAccount | fief/repositories/user_lockout.py:48-88 | Over every run the stored lock is what the user's own events add up to: each rung sets it anew for 60, 300, 900 or 86400 seconds, a check at or after its end lifts it, a reset ends it. |
| AccountLockout.CheckAnswers | fief/services/security/account_lockout.py:90-113 | After every run a check passes if and only if there is no lock or its end has come, leaving none and keeping the count; else it raises with the whole seconds left, at least one, and changes nothing. |
| AccountLockout.LocksEnd | fief/services/security/account_lockout.py:94-110 | With a forward clock a check made after the longest lock reached passes. |
| AccountLockout.RowsComeFromFailures | fief/repositories/user_lockout.py:60-70 | A user has a row if and only if a failure was ever recorded. |
| AccountLockout.RungLocksOut | fief/services/security/account_lockout.py:90-113 | A failure that reaches a rung locks for the rung's whole duration: until a reset, every check before its end raises, with a wait of at least one second within a second of what is left. |
| AccountLockout.LocksAddUp | fief/services/security/account_lockout.py:90-113 | The induction behind the next row: the lock, or the clock once it is over, has reached the first failure plus every rung so far. |
| AccountLockout.FailuresAreSpaced | fief/repositories/user_lockout.py:48-80 | If every recorded failure follows a passing check, the n-th since the last reset comes at least the sum of the rungs below n after the first; the 51st at least 60+300+900+86400 seconds after it. |
| AccountLockout.UncheckedFailuresAreNotSpaced | fief/services/security/account_lockout.py:115-125 | Without those checks any number of failures fits in one instant. |
| MfaService.Mfa.RecomputeMfaEnabled | fief/services/security/mfa_state.py:67-72 | The flag becomes what the factors say, other users' flags untouched. |
| MfaService.Mfa.BeginEnrollment | fief/services/security/totp.py:149-183 | Replaces an unconfirmed secret, refuses a confirmed one. |
| MfaService.Mfa.ConfirmEnrollment | fief/services/security/totp.py:206-231 | A right code confirms, stores the step and sets the flag; otherwise nothing changes. |
| MfaService.Mfa.VerifyCode | fief/services/security/totp.py:256-298 | The five outcomes in the code's order; only success moves the counter. |
| MfaService.Mfa.DisableTotp | fief/services/security/totp.py:326-340 | Drops the secret and the recovery codes, then recomputes the flag. |
| MfaService.Mfa.FinishRegistration | fief/services/security/webauthn.py:330-352 | Stores the passkey, then recomputes the flag. |
| MfaService.Mfa.Delete | fief/services/security/webauthn.py:564-584 | Deletes the user's own passkey only, then recomputes the flag. |
| MfaService.FlagIsDerived | fief/services/security/mfa_state.py:67-72 | Over every serial run the flag is on if and only if a confirmed secret or a passkey exists. |
| MfaService.MissingSecretMeansPasskeyOnly | fief/services/security/totp.py:256-269 | A missing confirmed secret is reported as inconsistent exactly for a user with a passkey and no confirmed secret. |
| MfaService.StepsIncrease | fief/services/security/totp.py:286-298 | Whatever the clock does, the steps of one enrolment's confirmation and successes strictly increase, and the stored counter is the last of them. |
| MfaService.AcceptancesBounded | fief/services/security/totp.py:223-228 | The induction behind the next row: acceptances are at most the distance of the counter from the first step the password could fit. |
| MfaService.AtMostThreeAcceptances | fief/services/security/totp.py:286-298 | For every run and counter, an enrolment accepts spellings of the password of that counter where it fits at most three times, once more for each step by which a request's two clock readings may differ; nothing is assumed about which passwords recur. |
| MfaService.ThreeAcceptancesHappen | fief/services/security/totp.py:293-296 | Three acceptances of one counter's password are reached, for every secret and counter. |
| MfaService.TakenLaterIff | fief/services/security/totp.py:286-298 | From every run with a confirmed readable enrolment: some continuation that does not disable it takes some spelling of a counter's password if and only if the stored step is below counter + 1. |
| MfaService.SingleUseIff | fief/services/security/totp.py:286-298 | An accepted code is taken again in some continuation if and only if it was accepted at a step no later than its own counter: it is single-use exactly when accepted in the last step it fits. |
| MfaService.StoredStepGrows | fief/services/security/totp.py:296-297 | Until the enrolment is disabled it stays confirmed and its stored step never falls. |
| MfaService.DisableVoidsRecoveryCodes | fief/services/security/totp.py:326-327 | Over every run: after a disable no recovery code of the user is accepted until a new set is generated. |
| MfaAccount.RowIsAccount | fief/services/security/totp.py:157-177 | Over every run each user's stored row is what the requests add up to: a begin replaces what is pending, a right code activates it, a right code at a later step moves it on, a disable ends it. |
| MfaAccount.PasskeysAreAccount | fief/services/security/webauthn.py:330-341 | A passkey belongs to the first to register it, until that user deletes it. |
| MfaAccount.FlagIsAccount | fief/services/security/mfa_state.py:67-72 | The flag is on exactly with an active enrolment or a passkey, told from the requests. |
| MfaAccount.AnswersAre | fief/services/security/totp.py:206-224 | After every run: begin is refused exactly for an active enrolment; confirm succeeds exactly for a pending readable one and a code spelling a password within one step of the clock; a passkey is registered or deleted exactly by its account. |
| MfaAccount.VerifyAnswersAre | fief/services/security/totp.py:256-298 | After every run verify succeeds if and only if the enrolment is active and readable, the step later than every earlier success and the code spells a password within one step of the clock; each other answer has its own exact reason. |
| MfaAccount.SuccessesAreSpelled | fief/services/security/totp.py:223-298 | Every success of an enrolment came from a request whose code spelled a password of its secret within one step of the clock. |
| MfaAccount.SpellingsAreAlike | fief/services/security/totp.py:293 | Spellings with the same Unicode normal form are answered alike. |
| MfaAccount.CodesFollow | fief/services/security/totp.py:326-327 | The recovery codes of an MFA run are those of its generations, uses and disables, so the theorems on codes hold here. |
| RecoveryCodes.RecoveryCodeService.GenerateFor | fief/services/security/recovery_codes.py:82-120 | The draw loop, which stops at ten codes or fifty draws, returns the first ten different codes drawn and stores their hashes in place of the earlier rows. |
| RecoveryCodes.RecoveryCodeService.ConsumeCode | fief/services/security/recovery_codes.py:122-165 | The loop that tries every row marks exactly the first matching unused row, or changes nothing. |
| RecoveryCodes.RecoveryCodeService.DeleteByUserId | fief/repositories/user_mfa_recovery_code.py:25-29 | Exactly the user's rows go. |
| RecoveryCodes.DrawnNormalizes | fief/services/security/recovery_codes.py:39-66 | Every drawn code normalises to its eight characters, and they are well formed. |
| RecoveryCodes.TypedForms | fief/services/security/recovery_codes.py:47-54 | Dashes and spaces anywhere and blanks around a code make no difference. |
| RecoveryCodes.CaseIsIgnored | fief/services/security/recovery_codes.py:54 | Lower-case letters make no difference. |
| RecoveryCodes.WellFormedIff | fief/services/security/recovery_codes.py:57-66 | The well-formed texts are exactly the normal forms of codes that can be drawn. |
| RecoveryCodes.MalformedIsRefused | fief/services/security/recovery_codes.py:136-138 | Any other text is refused, whatever is stored. |
| RecoveryCodes.AlphabetIs | fief/services/security/recovery_codes.py:34 | The characters are exactly the thirty-two of the alphabet. |
| RecoveryCodes.GeneratedFormsDistinct | fief/services/security/recovery_codes.py:94-113 | The stored forms of one set are well formed and pairwise distinct. |
| RecoveryCodes.HowManyCodes | fief/services/security/recovery_codes.py:96-106 | The set has ten codes if the draws hold ten different ones, else it is all the different ones. |
| RecoveryCodes.HowManyInAll | fief/services/security/recovery_codes.py:72-100 | Of fifty draws, ten codes are kept, or all the different ones. |
| RecoveryCodes.EnoughIsEnough | fief/services/security/recovery_codes.py:100-104 | Once ten codes are kept, or the draws are used up, no further draw could change the set. |
| RecoveryCodes.TableRefinesAccount | fief/services/security/recovery_codes.py:136-165 | Over every run and for every user, the table has exactly one unused row for each text of the latest generation not used since, and no other unused row. |
| RecoveryCodes.AcceptedIffGood | fief/services/security/recovery_codes.py:136-165 | A code is accepted if and only if its normal form is such a text; accepting lowers the unused count by exactly one, refusing changes nothing. |
| RecoveryCodes.NeverAcceptedTwice | fief/services/security/recovery_codes.py:160 | A code once tried, however typed again, is never accepted before a new set is generated. |
| RecoveryCodes.GenerationVoidsEarlier | fief/services/security/recovery_codes.py:90-92 | After a generation exactly the new set's codes are accepted. |
| RecoveryCodes.MarkingLowersUnused | fief/repositories/user_mfa_recovery_code.py:31-34 | Marking an unused row used lowers the user's unused count by exactly one. |
| Base64Url.EncodedShape | fief/services/security/webauthn.py:129-132 | The encoding is URL-safe characters only, four for every three bytes rounded up, and rebuilding the padding gives the padded encoding. |
| Base64Url.ScanSymbols | fief/services/security/webauthn.py:139 | The decoder's scan of padded symbols gives back every byte sequence. |
| Base64Url.DecodeEncode | fief/services/security/webauthn.py:129-139 | Decoding an encoding gives back every byte sequence (section 5 of RFC 4648). |
| Base64Url.EncodeDecode | fief/services/security/webauthn.py:135-139 | Encoding a decoding gives back the text if and only if the text is canonical: URL-safe characters, a possible length, no stray bits. |
| Base64Url.DecodesIff | fief/services/security/webauthn.py:135-139 | Which texts without padding decode, and to what: exactly the ASCII texts whose data characters the rebuilt padding completes, to the bytes those characters spell without stray bits; everything else in them is skipped. |
| Base64Url.DecodePadded | fief/services/security/webauthn.py:135-139 | A padded encoding decodes too. |
| Base64Url.PaddingEnds | fief/services/security/webauthn.py:139 | What follows the padding of an encoding is not read. |
| Base64Url.StandardAlphabetDecodes | fief/services/security/webauthn.py:139 | The standard alphabet's plus and slash decode like the URL-safe characters. |
| Base64Url.DroppedPadding | fief/crypto/code_challenge.py:10-11 | Dropping one, or two, last characters removes exactly the padding if and only if the length leaves remainder two, or one, by three (or there is no data). |
| Base64Url.CodeVerifierHashIsUnpadded | fief/crypto/code_challenge.py:6-11 | For a 32-byte digest the result is the unpadded encoding of section 4.2 of RFC 7636: 43 characters that decode to the digest. |
| Base64Url.ValidationHashIsUnpadded | fief/crypto/id_token.py:84-98 | For a 32-byte digest the result is the unpadded encoding of its left half (section 3.1.3.6 of OpenID Connect Core 1.0): 22 characters that decode to 16 bytes. |
| OriginToken.ExtractHosts | fief/services/branding/origin_verifier.py:126-137 | The loop collects exactly the non-empty hosts of the parseable redirect addresses. |
| OriginToken.AllowedIff | fief/services/branding/origin_verifier.py:205-214 | An origin is allowed if and only if some redirect address has the same, non-empty host. |
| OriginToken.SignedParses | fief/services/branding/origin_verifier.py:161-178 | Every signed token, dots in the origin included, parses back to its own origin, nonce, expiry and signature, if and only if the expiry has at most 4300 digits. |
| OriginToken.SignedVerifies | fief/services/branding/origin_verifier.py:161-216 | It verifies with its own origin if and only if now <= expiry <= now + 300 and the host is allowed; out of that span it is expired, except that an expiry no float can hold raises and one of more than 4300 digits is malformed. |
| OriginToken.ParsedIsSpelled | fief/services/branding/origin_verifier.py:161-178 | Whatever parses is an origin, a dot-free nonce, a text that `int` reads as the expiry and a dot-free signature, none empty, joined by dots. |
| OriginToken.SpelledIsParsed | fief/services/branding/origin_verifier.py:161-178 | Conversely every such spelling, dots in the origin included, parses to exactly those parts. |
| OriginToken.AcceptedIffSigned | fief/services/branding/origin_verifier.py:155-216 | Stated without reference to splitting: a token is accepted with an origin if and only if it spells that origin, a nonce, an expiry in date and the signature of those three, and the host is allowed. |
| OriginToken.RefusalsAre | fief/services/branding/origin_verifier.py:155-190 | No key, no token, a token that spells no four parts, and an ASCII signature of something else are refused each with its own reason, exactly then. |
| OriginToken.WideExpiryParses | fief/services/branding/origin_verifier.py:175-178 | An expiry that is not ASCII is left to the interpreter's wider reading. |
| Text.NextDigit | fief/services/branding/origin_verifier.py:176 | In an expiry a digit counts behind a digit, or behind a single underscore after one. |
| Text.SignsAndBlanks | fief/services/branding/origin_verifier.py:176 | A plus sign and blanks around the digits make no difference. |
| OriginToken.MessageInjective | fief/services/branding/origin_verifier.py:183 | A signed message determines its origin, nonce and expiry. |
| OriginToken.SameMessageSameClaims | fief/services/branding/origin_verifier.py:180-216 | Two accepted tokens with the same signed message carry the same claims, even if they are spelled differently. |
| OriginToken.RaisesExactly | fief/services/branding/origin_verifier.py:148-202 | The documented "never raises" fails with a type error exactly for tokens that spell a signature which is not ASCII, and with an overflow exactly for those that spell their own correct signature with an expiry of at least 2^1024 - 2^970. |
| OriginToken.RaisesOnNonAscii | fief/services/branding/origin_verifier.py:189 | Tokens of the first kind exist for every origin, nonce and expiry that can be read. |
| OriginToken.RaisesOnHuge | fief/services/branding/origin_verifier.py:202 | A signer that puts the least such expiry in a token makes it raise, for every origin and nonce. |
| OriginToken.LimitIsPrintable | fief/services/branding/origin_verifier.py:175-178 | That expiry has few enough digits to be read. |
| OriginToken.SeparatorsAreMalformed | fief/services/branding/origin_verifier.py:175-178 | An expiry behind one of the separators U+001C to U+001F is malformed, behind a blank it is not. |
| Ordering.OrderingGetter | fief/dependencies/pagination.py:60-75 | The loop turns each raw field into its accessors and direction, and no field into the default. |
| Ordering.PrintParse | fief/dependencies/pagination.py:52-75 | Parsing then printing gives back every non-empty ordering string. |
| Ordering.ParsePrintField | fief/apps/dashboard/dependencies.py:121-124 | A plain field, printed, parses back to itself. |
| Ordering.ParsePrint | fief/apps/dashboard/dependencies.py:120-133 | Printing then parsing gives back an ordering if and only if it is readable: no dot or comma in an accessor, no empty path, no leading minus on an ascending field, and not the lone empty ascending field. |
| Ordering.PrintedIsEmpty | fief/dependencies/pagination.py:53 | Among non-empty orderings of plain fields, that last one alone prints as the empty string. |
| Ordering.ToggleCycles | fief/apps/dashboard/dependencies.py:74-98 | Three toggles of one field end in no ordering if and only if it did not start sorted by that field, and the links on the way read back. |
| Ordering.ToggleLinks | fief/apps/dashboard/dependencies.py:88-98 | From unsorted, toggling links to the field, then to the field behind a minus, then to nothing. |
| Ordering.IsOrderedIff | fief/apps/dashboard/dependencies.py:74-81 | A field is sorted a way if and only if the first entry with its accessors says so. |
| Ordering.EmptyIsDefault | fief/dependencies/pagination.py:72-73 | No ordering reads as the default. |
| ReleaseAgent.Agent.Attempt | scripts/hosting_release.py:92-97 | The body of the `try`, with each effect done, raising, or cut off by a kill before or after it. |
| ReleaseAgent.Agent.Run | scripts/hosting_release.py:82-101 | One run, its handler included, for every way its effects may go. |
| ReleaseAgent.RunKeepsConsistent | scripts/hosting_release.py:64-101 | One run keeps the invariant: the pending build is not older than anything deployed or recorded. |
| ReleaseAgent.DeployKeepsConsistent | scripts/hosting_release.py:92-100 | So does the part of it from the deployment on, wherever it stops. |
| ReleaseAgent.NeverAnOlderBuild | scripts/hosting_release.py:64-73 | Over every history of runs, candidates, exceptions and kills: deployments never go back to an older build, the pending build is never older than the recorded one, and a record with nothing pending is a success. |
| ReleaseAgent.SuccessIsFinal | scripts/hosting_release.py:64-101 | Once a success is recorded and that build is not pending, everything deployed from then on is strictly newer. |
| ReleaseAgent.RedeploysIffUnfinished | scripts/hosting_release.py:66-93 | After any history with a recorded success, a run deploys that build again if and only if it gets as far as deploying and that build's pending file is still there, whatever is newest. |
| ReleaseAgent.EverRedeployedIffUnfinished | scripts/hosting_release.py:64-101 | Over all continuations: the build is ever deployed again if and only if its pending file is still there. |
| ReleaseAgent.KilledBeforeUnlinkRedeploys | scripts/hosting_release.py:96-97 | A history that leaves it there: killed between recording and unlinking, the agent deploys the same build once more. |
| ReleaseAgent.TwoCleanRunsCatchUp | scripts/hosting_release.py:82-97 | After any history, two runs without a fault record the newest build as a success with nothing pending, unless it is older than what the files hold. |
| ReleaseAgent.RunDeploys | scripts/hosting_release.py:64-93 | Over every history a run deploys a build if and only if it gets that far and the build is the pending one, or the candidate with nothing recorded or an older record; exactly that one, image included. |
| ReleaseAgent.ChoiceIs | scripts/hosting_release.py:64-73 | For any contents of the files: what is pending, else the candidate unless it is the recorded success or older than the record; refused exactly when older. |
| ReleaseAgent.RunLeaves | scripts/hosting_release.py:88-100 | What one run leaves, told from its first fault: a failure is recorded exactly when that is an exception from the deployment on, else a success exactly when its record was written; the pending file exists from its writing to its removal. |
| ReleaseAgent.IdleRunChangesNothing | scripts/hosting_release.py:86-87 | A run with nothing to do, or that may not apply, changes nothing. |
| ReleaseAgent.OnlyOfferedBuilds | scripts/hosting_release.py:85-88 | Only builds that some applying run was offered ever reach the files or the cluster. |

## Left out

Roles:

- RoleConvergence.ViewConverges: assumes that no insert hits the unique constraint, because with one the statement is false; `RoleCollisions` gives the guards and `RoleAborts` the exact conditions.
- RoleService.RoleStore.RunNext: does not model retries by the task queue or several workers; tasks run in order, each as one step, and an aborted task is dropped.
- RoleService.RoleStore.UpdateRole: takes the request's permissions as a set, so an id repeated in one request is not told apart; a request that names no permissions is the update to the set the role already has.
- RoleCollisions.RunsKeepDirectGrants: takes direct grants as a set, though the unique constraint lets the database hold a null-origin row twice.
- Inline role changes mixed with queued tasks: they appear only in `DrainedOperationsSettle`, since they bypass the queue.
- `add_default_roles` (a loop over `add_role`), granting and revoking direct permissions, deleting a permission, webhooks and audit entries of role operations.
- Identifiers of roles are taken never to be reused, as random UUIDs.

Rate limiter:

- RateLimiter.Limiter.Check: does not model a Redis clock apart from the application's, nor Redis losing its data; timestamps are reals, not floats.
- RateLimiter.AtMostMaxAdmitted: takes the policy of a key as fixed over the run; checks let through on a Redis error are not counted.
- RateLimiter.RetryAfterIsAFloor: needs a whole second left, because without one the promised floor can fail; `FloorIff` is the exact condition.
- Admission right after the announced wait: the code does not give it, since rejected hits are recorded too.

Devices:

- DeviceSessionsService.Service.ListForUser: user-agent parsing, address parsing and the key hash are functions of their inputs left open; tokens created at the same instant come in storage order, where the database promises none.
- DeviceSessions.RevokeRemovesOneRow: compares listings at one instant, leaving out expiry between them; clients are a set of names, not the joined label.
- `touch_last_seen`, audit entries, and `auto_revoke_others`, which deletes exactly what `sign_out_others` does.

Lockout and MFA:

- Requests are serial: the code says that its read-then-write steps are not transactional.
- RecoveryCodes.RecoveryCodeService.ConsumeCode: models upper-casing and whitespace on ASCII text; a hash verifies for its own text only, and malformed stored hashes do not occur.
- MfaService.Mfa.FinishRegistration: starts after the ceremony has been verified, and one identifier stands for both the row and the authenticator's credential; challenges, sign counts and encryption are left out.
- MfaService.Mfa.VerifyCode: a secret becomes unreadable only through an event of its own, standing for a changed key.
- Base64Url.DecodesIff: covers texts without a padding character; `PaddingEnds` and `DecodePadded` cover encodings with theirs.
- MfaService.Mfa.Delete: does not touch recovery codes, as the code does not; no claim is made that a user without factors has none.
- The attempt counter of a login session and the login routes themselves.

Codecs:

- OriginToken.AcceptedIffSigned: the HMAC, URL parsing and `int` of text that is not ASCII are functions left open, so the theorems hold whatever they return; text holds Unicode scalar values, so lone surrogates, which cannot be encoded, do not occur.
- OriginToken.Judge: subtracts the clock exactly, where the code rounds the difference to a float.
- Base64Url.CodeVerifierHashIsUnpadded: starts from the digest; SHA-256 and the comparison with the challenge are left out.
- Ordering.ParsePrint: covers the ordering parameter; percent-encoding and the other parameters are left out.

Release agent:

- ReleaseAgent.Agent.Run: the deployment is one effect, counted as handed to the cluster even when it raises; the cluster rollout, the lookup and validation of the newest build, the lock and the directory are left out.

Elsewhere: routes, templates, forms, email, telemetry, migrations and the token endpoint.
