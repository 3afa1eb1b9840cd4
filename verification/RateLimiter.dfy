/** The sliding-window rate limiter: one Redis sorted set per key, with eviction on every
    call and expiry of the whole key, standing in for a full log of requests. */
module RateLimiter {
  import opened Options

  type Key = string
  type Member = nat  // the random UUID that keeps equal timestamps apart

  /** The policy of a call. */
  datatype Window = Window(maxCount: int, perSeconds: int)

  /** A sorted set (member to score) and the time at which Redis drops the key. */
  datatype Bucket = Bucket(entries: map<Member, real>, expiresAt: real)

  type Store = map<Key, Bucket>

  /** How Redis behaves during one call: it answers, it never gets the transaction, its reply is
      lost, or it fails only when asked for the oldest entry. */
  datatype Redis = Up | LosesRequest | LosesReply | LosesOldest

  /** The count, the exception with its `retry_after_seconds`, the 0 returned on a Redis error, or
      a Redis error that nothing catches. */
  datatype Verdict = Allowed(count: nat) | Exceeded(retryAfter: int) | FailedOpen | RedisFailed

  function Entries(store: Store, key: Key, now: real): map<Member, real> {
    if key in store && now < store[key].expiresAt then store[key].entries else map[]
  }

  function Evicted(entries: map<Member, real>, cutoff: real): map<Member, real> {
    map m | m in entries && !(0.0 <= entries[m] <= cutoff) :: entries[m]
  }

  /** What the sorted set holds after eviction and the new hit. */
  function Recorded(store: Store, key: Key, w: Window, now: real, member: Member): map<Member, real> {
    Evicted(Entries(store, key, now), now - w.perSeconds as real)[member := now]
  }

  /** Python's `int` on a float truncates toward zero. */
  function Truncate(x: real): int {
    if x >= 0.0 then x.Floor else -((-x).Floor)
  }

  lemma {:induction false} LeastExists(entries: map<Member, real>)
    requires entries != map[]
    ensures exists s :: s in entries.Values && forall m :: m in entries ==> s <= entries[m]
    decreases |entries|
  {
    var m :| m in entries;
    var rest := entries - {m};
    assert |rest| < |entries| by {
      assert rest.Keys == entries.Keys - {m};
    }
    assert entries[m] in entries.Values;
    if rest != map[] {
      LeastExists(rest);
      var s :| s in rest.Values && forall k :: k in rest ==> s <= rest[k];
      assert s in entries.Values;
      var least := if s <= entries[m] then s else entries[m];
      assert forall k :: k in entries ==> k == m || k in rest;
      assert least in entries.Values && forall k :: k in entries ==> least <= entries[k];
    } else {
      assert forall k :: k in entries ==> k == m || k in rest;
      assert entries[m] in entries.Values && forall k :: k in entries ==> entries[m] <= entries[k];
    }
  }

  /** The score of the oldest entry. */
  function Least(entries: map<Member, real>): (least: real)
    requires entries != map[]
    ensures least in entries.Values && forall m :: m in entries ==> least <= entries[m]
  {
    LeastExists(entries);
    var s :| s in entries.Values && forall m :: m in entries ==> s <= entries[m];
    s
  }

  /** A lifetime that is not positive makes `EXPIRE` delete the key at once. */
  function Rearmed(store: Store, key: Key, entries: map<Member, real>, w: Window, now: real): Store {
    if w.perSeconds <= 0 then store - {key}
    else store[key := Bucket(entries, now + w.perSeconds as real)]
  }

  function RetryAfter(store: Store, key: Key, w: Window, now: real): int {
    var left := Entries(store, key, now);
    if left == map[] then w.perSeconds
    else
      var wait := Truncate(Least(left) + w.perSeconds as real - now);
      if wait < 1 then 1 else wait
  }

  /** The store after one `check`. */
  function Next(store: Store, key: Key, w: Window, now: real, member: Member, redis: Redis): Store {
    if redis.LosesRequest? then store else Rearmed(store, key, Recorded(store, key, w, now, member), w, now)
  }

  /** What that `check` returns or raises. */
  function Judge(store: Store, key: Key, w: Window, now: real, member: Member, redis: Redis): Verdict {
    var count := |Recorded(store, key, w, now, member)|;
    if redis.LosesRequest? || redis.LosesReply? then FailedOpen
    else if count <= w.maxCount then Allowed(count)
    else if redis.LosesOldest? then RedisFailed
    else Exceeded(RetryAfter(Next(store, key, w, now, member, redis), key, w, now))
  }

  class Limiter {
    var redis: Store

    constructor ()
      ensures redis == map[]
    {
      redis := map[];
    }

    /** Evict, add, count and re-arm in one transaction, then ask for the oldest entry if the
        count is over the limit. Only the transaction is guarded against Redis errors. */
    method Check(key: Key, w: Window, now: real, member: Member, link: Redis) returns (verdict: Verdict)
      modifies this
      ensures redis == Next(old(redis), key, w, now, member, link)
      ensures verdict == Judge(old(redis), key, w, now, member, link)
    {
      if link.LosesRequest? {
        return FailedOpen;
      }
      var entries := Evicted(Entries(redis, key, now), now - w.perSeconds as real);
      entries := entries[member := now];
      var count := |entries|;
      redis := Rearmed(redis, key, entries, w, now);
      if link.LosesReply? {
        return FailedOpen;
      }
      if count > w.maxCount {
        if link.LosesOldest? {
          return RedisFailed;
        }
        var retryAfter := OldestWait(key, w, now);
        verdict := Exceeded(retryAfter);
      } else {
        verdict := Allowed(count);
      }
    }

    method OldestWait(key: Key, w: Window, now: real) returns (retryAfter: int)
      ensures retryAfter == RetryAfter(redis, key, w, now)
    {
      var left := Entries(redis, key, now);
      if left == map[] {
        return w.perSeconds;
      }
      var wait := Truncate(Least(left) + w.perSeconds as real - now);
      retryAfter := if wait < 1 then 1 else wait;
    }
  }

  // ---- the full log that the sorted set stands in for ----

  datatype Call = Call(key: Key, now: real, member: Member, redis: Redis)

  /** A call that reached Redis leaves a hit. */
  predicate HitFor(c: Call, key: Key) {
    c.key == key && !c.redis.LosesRequest?
  }

  /** Every call a run has made, the latest outermost. */
  datatype Log = Empty | More(earlier: Log, last: Call)

  function Members(log: Log): set<Member> {
    match log
    case Empty => {}
    case More(earlier, c) => Members(earlier) + {c.member}
  }

  /** The clock never goes back, and no UUID is drawn twice. */
  predicate Orderly(log: Log) {
    match log
    case Empty => true
    case More(earlier, c) =>
      Orderly(earlier) && 0.0 <= c.now && (earlier.More? ==> earlier.last.now <= c.now) && c.member !in Members(earlier)
  }

  predicate Extends(log: Log, first: Log) {
    log == first || (log.More? && Extends(log.earlier, first))
  }

  /** The policy of each key is fixed. */
  type Policy = Key -> Window

  function Replay(policy: Policy, log: Log): Store {
    match log
    case Empty => map[]
    case More(earlier, c) => Next(Replay(policy, earlier), c.key, policy(c.key), c.now, c.member, c.redis)
  }

  /** What the last call of a run returned or raised. */
  function LastVerdict(policy: Policy, log: Log): Verdict
    requires log.More?
  {
    var c := log.last;
    Judge(Replay(policy, log.earlier), c.key, policy(c.key), c.now, c.member, c.redis)
  }

  /** Hits ever left for `key` later than `since`. */
  function HitsSince(log: Log, key: Key, since: real): nat {
    match log
    case Empty => 0
    case More(earlier, c) => HitsSince(earlier, key, since) + if HitFor(c, key) && c.now > since then 1 else 0
  }

  /** Hits for `key` in `(since, until]` whose check returned a count without raising. */
  function Admitted(policy: Policy, log: Log, key: Key, since: real, until: real): nat {
    match log
    case Empty => 0
    case More(earlier, c) =>
      Admitted(policy, earlier, key, since, until)
      + if HitFor(c, key) && since < c.now <= until && LastVerdict(policy, log).Allowed? then 1 else 0
  }

  /** The hits that `HitsSince` counts, as a map from member to time. */
  function HitMap(log: Log, key: Key, since: real): map<Member, real> {
    match log
    case Empty => map[]
    case More(earlier, c) =>
      var hits := HitMap(earlier, key, since);
      if HitFor(c, key) && c.now > since then hits[c.member := c.now] else hits
  }

  lemma {:induction false} HitMapBounds(log: Log, key: Key, since: real)
    requires Orderly(log)
    ensures HitMap(log, key, since).Keys <= Members(log)
    ensures forall m :: m in HitMap(log, key, since) ==>
                          HitMap(log, key, since)[m] > since && 0.0 <= HitMap(log, key, since)[m] <= log.last.now
  {
    if log.Empty? {
    } else {
      HitMapBounds(log.earlier, key, since);
    }
  }

  lemma {:induction false} HitMapSize(log: Log, key: Key, since: real)
    requires Orderly(log)
    ensures |HitMap(log, key, since)| == HitsSince(log, key, since)
  {
    if log.Empty? {
    } else {
      HitMapSize(log.earlier, key, since);
      HitMapBounds(log.earlier, key, since);
    }
  }

  /** Evicting up to a later edge is the same as having looked from that edge. */
  lemma {:induction false} EvictionMovesTheEdge(log: Log, key: Key, since: real, later: real)
    requires Orderly(log) && since <= later
    ensures Evicted(HitMap(log, key, since), later) == HitMap(log, key, later)
  {
    if log.Empty? {
    } else {
      EvictionMovesTheEdge(log.earlier, key, since, later);
      HitMapBounds(log.earlier, key, since);
    }
  }

  /** The time of the latest hit for `key`. */
  function LastHit(log: Log, key: Key): Option<real> {
    match log
    case Empty => None
    case More(earlier, c) => if HitFor(c, key) then Some(c.now) else LastHit(earlier, key)
  }

  lemma {:induction false} NothingAfterLastHit(log: Log, key: Key, since: real)
    requires Orderly(log)
    requires LastHit(log, key).Some? ==> LastHit(log, key).value <= since
    ensures HitMap(log, key, since) == map[]
  {
    if log.Empty? {
    } else {
      if HitFor(log.last, key) {
        NothingLater(log, key, since);
      } else {
        NothingAfterLastHit(log.earlier, key, since);
      }
    }
  }

  lemma {:induction false} NothingLater(log: Log, key: Key, since: real)
    requires Orderly(log) && (log.More? ==> log.last.now <= since)
    ensures HitMap(log, key, since) == map[]
  {
    if log.Empty? {
    } else {
      NothingLater(log.earlier, key, since);
    }
  }

  /** The stored set of a key is the log cut off at the edge of the last call. */
  ghost predicate Refines(policy: Policy, log: Log, store: Store, key: Key) {
    match LastHit(log, key)
    case None => key !in store
    case Some(t) =>
      var per := policy(key).perSeconds;
      if per >= 1 then key in store && store[key] == Bucket(HitMap(log, key, t - per as real), t + per as real)
      else key !in store
  }

  /** Expiry of the whole key never drops a live entry: by then the log has nothing left in
      the window either. */
  lemma ExpiryIsHarmless(policy: Policy, log: Log, store: Store, key: Key, now: real)
    requires Orderly(log) && Refines(policy, log, store, key)
    requires log.More? ==> log.last.now <= now
    requires policy(key).perSeconds >= 1
    ensures Evicted(Entries(store, key, now), now - policy(key).perSeconds as real)
            == HitMap(log, key, now - policy(key).perSeconds as real)
  {
    var per := policy(key).perSeconds as real;
    match LastHit(log, key)
    case None => NothingAfterLastHit(log, key, now - per);
    case Some(t) =>
      if now < t + per {
        LastHitIsPast(log, key);
        EvictionMovesTheEdge(log, key, t - per, now - per);
      } else {
        NothingAfterLastHit(log, key, now - per);
      }
  }

  lemma {:induction false} LastHitIsPast(log: Log, key: Key)
    requires Orderly(log) && LastHit(log, key).Some?
    ensures LastHit(log, key).value <= log.last.now
  {
    if !HitFor(log.last, key) {
      LastHitIsPast(log.earlier, key);
    }
  }

  /** The far end of the last call's window. */
  function Edge(policy: Policy, log: Log): real
    requires log.More?
  {
    log.last.now - policy(log.last.key).perSeconds as real
  }

  /** The set that `ZCARD` counts in the last call of a run. */
  function LastEntries(policy: Policy, log: Log): map<Member, real>
    requires log.More?
  {
    var c := log.last;
    Recorded(Replay(policy, log.earlier), c.key, policy(c.key), c.now, c.member)
  }

  lemma LastEntriesAreHits(policy: Policy, log: Log)
    requires Orderly(log) && log.More? && !log.last.redis.LosesRequest?
    requires Refines(policy, log.earlier, Replay(policy, log.earlier), log.last.key)
    requires policy(log.last.key).perSeconds >= 1
    ensures LastEntries(policy, log) == HitMap(log, log.last.key, Edge(policy, log))
  {
    ExpiryIsHarmless(policy, log.earlier, Replay(policy, log.earlier), log.last.key, log.last.now);
  }

  lemma {:induction false} StoreRefinesLog(policy: Policy, log: Log, key: Key)
    requires Orderly(log)
    ensures Refines(policy, log, Replay(policy, log), key)
  {
    if log.Empty? {
    } else {
      StoreRefinesLog(policy, log.earlier, key);
      if HitFor(log.last, key) && policy(key).perSeconds >= 1 {
        LastEntriesAreHits(policy, log);
      }
    }
  }

  // ---- what every run keeps ----

  /** The refinement theorem: the count `check` computes is the number of hits ever left for
      that key in `(now - per_seconds, now]`, exactly when the window is at least a second. */
  lemma CountIsTheLog(policy: Policy, log: Log)
    requires Orderly(log) && log.More? && !log.last.redis.LosesRequest?
    ensures |LastEntries(policy, log)| == HitsSince(log, log.last.key, Edge(policy, log))
            <==> policy(log.last.key).perSeconds >= 1
  {
    var key := log.last.key;
    StoreRefinesLog(policy, log.earlier, key);
    if policy(key).perSeconds >= 1 {
      LastEntriesAreHits(policy, log);
      HitMapSize(log, key, Edge(policy, log));
    } else {
      NothingLater(log, key, Edge(policy, log));
      HitMapSize(log, key, Edge(policy, log));
    }
  }

  /** With a window below a second every call finds an empty set: it counts itself alone. */
  lemma ShortWindowCountsOne(policy: Policy, log: Log)
    requires Orderly(log) && log.More? && policy(log.last.key).perSeconds < 1
    ensures LastEntries(policy, log) == map[log.last.member := log.last.now]
  {
    StoreRefinesLog(policy, log.earlier, log.last.key);
  }

  /** Hence a check that Redis answers returns without raising exactly when the window's hits,
      itself included, number at most `max_count`, and returns that number. Over the limit it
      raises, with the Redis error instead if Redis fails at the second question. */
  lemma AllowedIffUnderLimit(policy: Policy, log: Log)
    requires Orderly(log) && log.More?
    ensures var hits := if policy(log.last.key).perSeconds < 1 then 1
                        else HitsSince(log, log.last.key, Edge(policy, log));
            var verdict, redis, max := LastVerdict(policy, log), log.last.redis, policy(log.last.key).maxCount;
            && (verdict.FailedOpen? <==> redis.LosesRequest? || redis.LosesReply?)
            && (verdict.Allowed? <==> (redis.Up? || redis.LosesOldest?) && hits <= max)
            && (verdict.Allowed? ==> verdict.count == hits)
            && (verdict.RedisFailed? <==> redis.LosesOldest? && hits > max)
            && (verdict.Exceeded? <==> redis.Up? && hits > max)
  {
    if policy(log.last.key).perSeconds < 1 {
      ShortWindowCountsOne(policy, log);
      assert |LastEntries(policy, log)| == 1;
    } else if !log.last.redis.LosesRequest? {
      CountIsTheLog(policy, log);
    }
  }

  lemma {:induction false} AdmittedAreHits(policy: Policy, log: Log, key: Key, since: real, until: real)
    ensures Admitted(policy, log, key, since, until) <= HitsSince(log, key, since)
  {
    hide LastVerdict;
    if log.Empty? {
    } else {
      AdmittedAreHits(policy, log.earlier, key, since, until);
    }
  }

  lemma {:induction false} NarrowerWindow(log: Log, key: Key, since: real, later: real)
    requires since <= later
    ensures HitsSince(log, key, later) <= HitsSince(log, key, since)
  {
    if log.Empty? {
    } else {
      NarrowerWindow(log.earlier, key, since, later);
    }
  }

  lemma AllowedCount(policy: Policy, log: Log)
    requires log.More? && LastVerdict(policy, log).Allowed?
    ensures !log.last.redis.LosesRequest? && |LastEntries(policy, log)| <= policy(log.last.key).maxCount
  {
  }

  lemma AllowedIsWithinLimit(policy: Policy, log: Log)
    requires Orderly(log) && log.More? && policy(log.last.key).perSeconds >= 1
    requires LastVerdict(policy, log).Allowed?
    ensures HitsSince(log, log.last.key, Edge(policy, log)) <= policy(log.last.key).maxCount
  {
    hide LastVerdict, LastEntries;
    AllowedCount(policy, log);
    CountIsTheLog(policy, log);
  }

  lemma WithinLimitIsAllowed(policy: Policy, log: Log)
    requires Orderly(log) && log.More? && policy(log.last.key).perSeconds >= 1 && log.last.redis.Up?
    requires HitsSince(log, log.last.key, Edge(policy, log)) <= policy(log.last.key).maxCount
    ensures LastVerdict(policy, log).Allowed?
  {
    AllowedIffUnderLimit(policy, log);
  }

  /** Safety over whole runs: for every time, at most `max_count` checks of one key in the
      window ending there returned without raising, though rejected hits are recorded too. Checks
      let through on a Redis error do not count. */
  lemma {:induction false} AtMostMaxAdmitted(policy: Policy, log: Log, key: Key, t: real)
    requires Orderly(log)
    ensures Admitted(policy, log, key, t - policy(key).perSeconds as real, t)
            <= if policy(key).maxCount < 0 then 0 else policy(key).maxCount
  {
    hide LastVerdict;
    if log.Empty? {
    } else {
      var since := t - policy(key).perSeconds as real;
      AtMostMaxAdmitted(policy, log.earlier, key, t);
      if HitFor(log.last, key) && since < log.last.now <= t && LastVerdict(policy, log).Allowed? {
        AllowedIsWithinLimit(policy, log);
        NarrowerWindow(log, key, Edge(policy, log), since);
        AdmittedAreHits(policy, log, key, since, t);
      }
    }
  }

  /** The oldest stored score once the last call of the run is recorded. */
  function Oldest(policy: Policy, log: Log): (oldest: real)
    requires Orderly(log) && log.More? && policy(log.last.key).perSeconds >= 1
    requires !log.last.redis.LosesRequest?
    ensures Edge(policy, log) < oldest <= log.last.now
    ensures var hits := HitMap(log, log.last.key, Edge(policy, log));
            oldest in hits.Values && forall m :: m in hits ==> oldest <= hits[m]
  {
    var hits := HitMap(log, log.last.key, Edge(policy, log));
    HitMapBounds(log, log.last.key, Edge(policy, log));
    assert log.last.member in hits && hits[log.last.member] == log.last.now;
    Least(hits)
  }

  lemma RetryAfterFromOldest(policy: Policy, log: Log)
    requires Orderly(log) && log.More? && policy(log.last.key).perSeconds >= 1
    requires LastVerdict(policy, log).Exceeded?
    ensures var wait := Truncate(Oldest(policy, log) - Edge(policy, log));
            LastVerdict(policy, log).retryAfter == if wait < 1 then 1 else wait
  {
    var c, store := log.last, Replay(policy, log);
    StoreRefinesLog(policy, log, c.key);
    var hits := HitMap(log, c.key, Edge(policy, log));
    assert Entries(store, c.key, c.now) == hits && c.member in hits;
    assert Least(hits) + policy(c.key).perSeconds as real - c.now == Oldest(policy, log) - Edge(policy, log);
  }

  /** A rejection asks for a wait between one second and the window, exactly when the window
      is at least a second; otherwise it raises with the window itself. */
  lemma RetryAfterInWindow(policy: Policy, log: Log)
    requires Orderly(log) && log.More? && LastVerdict(policy, log).Exceeded?
    ensures 1 <= LastVerdict(policy, log).retryAfter <= policy(log.last.key).perSeconds
            <==> policy(log.last.key).perSeconds >= 1
    ensures policy(log.last.key).perSeconds < 1 ==>
              LastVerdict(policy, log).retryAfter == policy(log.last.key).perSeconds
  {
    if policy(log.last.key).perSeconds >= 1 {
      RetryAfterFromOldest(policy, log);
    }
  }

  /** So the wait is not positive exactly for a window below a second whose limit allows nothing. */
  lemma NonPositiveWaitIff(policy: Policy, log: Log)
    requires Orderly(log) && log.More? && log.last.redis.Up?
    ensures var w, verdict := policy(log.last.key), LastVerdict(policy, log);
            verdict.Exceeded? && verdict.retryAfter < 1 <==> w.perSeconds < 1 && w.maxCount < 1
  {
    AllowedIffUnderLimit(policy, log);
    if LastVerdict(policy, log).Exceeded? {
      RetryAfterInWindow(policy, log);
    }
  }

  /** The time of the first hit for `key` later than `since`. */
  function Earliest(log: Log, key: Key, since: real): Option<real> {
    match log
    case Empty => None
    case More(earlier, c) =>
      if Earliest(earlier, key, since).Some? then Earliest(earlier, key, since)
      else if HitFor(c, key) && c.now > since then Some(c.now) else None
  }

  predicate LeastOf(hits: map<Member, real>, t: real) {
    t in hits.Values && forall m :: m in hits ==> t <= hits[m]
  }

  lemma LeastOfOne(member: Member, t: real)
    ensures LeastOf(map[member := t], t)
  {
    var hits := map[member := t];
    assert member in hits && hits[member] == t;
  }

  lemma LeastOfMore(hits: map<Member, real>, t: real, member: Member, later: real)
    requires LeastOf(hits, t) && member !in hits && t <= later
    ensures LeastOf(hits[member := later], t)
  {
    var more := hits[member := later];
    var m :| m in hits && hits[m] == t;
    assert m in more && more[m] == t;
  }

  lemma {:induction false} EarliestIsLeast(log: Log, key: Key, since: real)
    requires Orderly(log)
    ensures match Earliest(log, key, since)
            case None => HitMap(log, key, since) == map[]
            case Some(t) => LeastOf(HitMap(log, key, since), t)
  {
    if log.Empty? {
    } else {
      var before, c := HitMap(log.earlier, key, since), log.last;
      EarliestIsLeast(log.earlier, key, since);
      HitMapBounds(log.earlier, key, since);
      if HitFor(c, key) && c.now > since {
        match Earliest(log.earlier, key, since)
        case None => LeastOfOne(c.member, c.now);
        case Some(t) => LeastOfMore(before, t, c.member, c.now);
      }
    }
  }

  lemma OldestIsEarliest(policy: Policy, log: Log)
    requires Orderly(log) && log.More? && policy(log.last.key).perSeconds >= 1
    requires !log.last.redis.LosesRequest?
    ensures Earliest(log, log.last.key, Edge(policy, log)) == Some(Oldest(policy, log))
  {
    EarliestIsLeast(log, log.last.key, Edge(policy, log));
  }

  /** The wait itself: a rejection announces the time until the first hit in its window leaves it,
      in whole seconds rounded down but never below one. */
  lemma WaitIsTimeLeft(policy: Policy, log: Log)
    requires Orderly(log) && log.More? && policy(log.last.key).perSeconds >= 1
    requires LastVerdict(policy, log).Exceeded?
    ensures var first, wait := Earliest(log, log.last.key, Edge(policy, log)), LastVerdict(policy, log).retryAfter;
            first.Some? && var left := first.value + policy(log.last.key).perSeconds as real - log.last.now;
            0.0 < left && (if left < 1.0 then wait == 1 else wait as real <= left < wait as real + 1.0)
  {
    OldestIsEarliest(policy, log);
    RetryAfterFromOldest(policy, log);
  }

  lemma {:induction false} LongerLog(log: Log, first: Log, key: Key, since: real)
    requires Extends(log, first)
    ensures HitsSince(first, key, since) <= HitsSince(log, key, since)
  {
    if log == first {
    } else {
      LongerLog(log.earlier, first, key, since);
    }
  }

  lemma SameHits(log: Log, key: Key, since: real, later: real)
    requires Orderly(log) && since <= later
    requires forall m :: m in HitMap(log, key, since) ==> HitMap(log, key, since)[m] > later
    ensures HitsSince(log, key, later) == HitsSince(log, key, since)
  {
    EvictionMovesTheEdge(log, key, since, later);
    HitMapSize(log, key, since);
    HitMapSize(log, key, later);
    assert Evicted(HitMap(log, key, since), later) == HitMap(log, key, since);
  }

  lemma {:induction false} ExtensionIsLater(log: Log, first: Log)
    requires Orderly(log) && Extends(log, first) && first.More?
    ensures log.More? && first.last.now <= log.last.now && Orderly(first)
  {
    if log == first {
    } else {
      ExtensionIsLater(log.earlier, first);
    }
  }

  /** After a rejection, no further check of that key made before the oldest hit leaves the window
      is admitted, whatever else happens in between; one that Redis answers is rejected. */
  lemma RejectionPersists(policy: Policy, first: Log, log: Log)
    requires Orderly(first) && first.More? && policy(first.last.key).perSeconds >= 1
    requires LastVerdict(policy, first).Exceeded?
    requires Orderly(log) && log.More? && Extends(log, first) && log.last.key == first.last.key
    requires log.last.now < Oldest(policy, first) + policy(first.last.key).perSeconds as real
    ensures !LastVerdict(policy, log).Allowed? && (log.last.redis.Up? ==> LastVerdict(policy, log).Exceeded?)
  {
    var key := first.last.key;
    ExtensionIsLater(log, first);
    AllowedIffUnderLimit(policy, first);
    AllowedIffUnderLimit(policy, log);
    SameHits(first, key, Edge(policy, first), Edge(policy, log));
    LongerLog(log, first, key, Edge(policy, log));
  }

  // ---- is the announced wait a floor? ----

  /** The end of the wait that a rejection announces. */
  function WaitEnd(policy: Policy, first: Log): real
    requires first.More? && LastVerdict(policy, first).Exceeded?
  {
    first.last.now + LastVerdict(policy, first).retryAfter as real
  }

  ghost predicate NoneAdmittedBefore(policy: Policy, first: Log, end: real)
    requires first.More?
  {
    forall log | Orderly(log) && log.More? && Extends(log, first) ::
      log.last.key == first.last.key && log.last.now < end ==> !LastVerdict(policy, log).Allowed?
  }

  /** What the documentation promises of it: no check of that key is admitted sooner. */
  ghost predicate IsFloor(policy: Policy, first: Log)
    requires first.More? && LastVerdict(policy, first).Exceeded?
  {
    NoneAdmittedBefore(policy, first, WaitEnd(policy, first))
  }

  /** It is one whenever a whole second was left before the oldest hit leaves the window. */
  lemma RetryAfterIsAFloor(policy: Policy, first: Log)
    requires Orderly(first) && first.More? && policy(first.last.key).perSeconds >= 1
    requires LastVerdict(policy, first).Exceeded?
    requires Oldest(policy, first) - Edge(policy, first) >= 1.0
    ensures IsFloor(policy, first)
  {
    RetryAfterFromOldest(policy, first);
    forall log | Orderly(log) && log.More? && Extends(log, first)
                 && log.last.key == first.last.key && log.last.now < WaitEnd(policy, first)
      ensures !LastVerdict(policy, log).Allowed?
    {
      RejectionPersists(policy, first, log);
    }
  }

  /** Hits left for `key` at `from` or later. */
  function HitsFrom(log: Log, key: Key, from: real): nat {
    match log
    case Empty => 0
    case More(earlier, c) => HitsFrom(earlier, key, from) + if HitFor(c, key) && c.now >= from then 1 else 0
  }

  /** The latest hit before `edge`, if any is later than `low`. */
  function LatestBefore(log: Log, key: Key, edge: real, low: real): (latest: real)
    requires low < edge
    ensures low <= latest < edge
  {
    match log
    case Empty => low
    case More(earlier, c) =>
      var rest := LatestBefore(earlier, key, edge, low);
      if HitFor(c, key) && rest < c.now < edge then c.now else rest
  }

  lemma {:induction false} NoHitsBetween(log: Log, key: Key, edge: real, low: real, since: real)
    requires low < edge && LatestBefore(log, key, edge, low) <= since < edge
    ensures HitsSince(log, key, since) == HitsFrom(log, key, edge)
  {
    match log
    case Empty =>
    case More(earlier, _) => NoHitsBetween(earlier, key, edge, low, since);
  }

  lemma {:induction false} FromIsSince(log: Log, key: Key, from: real, since: real)
    requires since < from
    ensures HitsFrom(log, key, from) <= HitsSince(log, key, since)
  {
    match log
    case Empty =>
    case More(earlier, _) => FromIsSince(earlier, key, from, since);
  }

  /** A UUID that the run has not drawn. */
  function Unused(log: Log): (member: Member)
    ensures member !in Members(log) && forall m :: m in Members(log) ==> m < member
  {
    match log
    case Empty => 0
    case More(earlier, c) => if c.member < Unused(earlier) then Unused(earlier) else c.member + 1
  }

  /** While the hits of `first` from some time on fill the limit, nothing further is admitted whose
      window reaches back before that time. */
  lemma FullWindowRejects(policy: Policy, first: Log, log: Log, from: real)
    requires Orderly(log) && log.More? && Extends(log, first) && log != first
    requires policy(log.last.key).perSeconds >= 1 && Edge(policy, log) < from
    requires HitsFrom(first, log.last.key, from) >= policy(log.last.key).maxCount
    ensures !LastVerdict(policy, log).Allowed?
  {
    AllowedIffUnderLimit(policy, log);
    FromIsSince(first, log.last.key, from, Edge(policy, log));
    LongerLog(log.earlier, first, log.last.key, Edge(policy, log));
  }

  /** The hits that will still be in the window when the wait ends fill the limit on their own. */
  predicate FullAtWaitEnd(policy: Policy, first: Log)
    requires first.More? && LastVerdict(policy, first).Exceeded?
  {
    var w := policy(first.last.key);
    HitsFrom(first, first.last.key, WaitEnd(policy, first) - w.perSeconds as real) >= w.maxCount
  }

  lemma RejectedBefore(policy: Policy, first: Log, log: Log, end: real)
    requires first.More? && policy(first.last.key).perSeconds >= 1 && !LastVerdict(policy, first).Allowed?
    requires var w := policy(first.last.key); HitsFrom(first, first.last.key, end - w.perSeconds as real) >= w.maxCount
    requires Orderly(log) && log.More? && Extends(log, first)
    requires log.last.key == first.last.key && log.last.now < end
    ensures !LastVerdict(policy, log).Allowed?
  {
    if log != first {
      FullWindowRejects(policy, first, log, end - policy(first.last.key).perSeconds as real);
    }
  }

  lemma FullRejectsBefore(policy: Policy, first: Log, end: real)
    requires first.More? && policy(first.last.key).perSeconds >= 1 && !LastVerdict(policy, first).Allowed?
    requires var w := policy(first.last.key); HitsFrom(first, first.last.key, end - w.perSeconds as real) >= w.maxCount
    ensures NoneAdmittedBefore(policy, first, end)
  {
    forall log | Orderly(log) && log.More? && Extends(log, first)
                 && log.last.key == first.last.key && log.last.now < end
      ensures !LastVerdict(policy, log).Allowed?
    {
      RejectedBefore(policy, first, log, end);
    }
  }

  /** The run goes on with one check, made as soon as the hits before `edge` have left the window. */
  function OneMoreCheck(first: Log, key: Key, edge: real, low: real, per: real): Log
    requires low < edge
  {
    More(first, Call(key, LatestBefore(first, key, edge, low) + per, Unused(first), Up))
  }

  lemma OneMoreCounts(first: Log, key: Key, edge: real, low: real, per: real)
    requires Orderly(first) && first.More? && low < edge && first.last.now == low + per && per > 0.0
    ensures var log := OneMoreCheck(first, key, edge, low, per);
            Orderly(log) && first.last.now <= log.last.now < edge + per
            && HitsSince(log, key, log.last.now - per) == HitsFrom(first, key, edge) + 1
  {
    NoHitsBetween(first, key, edge, low, LatestBefore(first, key, edge, low));
  }

  lemma AdmittedBefore(policy: Policy, first: Log, end: real) returns (log: Log)
    requires Orderly(first) && first.More? && policy(first.last.key).perSeconds >= 1 && first.last.now < end
    requires var w := policy(first.last.key); HitsFrom(first, first.last.key, end - w.perSeconds as real) < w.maxCount
    ensures Orderly(log) && log.More? && Extends(log, first) && log.last.key == first.last.key
    ensures log.last.now < end && LastVerdict(policy, log).Allowed?
  {
    var key := first.last.key;
    var per := policy(key).perSeconds as real;
    log := OneMoreCheck(first, key, end - per, Edge(policy, first), per);
    OneMoreCounts(first, key, end - per, Edge(policy, first), per);
    WithinLimitIsAllowed(policy, log);
  }

  /** Otherwise a single check, made as soon as the hits before that edge have left, is admitted. */
  lemma AdmittedBeforeEnd(policy: Policy, first: Log) returns (log: Log)
    requires Orderly(first) && first.More? && policy(first.last.key).perSeconds >= 1
    requires LastVerdict(policy, first).Exceeded? && !FullAtWaitEnd(policy, first)
    ensures Orderly(log) && log.More? && Extends(log, first) && log.last.key == first.last.key
    ensures log.last.now < WaitEnd(policy, first) && LastVerdict(policy, log).Allowed?
  {
    RetryAfterInWindow(policy, first);
    log := AdmittedBefore(policy, first, WaitEnd(policy, first));
  }

  /** The exact condition: the announced wait is a floor exactly when those hits do fill it. */
  lemma FloorIff(policy: Policy, first: Log)
    requires Orderly(first) && first.More? && policy(first.last.key).perSeconds >= 1
    requires LastVerdict(policy, first).Exceeded?
    ensures IsFloor(policy, first) <==> FullAtWaitEnd(policy, first)
  {
    if FullAtWaitEnd(policy, first) {
      FullRejectsBefore(policy, first, WaitEnd(policy, first));
    } else {
      var log := AdmittedBeforeEnd(policy, first);
    }
  }

  /** Two calls a second: hits at 0, 0.9 and 0.95 make the third be told to wait one second, and
      the next is admitted after less than that. */
  lemma WaitIsNoFloor(key: Key)
    ensures var policy: Policy := (k: Key) => Window(2, 1);
            var first := More(More(More(Empty, Call(key, 0.0, 0, Up)), Call(key, 0.9, 1, Up)), Call(key, 0.95, 2, Up));
            Orderly(first) && LastVerdict(policy, first) == Exceeded(1) && !IsFloor(policy, first)
  {
    var policy: Policy := (k: Key) => Window(2, 1);
    var one := More(Empty, Call(key, 0.0, 0, Up));
    var two := More(one, Call(key, 0.9, 1, Up));
    var first := More(two, Call(key, 0.95, 2, Up));
    assert Members(Empty) == {} && Members(one) == {0} && Members(two) == {0, 1};
    assert Orderly(one) && Orderly(two);
    assert HitsSince(one, key, Edge(policy, first)) == 1;
    assert HitsSince(two, key, Edge(policy, first)) == 2;
    assert HitsSince(first, key, Edge(policy, first)) == 3;
    AllowedIffUnderLimit(policy, first);
    assert LastVerdict(policy, first).Exceeded?;
    RetryAfterFromOldest(policy, first);
    assert HitsFrom(Empty, key, 0.95) == 0;
    assert HitsFrom(one, key, 0.95) == 0;
    assert HitsFrom(two, key, 0.95) == 0;
    assert HitsFrom(first, key, 0.95) == 1;
    FloorIff(policy, first);
  }

  /** The documentation promises 0 on any Redis error. One call a minute: the second of two calls
      is over the limit, and the error at the second question escapes. */
  lemma RedisErrorEscapes(key: Key)
    ensures var policy: Policy := (k: Key) => Window(1, 60);
            var log := More(More(Empty, Call(key, 0.0, 0, Up)), Call(key, 1.0, 1, LosesOldest));
            Orderly(log) && LastVerdict(policy, log) == RedisFailed
  {
    var policy: Policy := (k: Key) => Window(1, 60);
    var one := More(Empty, Call(key, 0.0, 0, Up));
    var log := More(one, Call(key, 1.0, 1, LosesOldest));
    assert Members(Empty) == {} && Members(one) == {0};
    assert Orderly(one);
    assert HitsSince(one, key, Edge(policy, log)) == 1;
    AllowedIffUnderLimit(policy, log);
  }
}
