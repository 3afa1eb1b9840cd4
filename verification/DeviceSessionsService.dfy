/** The stateful service over the two token tables: grouping into a dictionary, then rows, then
    a sort; deletes issued one id at a time. */
module DeviceSessionsService {
  import opened Options
  import opened Sequences
  import opened DeviceSessions

  type Buckets = map<Fingerprint, (seq<Token>, seq<Token>)>

  /** The dictionary with keys `order` after some tokens. */
  function GroupMap(lib: Library, order: seq<Fingerprint>, ss: seq<Token>, rs: seq<Token>): Buckets {
    map k | k in order :: (InGroup(lib, k, ss), InGroup(lib, k, rs))
  }

  lemma {:induction false} FingerprintsAppend(lib: Library, tokens: seq<Token>, t: Token)
    ensures var k := DedupKey(lib, t);
            Fingerprints(lib, tokens + [t])
            == if k in Fingerprints(lib, tokens) then Fingerprints(lib, tokens) else Fingerprints(lib, tokens) + [k]
  {
    if tokens == [] {
      assert (tokens + [t])[1..] == [];
    } else {
      var k, j, ks := DedupKey(lib, t), DedupKey(lib, tokens[0]), Fingerprints(lib, tokens[1..]);
      assert (tokens + [t])[0] == tokens[0] && (tokens + [t])[1..] == tokens[1..] + [t];
      FingerprintsAppend(lib, tokens[1..], t);
      FilterAppend(Except(j), ks, [k]);
    }
  }

  lemma InGroupAppend(lib: Library, tokens: seq<Token>, t: Token, k: Fingerprint)
    ensures InGroup(lib, k, tokens + [t])
            == if DedupKey(lib, t) == k then InGroup(lib, k, tokens) + [t] else InGroup(lib, k, tokens)
  {
    FilterAppend(Has(lib, k), tokens, [t]);
  }

  lemma UnseenIsEmpty(lib: Library, ss: seq<Token>, rs: seq<Token>, k: Fingerprint)
    requires k !in Fingerprints(lib, ss + rs)
    ensures InGroup(lib, k, ss) == [] && InGroup(lib, k, rs) == []
  {
    FingerprintsDistinct(lib, ss + rs);
    forall t | t in ss || t in rs ensures DedupKey(lib, t) != k {
      assert t in ss + rs;
    }
    NoneLeft(InGroup(lib, k, ss));
    NoneLeft(InGroup(lib, k, rs));
  }

  /** `groups.setdefault(key, …)` and the append that follows it. */
  function Placed(groups: Buckets, k: Fingerprint, t: Token, isSession: bool): Buckets {
    var bucket := if k in groups then groups[k] else ([], []);
    groups[k := if isSession then (bucket.0 + [t], bucket.1) else (bucket.0, bucket.1 + [t])]
  }

  function Ordered(order: seq<Fingerprint>, k: Fingerprint): seq<Fingerprint> {
    if k in order then order else order + [k]
  }

  lemma SessionPlaced(lib: Library, order: seq<Fingerprint>, ss: seq<Token>, t: Token)
    requires DedupKey(lib, t) !in order ==> InGroup(lib, DedupKey(lib, t), ss) == []
    ensures Placed(GroupMap(lib, order, ss, []), DedupKey(lib, t), t, true)
            == GroupMap(lib, Ordered(order, DedupKey(lib, t)), ss + [t], [])
  {
    var k := DedupKey(lib, t);
    var placed := Placed(GroupMap(lib, order, ss, []), k, t, true);
    var wanted := GroupMap(lib, Ordered(order, k), ss + [t], []);
    assert placed.Keys == wanted.Keys;
    forall j | j in wanted ensures placed[j] == wanted[j] {
      InGroupAppend(lib, ss, t, j);
    }
  }

  lemma RefreshPlaced(lib: Library, order: seq<Fingerprint>, ss: seq<Token>, rs: seq<Token>, t: Token)
    requires var k := DedupKey(lib, t); k !in order ==> InGroup(lib, k, ss) == [] && InGroup(lib, k, rs) == []
    ensures Placed(GroupMap(lib, order, ss, rs), DedupKey(lib, t), t, false)
            == GroupMap(lib, Ordered(order, DedupKey(lib, t)), ss, rs + [t])
  {
    var k := DedupKey(lib, t);
    var placed := Placed(GroupMap(lib, order, ss, rs), k, t, false);
    var wanted := GroupMap(lib, Ordered(order, k), ss, rs + [t]);
    assert placed.Keys == wanted.Keys;
    forall j | j in wanted ensures placed[j] == wanted[j] {
      InGroupAppend(lib, rs, t, j);
    }
  }

  /** One step of the first loop. */
  lemma SessionStep(lib: Library, ss: seq<Token>, i: nat, order: seq<Fingerprint>)
    requires i < |ss| && order == Fingerprints(lib, ss[..i])
    ensures var k := DedupKey(lib, ss[i]);
            && Ordered(order, k) == Fingerprints(lib, ss[..i + 1])
            && Placed(GroupMap(lib, order, ss[..i], []), k, ss[i], true)
               == GroupMap(lib, Ordered(order, k), ss[..i + 1], [])
  {
    var k, done := DedupKey(lib, ss[i]), ss[..i];
    assert ss[..i + 1] == done + [ss[i]];
    FingerprintsAppend(lib, done, ss[i]);
    if k !in order {
      assert done + [] == done;
      UnseenIsEmpty(lib, done, [], k);
    }
    SessionPlaced(lib, order, done, ss[i]);
  }

  /** One step of the second loop. */
  lemma RefreshStep(lib: Library, ss: seq<Token>, rs: seq<Token>, i: nat, order: seq<Fingerprint>)
    requires i < |rs| && order == Fingerprints(lib, ss + rs[..i])
    ensures var k := DedupKey(lib, rs[i]);
            && Ordered(order, k) == Fingerprints(lib, ss + rs[..i + 1])
            && Placed(GroupMap(lib, order, ss, rs[..i]), k, rs[i], false)
               == GroupMap(lib, Ordered(order, k), ss, rs[..i + 1])
  {
    var k, done := DedupKey(lib, rs[i]), rs[..i];
    assert rs[..i + 1] == done + [rs[i]] && ss + rs[..i + 1] == ss + done + [rs[i]];
    FingerprintsAppend(lib, ss + done, rs[i]);
    if k !in order {
      UnseenIsEmpty(lib, ss, done, k);
    }
    RefreshPlaced(lib, order, ss, done, rs[i]);
  }

  lemma NotEmpty(lib: Library, ss: seq<Token>, rs: seq<Token>, k: Fingerprint)
    requires k in Fingerprints(lib, ss + rs)
    ensures InGroup(lib, k, ss) + InGroup(lib, k, rs) != []
  {
    FingerprintsDistinct(lib, ss + rs);
    var t :| t in ss + rs && DedupKey(lib, t) == k;
    assert t in InGroup(lib, k, ss) || t in InGroup(lib, k, rs);
  }

  /** One step of the third loop. */
  lemma RowStep(lib: Library, ss: seq<Token>, rs: seq<Token>, current: Option<Id>, order: seq<Fingerprint>, i: nat)
    requires i < |order| && order == Fingerprints(lib, ss + rs)
    ensures var k := order[i];
            && InGroup(lib, k, ss) + InGroup(lib, k, rs) != []
            && Map(RowOf(lib, ss, rs, current), order[..i + 1])
               == Map(RowOf(lib, ss, rs, current), order[..i])
                  + [BuildRow(lib, InGroup(lib, k, ss), InGroup(lib, k, rs), current)]
  {
    NotEmpty(lib, ss, rs, order[i]);
    MapNext(RowOf(lib, ss, rs, current), order, i);
  }

  lemma SortedRowsAreListing(lib: Library, ss: seq<Token>, rs: seq<Token>, current: Option<Id>)
    ensures SortDesc(ByLastSeen(), Map(RowOf(lib, ss, rs, current), Fingerprints(lib, ss + rs)))
            == Listing(lib, ss, rs, current)
  {
    forall k | k in Fingerprints(lib, ss + rs)
      ensures GroupLastSeen(lib, ss, rs)(k) == ByLastSeen()(RowOf(lib, ss, rs, current)(k))
    {
      NotEmpty(lib, ss, rs, k);
      RowOfFacts(lib, ss, rs, current, k);
    }
    SortMap(RowOf(lib, ss, rs, current), ByLastSeen(), GroupLastSeen(lib, ss, rs), Fingerprints(lib, ss + rs));
  }

  lemma OneMoreId(table: seq<Token>, user: UserId, ids: seq<Id>, i: nat)
    requires i < |ids|
    ensures Filter(Spared(user, [ids[i]]), Filter(Spared(user, ids[..i]), table))
            == Filter(Spared(user, ids[..i + 1]), table)
  {
    assert ids[..i + 1] == ids[..i] + [ids[i]];
    FilterTwice(Spared(user, [ids[i]]), Spared(user, ids[..i]), Spared(user, ids[..i + 1]), table);
  }

  lemma {:induction false} FilterNotLonger(keep: Token -> bool, s: seq<Token>)
    ensures |Filter(keep, s)| <= |s|
  {
    if s == [] {
    } else {
      FilterNotLonger(keep, s[1..]);
    }
  }

  class Service {
    const lib: Library
    var sessions: seq<Token>
    var refreshes: seq<Token>

    constructor (lib: Library, sessions: seq<Token>, refreshes: seq<Token>)
      ensures this.lib == lib && this.sessions == sessions && this.refreshes == refreshes
    {
      this.lib, this.sessions, this.refreshes := lib, sessions, refreshes;
    }

    ghost function Db(): Tables
      reads this
    {
      Tables(sessions, refreshes)
    }

    method GroupSessions(ss: seq<Token>) returns (order: seq<Fingerprint>, groups: Buckets)
      ensures order == Fingerprints(lib, ss) && groups == GroupMap(lib, order, ss, [])
    {
      order, groups := [], map[];
      for i := 0 to |ss|
        invariant order == Fingerprints(lib, ss[..i]) && groups == GroupMap(lib, order, ss[..i], [])
      {
        var k := DedupKey(lib, ss[i]);
        SessionStep(lib, ss, i, order);
        order, groups := Ordered(order, k), Placed(groups, k, ss[i], true);
      }
      assert ss[..|ss|] == ss;
    }

    method GroupRefreshes(ss: seq<Token>, rs: seq<Token>, order: seq<Fingerprint>, groups: Buckets)
      returns (order': seq<Fingerprint>, groups': Buckets)
      requires order == Fingerprints(lib, ss) && groups == GroupMap(lib, order, ss, [])
      ensures order' == Fingerprints(lib, ss + rs) && groups' == GroupMap(lib, order', ss, rs)
    {
      order', groups' := order, groups;
      assert ss + rs[..0] == ss;
      for i := 0 to |rs|
        invariant order' == Fingerprints(lib, ss + rs[..i]) && groups' == GroupMap(lib, order', ss, rs[..i])
      {
        var k := DedupKey(lib, rs[i]);
        RefreshStep(lib, ss, rs, i, order');
        order', groups' := Ordered(order', k), Placed(groups', k, rs[i], false);
      }
      assert rs[..|rs|] == rs;
    }

    method BuildRows(ss: seq<Token>, rs: seq<Token>, current: Option<Id>, order: seq<Fingerprint>, groups: Buckets)
      returns (rows: seq<DeviceRow>)
      requires order == Fingerprints(lib, ss + rs) && groups == GroupMap(lib, order, ss, rs)
      ensures rows == Map(RowOf(lib, ss, rs, current), order)
    {
      rows := [];
      for i := 0 to |order|
        invariant rows == Map(RowOf(lib, ss, rs, current), order[..i])
      {
        RowStep(lib, ss, rs, current, order, i);
        var bucket := groups[order[i]];
        rows := rows + [BuildRow(lib, bucket.0, bucket.1, current)];
      }
      assert order[..|order|] == order;
    }

    method ListForUser(user: UserId, current: Option<Id>, now: Time) returns (rows: seq<DeviceRow>)
      ensures rows == ListFor(lib, Db(), user, current, now)
    {
      var ss, rs := LiveSessions(sessions, user, now), LiveRefreshes(refreshes, user, now);
      var order, groups := GroupSessions(ss);
      order, groups := GroupRefreshes(ss, rs, order, groups);
      rows := BuildRows(ss, rs, current, order, groups);
      SortedRowsAreListing(lib, ss, rs, current);
      rows := SortDesc(ByLastSeen(), rows);
    }

    method DeleteSession(id: Id, user: UserId) returns (rowCount: nat)
      modifies this`sessions
      ensures sessions == Filter(Spared(user, [id]), old(sessions))
      ensures rowCount == |old(sessions)| - |sessions|
    {
      FilterNotLonger(Spared(user, [id]), sessions);
      var before := |sessions|;
      sessions := Filter(Spared(user, [id]), sessions);
      rowCount := before - |sessions|;
    }

    method DeleteRefresh(id: Id, user: UserId) returns (rowCount: nat)
      modifies this`refreshes
      ensures refreshes == Filter(Spared(user, [id]), old(refreshes))
      ensures rowCount == |old(refreshes)| - |refreshes|
    {
      FilterNotLonger(Spared(user, [id]), refreshes);
      var before := |refreshes|;
      refreshes := Filter(Spared(user, [id]), refreshes);
      rowCount := before - |refreshes|;
    }

    method DeleteSessions(ids: seq<Id>, user: UserId)
      modifies this`sessions
      ensures sessions == Filter(Spared(user, ids), old(sessions))
    {
      FilterAll(Spared(user, ids[..0]), sessions);
      for i := 0 to |ids|
        invariant sessions == Filter(Spared(user, ids[..i]), old(sessions))
      {
        OneMoreId(old(sessions), user, ids, i);
        var _ := DeleteSession(ids[i], user);
      }
      assert ids[..|ids|] == ids;
    }

    method DeleteRefreshes(ids: seq<Id>, user: UserId)
      modifies this`refreshes
      ensures refreshes == Filter(Spared(user, ids), old(refreshes))
    {
      FilterAll(Spared(user, ids[..0]), refreshes);
      for i := 0 to |ids|
        invariant refreshes == Filter(Spared(user, ids[..i]), old(refreshes))
      {
        OneMoreId(old(refreshes), user, ids, i);
        var _ := DeleteRefresh(ids[i], user);
      }
      assert ids[..|ids|] == ids;
    }

    /** The key is looked up in a fresh listing; one delete per id, each scoped to the user. */
    method RevokeDevice(user: UserId, deviceKey: string, now: Time) returns (row: Option<DeviceRow>)
      modifies this
      ensures (Db(), row) == Revoke(lib, old(Db()), user, deviceKey, now)
    {
      var rows := ListForUser(user, None, now);
      var found := Find(rows, deviceKey);
      if found == None {
        return None;
      }
      var r := rows[found.value];
      DeleteSessions(r.sessionIds, user);
      DeleteRefreshes(r.refreshIds, user);
      row := Some(r);
    }

    /** Returns how many rows of each table were deleted. The automatic revocation after a
        security change runs the same two statements. */
    method SignOut(user: UserId, current: Option<Id>) returns (sessionCount: nat, refreshCount: nat)
      modifies this
      ensures Db() == SignOutOthers(old(Db()), user, current)
      ensures sessionCount == |old(sessions)| - |sessions| && refreshCount == |old(refreshes)| - |refreshes|
    {
      FilterNotLonger(OthersOrCurrent(user, current), sessions);
      FilterNotLonger(OthersOrCurrent(user, None), refreshes);
      var before, before' := |sessions|, |refreshes|;
      sessions := Filter(OthersOrCurrent(user, current), sessions);
      refreshes := Filter(OthersOrCurrent(user, None), refreshes);
      sessionCount, refreshCount := before - |sessions|, before' - |refreshes|;
    }
  }
}
