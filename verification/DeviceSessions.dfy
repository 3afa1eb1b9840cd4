/** The "where am I signed in" list: session and refresh tokens grouped by device fingerprint,
    aggregated, sorted, and revoked through a key recomputed from the listing. */
module DeviceSessions {
  import opened Options
  import opened Sequences

  type Id = nat
  type UserId = nat
  type Time = real

  /** A row of either token table; only refresh tokens have a client. */
  datatype Token = Token(
    id: Id, user: UserId, created: Time, expires: Time,
    userAgent: Option<string>, createdIp: Option<string>,
    lastSeen: Option<Time>, lastSeenIp: Option<string>, client: Option<string>)

  datatype Agent = Agent(browser: string, os: string, mobile: bool, tablet: bool, pc: bool)

  /** What other libraries compute: user-agent parsing, the /24 or /64 network of a non-empty
      address ("unknown" if it does not parse), and the truncated hash of a set of ids. */
  datatype Library = Library(parse: string -> Agent, network: string -> string, digest: multiset<Id> -> string)

  datatype Fingerprint = Fingerprint(browser: string, os: string, bucket: string)

  datatype DeviceRow = DeviceRow(
    deviceKey: string, name: string, kind: string,
    firstSeen: Time, lastSeen: Time, lastSeenIp: Option<string>,
    sessionIds: seq<Id>, refreshIds: seq<Id>, isCurrent: bool, clients: set<string>)

  /** Python's `a or b` on optional strings. */
  function Or(a: Option<string>, b: Option<string>): Option<string> {
    if a.Some? && a.value != "" then a else b
  }

  function IpBucket(lib: Library, ip: Option<string>): string {
    if ip == None || ip.value == "" then "unknown" else lib.network(ip.value)
  }

  function LabelAndKind(lib: Library, userAgent: Option<string>): (string, string) {
    if userAgent == None || userAgent.value == "" then ("Unknown device", "unknown") else
    var ua := lib.parse(userAgent.value);
    var name := if ua.browser == "" || ua.os == "" || ua.browser == "Other" || ua.os == "Other"
                then "Unknown device" else ua.browser + " on " + ua.os;
    (name, if ua.mobile then "phone" else if ua.tablet then "tablet" else if ua.pc then "computer" else "unknown")
  }

  function DedupKey(lib: Library, t: Token): Fingerprint {
    var bucket := IpBucket(lib, Or(t.lastSeenIp, t.createdIp));
    if t.userAgent == None || t.userAgent.value == "" then Fingerprint("", "", bucket) else
    var ua := lib.parse(t.userAgent.value);
    Fingerprint(ua.browser, ua.os, bucket)
  }

  function EffectiveLastSeen(t: Token): Time {
    if t.lastSeen.Some? then t.lastSeen.value else t.created
  }

  // ---- the two repositories ----

  function ByCreated(): Token -> real {
    (t: Token) => t.created
  }

  /** A session token expiring this instant is still listed, a refresh token is not. */
  function LiveSession(user: UserId, now: Time): Token -> bool {
    (t: Token) => t.user == user && !(t.expires < now)
  }

  function LiveRefresh(user: UserId, now: Time): Token -> bool {
    (t: Token) => t.user == user && t.expires > now
  }

  function LiveSessions(sessions: seq<Token>, user: UserId, now: Time): seq<Token> {
    SortDesc(ByCreated(), Filter(LiveSession(user, now), sessions))
  }

  function LiveRefreshes(refreshes: seq<Token>, user: UserId, now: Time): seq<Token> {
    SortDesc(ByCreated(), Filter(LiveRefresh(user, now), refreshes))
  }

  // ---- the listing, as a function of the two live lists ----

  function IdOf(): Token -> Id {
    (t: Token) => t.id
  }

  function Ids(tokens: seq<Token>): seq<Id> {
    Map(IdOf(), tokens)
  }

  function Has(lib: Library, k: Fingerprint): Token -> bool {
    (t: Token) => DedupKey(lib, t) == k
  }

  function InGroup(lib: Library, k: Fingerprint, tokens: seq<Token>): seq<Token> {
    Filter(Has(lib, k), tokens)
  }

  function Except(k: Fingerprint): Fingerprint -> bool {
    (j: Fingerprint) => j != k
  }

  /** The fingerprints in the order in which they first occur. */
  function Fingerprints(lib: Library, tokens: seq<Token>): seq<Fingerprint> {
    if tokens == [] then [] else
    var k := DedupKey(lib, tokens[0]);
    [k] + Filter(Except(k), Fingerprints(lib, tokens[1..]))
  }

  /** The first token among those seen last, as Python's `max` picks it. */
  function MostRecent(tokens: seq<Token>): Token
    requires tokens != []
  {
    if |tokens| == 1 then tokens[0] else
    var rest := MostRecent(tokens[1..]);
    if EffectiveLastSeen(rest) > EffectiveLastSeen(tokens[0]) then rest else tokens[0]
  }

  function FirstSeen(tokens: seq<Token>): Time
    requires tokens != []
  {
    if |tokens| == 1 then tokens[0].created else
    var rest := FirstSeen(tokens[1..]);
    if rest < tokens[0].created then rest else tokens[0].created
  }

  function ClientNames(tokens: seq<Token>): set<string> {
    set t | t in tokens && t.client.Some? && t.client.value != "" :: t.client.value
  }

  function BuildRow(lib: Library, sessions: seq<Token>, refreshes: seq<Token>, current: Option<Id>): DeviceRow
    requires sessions + refreshes != []
  {
    var all := sessions + refreshes;
    var recent := MostRecent(all);
    var (name, kind) := LabelAndKind(lib, recent.userAgent);
    DeviceRow(
      lib.digest(multiset(Ids(all))), name, kind,
      FirstSeen(all), EffectiveLastSeen(recent), Or(recent.lastSeenIp, recent.createdIp),
      Ids(sessions), Ids(refreshes), current.Some? && current.value in Ids(sessions), ClientNames(refreshes))
  }

  /** The row of a fingerprint; one that no token has gets an empty row that is never listed. */
  function GroupRow(lib: Library, ss: seq<Token>, rs: seq<Token>, current: Option<Id>, k: Fingerprint): DeviceRow {
    if InGroup(lib, k, ss) + InGroup(lib, k, rs) == []
    then DeviceRow("", "", "", 0.0, 0.0, None, [], [], false, {})
    else BuildRow(lib, InGroup(lib, k, ss), InGroup(lib, k, rs), current)
  }

  function RowOf(lib: Library, ss: seq<Token>, rs: seq<Token>, current: Option<Id>): Fingerprint -> DeviceRow {
    (k: Fingerprint) => GroupRow(lib, ss, rs, current, k)
  }

  function GroupLastSeen(lib: Library, ss: seq<Token>, rs: seq<Token>): Fingerprint -> real {
    (k: Fingerprint) => GroupRow(lib, ss, rs, None, k).lastSeen
  }

  function ByLastSeen(): DeviceRow -> real {
    (r: DeviceRow) => r.lastSeen
  }

  /** The fingerprints in the order their rows are listed. */
  function ListedOrder(lib: Library, ss: seq<Token>, rs: seq<Token>): seq<Fingerprint> {
    SortDesc(GroupLastSeen(lib, ss, rs), Fingerprints(lib, ss + rs))
  }

  function Listing(lib: Library, ss: seq<Token>, rs: seq<Token>, current: Option<Id>): seq<DeviceRow> {
    Map(RowOf(lib, ss, rs, current), ListedOrder(lib, ss, rs))
  }

  // ---- what a listing is ----

  lemma {:induction false} FingerprintsDistinct(lib: Library, tokens: seq<Token>)
    ensures Distinct(Fingerprints(lib, tokens))
    ensures forall k :: k in Fingerprints(lib, tokens) <==> exists t :: t in tokens && DedupKey(lib, t) == k
  {
    if tokens == [] {
    } else {
      FingerprintsDistinct(lib, tokens[1..]);
      var k := DedupKey(lib, tokens[0]);
      var rest := Filter(Except(k), Fingerprints(lib, tokens[1..]));
      FilterDistinct(Except(k), Fingerprints(lib, tokens[1..]));
      var ks := [k] + rest;
      forall i, j | 0 <= i < j < |ks| ensures ks[i] != ks[j] {
        assert ks[j] == rest[j - 1] && rest[j - 1] in rest;
      }
      forall j ensures j in Fingerprints(lib, tokens) <==> exists t :: t in tokens && DedupKey(lib, t) == j {
        assert j in Fingerprints(lib, tokens) <==> j == k || j in rest;
        if j in rest {
          var t :| t in tokens[1..] && DedupKey(lib, t) == j;
          assert t in tokens;
        }
      }
    }
  }

  lemma ListedOrderFacts(lib: Library, ss: seq<Token>, rs: seq<Token>)
    ensures Distinct(ListedOrder(lib, ss, rs))
    ensures forall t :: t in ss || t in rs ==> DedupKey(lib, t) in ListedOrder(lib, ss, rs)
    ensures forall k :: k in ListedOrder(lib, ss, rs) ==> InGroup(lib, k, ss) + InGroup(lib, k, rs) != []
    ensures Descending(GroupLastSeen(lib, ss, rs), ListedOrder(lib, ss, rs))
  {
    var key, ks := GroupLastSeen(lib, ss, rs), Fingerprints(lib, ss + rs);
    FingerprintsDistinct(lib, ss + rs);
    SortKeeps(key, ks);
    MultisetDistinct(ks, SortDesc(key, ks));
    forall t | t in ss || t in rs ensures DedupKey(lib, t) in ks {
      assert t in ss + rs;
    }
    forall k | k in ks ensures InGroup(lib, k, ss) + InGroup(lib, k, rs) != [] {
      var t :| t in ss + rs && DedupKey(lib, t) == k;
      assert t in ss || t in rs;
      assert t in InGroup(lib, k, ss) || t in InGroup(lib, k, rs);
    }
  }

  lemma {:induction false} FirstSeenIsLeast(tokens: seq<Token>)
    requires tokens != []
    ensures exists t :: t in tokens && t.created == FirstSeen(tokens)
    ensures forall t :: t in tokens ==> FirstSeen(tokens) <= t.created
  {
    assert tokens[0] in tokens;
    if |tokens| <= 1 {
    } else {
      FirstSeenIsLeast(tokens[1..]);
      var t :| t in tokens[1..] && t.created == FirstSeen(tokens[1..]);
      assert t in tokens;
      assert forall t :: t in tokens ==> t == tokens[0] || t in tokens[1..];
    }
  }

  lemma {:induction false} MostRecentIsLatest(tokens: seq<Token>) returns (i: nat)
    requires tokens != []
    ensures i < |tokens| && tokens[i] == MostRecent(tokens)
    ensures forall t :: t in tokens ==> EffectiveLastSeen(t) <= EffectiveLastSeen(tokens[i])
    ensures forall j :: 0 <= j < i ==> EffectiveLastSeen(tokens[j]) < EffectiveLastSeen(tokens[i])
  {
    if |tokens| <= 1 {
      i := 0;
    } else {
      var k := MostRecentIsLatest(tokens[1..]);
      assert forall t :: t in tokens ==> t == tokens[0] || t in tokens[1..];
      assert tokens[k + 1] == tokens[1..][k];
      assert forall j :: 0 < j < k + 1 ==> tokens[j] == tokens[1..][j - 1];
      i := if EffectiveLastSeen(tokens[k + 1]) > EffectiveLastSeen(tokens[0]) then k + 1 else 0;
    }
  }

  /** The row of fingerprint `k`: it has tokens, they are all those of that fingerprint, and the
      times are their extremes, it shows the label and address of the first of those seen last, and
      it names the clients of its refresh tokens. */
  ghost predicate RowFacts(lib: Library, ss: seq<Token>, rs: seq<Token>, row: DeviceRow, k: Fingerprint) {
    var group := InGroup(lib, k, ss) + InGroup(lib, k, rs);
    && group != []
    && row.sessionIds == Ids(InGroup(lib, k, ss))
    && row.refreshIds == Ids(InGroup(lib, k, rs))
    && row.deviceKey == lib.digest(multiset(row.sessionIds + row.refreshIds))
    && (exists t :: t in group && t.created == row.firstSeen)
    && (forall t :: t in group ==> row.firstSeen <= t.created && SeenAt(t) <= row.lastSeen)
    && (exists i :: 0 <= i < |group| && Describes(lib, group[i], row) && FirstSeenAt(group, i, row.lastSeen))
    && (forall name :: name in row.clients <==>
          name != "" && exists t :: t in InGroup(lib, k, rs) && t.client == Some(name))
  }

  /** When a token was last seen, or created if it never was. */
  function SeenAt(t: Token): Time {
    match t.lastSeen
    case None => t.created
    case Some(time) => time
  }

  /** The i-th token is the first of the group seen at that time. */
  predicate FirstSeenAt(group: seq<Token>, i: nat, time: Time)
    requires i < |group|
  {
    SeenAt(group[i]) == time && forall j :: 0 <= j < i ==> SeenAt(group[j]) != time
  }

  /** The row carries the token's label, kind of device and address. */
  predicate Describes(lib: Library, t: Token, row: DeviceRow) {
    (row.name, row.kind) == LabelAndKind(lib, t.userAgent) && row.lastSeenIp == Or(t.lastSeenIp, t.createdIp)
  }

  lemma KeyOfRow(lib: Library, ss: seq<Token>, rs: seq<Token>, current: Option<Id>, k: Fingerprint)
    requires InGroup(lib, k, ss) + InGroup(lib, k, rs) != []
    ensures var row := GroupRow(lib, ss, rs, current, k);
            row.deviceKey == lib.digest(multiset(row.sessionIds + row.refreshIds))
  {
    MapAppend(IdOf(), InGroup(lib, k, ss), InGroup(lib, k, rs));
  }

  lemma RowOfFacts(lib: Library, ss: seq<Token>, rs: seq<Token>, current: Option<Id>, k: Fingerprint)
    requires InGroup(lib, k, ss) + InGroup(lib, k, rs) != []
    ensures RowFacts(lib, ss, rs, GroupRow(lib, ss, rs, current, k), k)
    ensures GroupRow(lib, ss, rs, current, k).lastSeen == GroupRow(lib, ss, rs, None, k).lastSeen
  {
    var group, row := InGroup(lib, k, ss) + InGroup(lib, k, rs), GroupRow(lib, ss, rs, current, k);
    FirstSeenIsLeast(group);
    assert row.firstSeen == FirstSeen(group);
    var i := MostRecentIsLatest(group);
    assert forall t :: SeenAt(t) == EffectiveLastSeen(t);
    assert Describes(lib, group[i], row) && FirstSeenAt(group, i, row.lastSeen);
    assert row.clients == ClientNames(InGroup(lib, k, rs));
    KeyOfRow(lib, ss, rs, current, k);
  }

  /** The listing partitions the live tokens by fingerprint: the rows have pairwise different
      fingerprints, together they cover every token, each row holds exactly the tokens of its
      fingerprint with their earliest and latest times, and the rows come latest first. */
  lemma ListingPartitions(lib: Library, ss: seq<Token>, rs: seq<Token>, current: Option<Id>)
    returns (ks: seq<Fingerprint>)
    ensures var rows := Listing(lib, ss, rs, current);
            && |ks| == |rows| && Distinct(ks)
            && (forall t :: t in ss || t in rs ==> DedupKey(lib, t) in ks)
            && (forall i :: 0 <= i < |rows| ==>
                  RowFacts(lib, ss, rs, rows[i], ks[i]))
            && Descending(ByLastSeen(), rows)
  {
    ks := ListedOrder(lib, ss, rs);
    ListedOrderFacts(lib, ss, rs);
    var rows := Listing(lib, ss, rs, current);
    forall i | 0 <= i < |rows|
      ensures RowFacts(lib, ss, rs, rows[i], ks[i]) && rows[i].lastSeen == GroupLastSeen(lib, ss, rs)(ks[i])
    {
      assert ks[i] in ks;
      RowOfFacts(lib, ss, rs, current, ks[i]);
    }
  }

  /** The primary key of a token table. */
  predicate UniqueIds(tokens: seq<Token>) {
    Distinct(tokens) && forall t, u :: t in tokens && u in tokens && t.id == u.id ==> t == u
  }

  lemma IdInGroup(lib: Library, ss: seq<Token>, k: Fingerprint, t: Token)
    requires UniqueIds(ss) && t in ss
    ensures t.id in Ids(InGroup(lib, k, ss)) <==> DedupKey(lib, t) == k
  {
    var group := InGroup(lib, k, ss);
    if t.id in Ids(group) {
      var i :| 0 <= i < |group| && Ids(group)[i] == t.id;
      assert group[i] in group;
    }
    if DedupKey(lib, t) == k {
      var i :| 0 <= i < |group| && group[i] == t;
      assert Ids(group)[i] == t.id;
    }
  }

  predicate HasSession(lib: Library, ss: seq<Token>, id: Id, k: Fingerprint) {
    exists t :: t in ss && t.id == id && DedupKey(lib, t) == k
  }

  lemma RowIsCurrent(lib: Library, ss: seq<Token>, rs: seq<Token>, current: Id, k: Fingerprint)
    requires UniqueIds(ss)
    ensures GroupRow(lib, ss, rs, Some(current), k).isCurrent <==> HasSession(lib, ss, current, k)
  {
    var group := InGroup(lib, k, ss);
    if current in Ids(group) {
      var j :| 0 <= j < |group| && Ids(group)[j] == current;
      assert group[j] in group;
    }
    if t :| t in ss && t.id == current && DedupKey(lib, t) == k {
      IdInGroup(lib, ss, k, t);
      assert t in group;
    }
  }

  lemma OneFingerprint(lib: Library, ss: seq<Token>, id: Id, j: Fingerprint, k: Fingerprint)
    requires UniqueIds(ss) && HasSession(lib, ss, id, j) && HasSession(lib, ss, id, k)
    ensures j == k
  {
    var t :| t in ss && t.id == id && DedupKey(lib, t) == j;
    var u :| u in ss && u.id == id && DedupKey(lib, u) == k;
  }

  /** Exactly one row is current if the current session is among the live ones, else none. */
  lemma CurrentRow(lib: Library, ss: seq<Token>, rs: seq<Token>, current: Id)
    requires UniqueIds(ss)
    ensures var rows := Listing(lib, ss, rs, Some(current));
            && (forall i, j :: 0 <= i < j < |rows| ==> !(rows[i].isCurrent && rows[j].isCurrent))
            && ((exists i :: 0 <= i < |rows| && rows[i].isCurrent) <==> current in Ids(ss))
  {
    var rows, ks := Listing(lib, ss, rs, Some(current)), ListedOrder(lib, ss, rs);
    forall i | 0 <= i < |rows| ensures rows[i].isCurrent <==> HasSession(lib, ss, current, ks[i]) {
      RowIsCurrent(lib, ss, rs, current, ks[i]);
    }
    assert Distinct(ks) by { ListedOrderFacts(lib, ss, rs); }
    forall i, j | 0 <= i < j < |rows| ensures !(rows[i].isCurrent && rows[j].isCurrent) {
      if rows[i].isCurrent && rows[j].isCurrent {
        OneFingerprint(lib, ss, current, ks[i], ks[j]);
      }
    }
    if current in Ids(ss) {
      var i := CurrentPosition(lib, ss, rs, current);
      assert rows[i].isCurrent;
    }
    if i :| 0 <= i < |rows| && rows[i].isCurrent {
      HasSessionId(lib, ss, current, ks[i]);
    }
  }

  lemma HasSessionId(lib: Library, ss: seq<Token>, id: Id, k: Fingerprint)
    requires HasSession(lib, ss, id, k)
    ensures id in Ids(ss)
  {
    var t :| t in ss && t.id == id && DedupKey(lib, t) == k;
    var j :| 0 <= j < |ss| && ss[j] == t;
    assert Ids(ss)[j] == id;
  }

  lemma CurrentPosition(lib: Library, ss: seq<Token>, rs: seq<Token>, current: Id) returns (i: nat)
    requires current in Ids(ss)
    ensures i < |ListedOrder(lib, ss, rs)| && HasSession(lib, ss, current, ListedOrder(lib, ss, rs)[i])
  {
    var ks := ListedOrder(lib, ss, rs);
    var j :| 0 <= j < |ss| && Ids(ss)[j] == current;
    assert ss[j] in ss;
    ListedOrderFacts(lib, ss, rs);
    i :| 0 <= i < |ks| && ks[i] == DedupKey(lib, ss[j]);
  }

  // ---- revoking one device ----

  function Lacks(lib: Library, k: Fingerprint): Token -> bool {
    (t: Token) => DedupKey(lib, t) != k
  }

  lemma {:induction false} FingerprintsFilter(lib: Library, k: Fingerprint, tokens: seq<Token>)
    ensures Fingerprints(lib, Filter(Lacks(lib, k), tokens)) == Filter(Except(k), Fingerprints(lib, tokens))
  {
    if tokens == [] {
    } else {
      var rest, j := tokens[1..], DedupKey(lib, tokens[0]);
      var ks := Fingerprints(lib, rest);
      FingerprintsFilter(lib, k, rest);
      var neither := (x: Fingerprint) => x != j && x != k;
      FilterTwice(Except(k), Except(j), neither, ks);
      FilterTwice(Except(j), Except(k), neither, ks);
      FilterCons(Except(k), j, Filter(Except(j), ks));
      if j == k {
        FilterSame(Except(k), neither, ks);
      } else {
        var kept := Filter(Lacks(lib, k), rest);
        assert ([tokens[0]] + kept)[1..] == kept;
      }
    }
  }

  lemma GroupUnaffected(lib: Library, k: Fingerprint, j: Fingerprint, tokens: seq<Token>)
    requires j != k
    ensures InGroup(lib, j, Filter(Lacks(lib, k), tokens)) == InGroup(lib, j, tokens)
  {
    FilterTwice(Has(lib, j), Lacks(lib, k), Has(lib, j), tokens);
  }

  lemma RowUnaffected(lib: Library, ss: seq<Token>, rs: seq<Token>, current: Option<Id>, k: Fingerprint, j: Fingerprint)
    requires j != k
    ensures GroupRow(lib, Filter(Lacks(lib, k), ss), Filter(Lacks(lib, k), rs), current, j)
            == GroupRow(lib, ss, rs, current, j)
  {
    GroupUnaffected(lib, k, j, ss);
    GroupUnaffected(lib, k, j, rs);
  }

  lemma OrderWithoutGroup(lib: Library, ss: seq<Token>, rs: seq<Token>, k: Fingerprint)
    ensures ListedOrder(lib, Filter(Lacks(lib, k), ss), Filter(Lacks(lib, k), rs))
            == Filter(Except(k), ListedOrder(lib, ss, rs))
  {
    var all := Fingerprints(lib, ss + rs);
    var ss', rs' := Filter(Lacks(lib, k), ss), Filter(Lacks(lib, k), rs);
    assert Fingerprints(lib, ss' + rs') == Filter(Except(k), all) by {
      FilterAppend(Lacks(lib, k), ss, rs);
      FingerprintsFilter(lib, k, ss + rs);
    }
    forall j | j in Filter(Except(k), all) ensures GroupLastSeen(lib, ss', rs')(j) == GroupLastSeen(lib, ss, rs)(j) {
      RowUnaffected(lib, ss, rs, None, k, j);
    }
    SortSame(GroupLastSeen(lib, ss', rs'), GroupLastSeen(lib, ss, rs), Filter(Except(k), all));
    SortFilter(GroupLastSeen(lib, ss, rs), Except(k), all);
  }

  /** Without the tokens of the i-th row, the listing is the former one without that row. */
  lemma ListingWithoutRow(lib: Library, ss: seq<Token>, rs: seq<Token>, current: Option<Id>, i: nat)
    requires i < |ListedOrder(lib, ss, rs)|
    ensures var k := ListedOrder(lib, ss, rs)[i];
            var rows := Listing(lib, ss, rs, current);
            Listing(lib, Filter(Lacks(lib, k), ss), Filter(Lacks(lib, k), rs), current) == rows[..i] + rows[i + 1..]
  {
    var ks := ListedOrder(lib, ss, rs);
    var k := ks[i];
    OrderWithoutGroup(lib, ss, rs, k);
    assert Distinct(ks) by { ListedOrderFacts(lib, ss, rs); }
    FilterDropsOne(ks, i, Except(k));
    var f, g := RowOf(lib, Filter(Lacks(lib, k), ss), Filter(Lacks(lib, k), rs), current), RowOf(lib, ss, rs, current);
    forall j | j in Filter(Except(k), ks) ensures f(j) == g(j) {
      RowUnaffected(lib, ss, rs, current, k, j);
    }
    MapSame(f, g, Filter(Except(k), ks));
    MapDropsOne(g, ks, i);
  }

  /** The rows that the deletes of one revocation spare. */
  function Spared(user: UserId, ids: seq<Id>): Token -> bool {
    (t: Token) => !(t.user == user && t.id in ids)
  }

  /** The first row listed under a key. */
  function Find(rows: seq<DeviceRow>, deviceKey: string): (found: Option<nat>)
    ensures found.Some? ==> found.value < |rows| && rows[found.value].deviceKey == deviceKey
    ensures forall j :: 0 <= j < (if found.Some? then found.value else |rows|) ==> rows[j].deviceKey != deviceKey
  {
    if rows == [] then None
    else if rows[0].deviceKey == deviceKey then Some(0)
    else
      match Find(rows[1..], deviceKey)
      case None =>
        assert forall j :: 0 < j < |rows| ==> rows[j] == rows[1..][j - 1];
        None
      case Some(i) =>
        assert forall j :: 0 < j <= i + 1 ==> rows[j] == rows[1..][j - 1];
        Some(i + 1)
  }

  lemma {:induction false} LiveIsPart(key: Token -> real, live: Token -> bool, table: seq<Token>)
    requires UniqueIds(table)
    ensures UniqueIds(SortDesc(key, Filter(live, table)))
    ensures forall t :: t in SortDesc(key, Filter(live, table)) <==> t in table && live(t)
  {
    var kept := Filter(live, table);
    SortKeeps(key, kept);
    FilterDistinct(live, table);
    MultisetDistinct(kept, SortDesc(key, kept));
  }

  /** Deleting a group's ids from the table removes exactly that group from the live list. */
  lemma DeletedGroup(lib: Library, key: Token -> real, live: Token -> bool, table: seq<Token>,
                     user: UserId, k: Fingerprint)
    requires UniqueIds(table) && forall t :: live(t) ==> t.user == user
    ensures var list := SortDesc(key, Filter(live, table));
            SortDesc(key, Filter(live, Filter(Spared(user, Ids(InGroup(lib, k, list))), table)))
            == Filter(Lacks(lib, k), list)
  {
    var list := SortDesc(key, Filter(live, table));
    LiveIsPart(key, live, table);
    var spared := Spared(user, Ids(InGroup(lib, k, list)));
    forall t | t in list ensures spared(t) == Lacks(lib, k)(t) {
      IdInGroup(lib, list, k, t);
    }
    var both := (t: Token) => spared(t) && live(t);
    FilterTwice(live, spared, both, table);
    FilterTwice(spared, live, both, table);
    SortFilter(key, spared, Filter(live, table));
    FilterSame(spared, Lacks(lib, k), list);
  }

  lemma DeletedElsewhere(live: Token -> bool, table: seq<Token>, user: UserId, ids: seq<Id>)
    requires forall t :: live(t) ==> t.user != user
    ensures Filter(live, Filter(Spared(user, ids), table)) == Filter(live, table)
  {
    FilterTwice(live, Spared(user, ids), live, table);
  }

  datatype Tables = Tables(sessions: seq<Token>, refreshes: seq<Token>)

  function ListFor(lib: Library, db: Tables, user: UserId, current: Option<Id>, now: Time): seq<DeviceRow> {
    Listing(lib, LiveSessions(db.sessions, user, now), LiveRefreshes(db.refreshes, user, now), current)
  }

  /** The two tables after the deletes of a revocation. */
  function Deleted(db: Tables, user: UserId, row: DeviceRow): Tables {
    Tables(Filter(Spared(user, row.sessionIds), db.sessions), Filter(Spared(user, row.refreshIds), db.refreshes))
  }

  function Revoke(lib: Library, db: Tables, user: UserId, deviceKey: string, now: Time): (Tables, Option<DeviceRow>) {
    var rows := ListFor(lib, db, user, None, now);
    match Find(rows, deviceKey)
    case None => (db, None)
    case Some(i) => (Deleted(db, user, rows[i]), Some(rows[i]))
  }

  /** Revoking an unlisted key changes nothing. Revoking a listed key deletes one row: listing
      again gives the former list without the first row of that key, all else unchanged, and
      nobody else's list changes. */
  lemma RevokeRemovesOneRow(lib: Library, db: Tables, user: UserId, deviceKey: string, now: Time, current: Option<Id>)
    requires UniqueIds(db.sessions) && UniqueIds(db.refreshes)
    ensures var rows := ListFor(lib, db, user, current, now);
            var (db', row) := Revoke(lib, db, user, deviceKey, now);
            match Find(rows, deviceKey)
            case None => row == None && db' == db
            case Some(i) =>
              row == Some(rows[i].(isCurrent := false))
              && ListFor(lib, db', user, current, now) == rows[..i] + rows[i + 1..]
  {
    FindIgnoresCurrent(lib, db, user, current, now, deviceKey);
    var plain := ListFor(lib, db, user, None, now);
    match Find(plain, deviceKey)
    case None =>
    case Some(i) =>
      assert Revoke(lib, db, user, deviceKey, now) == (Deleted(db, user, plain[i]), Some(plain[i]));
      WithoutRowTokens(lib, db, user, now, current, i);
  }

  lemma FindIgnoresCurrent(lib: Library, db: Tables, user: UserId, current: Option<Id>, now: Time, deviceKey: string)
    ensures var plain, rows := ListFor(lib, db, user, None, now), ListFor(lib, db, user, current, now);
            var found := Find(rows, deviceKey);
            |plain| == |rows| && Find(plain, deviceKey) == found
            && (found.Some? ==> plain[found.value] == rows[found.value].(isCurrent := false))
  {
    SameRows(lib, LiveSessions(db.sessions, user, now), LiveRefreshes(db.refreshes, user, now), current);
    SameFind(ListFor(lib, db, user, None, now), ListFor(lib, db, user, current, now), deviceKey);
  }

  /** Deleting the ids in the i-th row makes the next listing the former one without that row. */
  lemma WithoutRowTokens(lib: Library, db: Tables, user: UserId, now: Time, current: Option<Id>, i: nat)
    requires UniqueIds(db.sessions) && UniqueIds(db.refreshes)
    requires i < |ListFor(lib, db, user, None, now)|
    ensures var rows := ListFor(lib, db, user, current, now);
            ListFor(lib, Deleted(db, user, ListFor(lib, db, user, None, now)[i]), user, current, now)
            == rows[..i] + rows[i + 1..]
  {
    var ss, rs := LiveSessions(db.sessions, user, now), LiveRefreshes(db.refreshes, user, now);
    var k := ListedOrder(lib, ss, rs)[i];
    var db' := Deleted(db, user, ListFor(lib, db, user, None, now)[i]);
    RowIdsAreGroup(lib, ss, rs, i);
    assert LiveSessions(db'.sessions, user, now) == Filter(Lacks(lib, k), ss) by {
      DeletedGroup(lib, ByCreated(), LiveSession(user, now), db.sessions, user, k);
    }
    assert LiveRefreshes(db'.refreshes, user, now) == Filter(Lacks(lib, k), rs) by {
      DeletedGroup(lib, ByCreated(), LiveRefresh(user, now), db.refreshes, user, k);
    }
    ListingWithoutRow(lib, ss, rs, current, i);
  }

  /** Which session is current changes nothing but the flag. */
  lemma SameRows(lib: Library, ss: seq<Token>, rs: seq<Token>, current: Option<Id>)
    ensures forall i :: 0 <= i < |ListedOrder(lib, ss, rs)| ==>
                          Listing(lib, ss, rs, None)[i] == Listing(lib, ss, rs, current)[i].(isCurrent := false)
  {
  }

  lemma RowIdsAreGroup(lib: Library, ss: seq<Token>, rs: seq<Token>, i: nat)
    requires i < |ListedOrder(lib, ss, rs)|
    ensures Listing(lib, ss, rs, None)[i].sessionIds == Ids(InGroup(lib, ListedOrder(lib, ss, rs)[i], ss))
    ensures Listing(lib, ss, rs, None)[i].refreshIds == Ids(InGroup(lib, ListedOrder(lib, ss, rs)[i], rs))
  {
    ListedOrderFacts(lib, ss, rs);
    assert ListedOrder(lib, ss, rs)[i] in ListedOrder(lib, ss, rs);
  }

  lemma SameFind(a: seq<DeviceRow>, b: seq<DeviceRow>, deviceKey: string)
    requires |a| == |b| && forall j :: 0 <= j < |a| ==> a[j].deviceKey == b[j].deviceKey
    ensures Find(a, deviceKey) == Find(b, deviceKey)
  {
  }

  lemma RevokeSparesOthers(lib: Library, db: Tables, user: UserId, deviceKey: string, now: Time,
                           other: UserId, current: Option<Id>)
    requires other != user
    ensures ListFor(lib, Revoke(lib, db, user, deviceKey, now).0, other, current, now)
            == ListFor(lib, db, other, current, now)
  {
    var rows := ListFor(lib, db, user, None, now);
    match Find(rows, deviceKey)
    case None =>
    case Some(i) =>
      DeletedElsewhere(LiveSession(other, now), db.sessions, user, rows[i].sessionIds);
      DeletedElsewhere(LiveRefresh(other, now), db.refreshes, user, rows[i].refreshIds);
  }

  /** With a collision-free hash every listed key finds its own row. */
  lemma KeysAreDistinct(lib: Library, ss: seq<Token>, rs: seq<Token>, current: Option<Id>, i: nat, j: nat)
    requires forall a, b :: lib.digest(a) == lib.digest(b) ==> a == b
    requires UniqueIds(ss) && UniqueIds(rs) && forall t, u :: t in ss && u in rs ==> t.id != u.id
    requires i < j < |Listing(lib, ss, rs, current)|
    ensures Listing(lib, ss, rs, current)[i].deviceKey != Listing(lib, ss, rs, current)[j].deviceKey
  {
    var ks := ListedOrder(lib, ss, rs);
    ListedOrderFacts(lib, ss, rs);
    assert ks[i] in ks && ks[j] in ks;
    GroupsDiffer(lib, ss, rs, ks[i], ks[j]);
  }

  lemma GroupsDiffer(lib: Library, ss: seq<Token>, rs: seq<Token>, j: Fingerprint, k: Fingerprint)
    requires UniqueIds(ss) && UniqueIds(rs) && forall t, u :: t in ss && u in rs ==> t.id != u.id
    requires j != k && InGroup(lib, j, ss) + InGroup(lib, j, rs) != []
    ensures multiset(Ids(InGroup(lib, j, ss) + InGroup(lib, j, rs)))
            != multiset(Ids(InGroup(lib, k, ss) + InGroup(lib, k, rs)))
  {
    var a := InGroup(lib, j, ss) + InGroup(lib, j, rs);
    var b := InGroup(lib, k, ss) + InGroup(lib, k, rs);
    assert a[0] in a && Ids(a)[0] in multiset(Ids(a));
    forall n | 0 <= n < |b| ensures Ids(b)[n] != a[0].id {
      assert b[n] in b;
    }
    assert Ids(a)[0] !in multiset(Ids(b));
  }

  // ---- signing out everywhere else ----

  function OthersOrCurrent(user: UserId, current: Option<Id>): Token -> bool {
    (t: Token) => t.user != user || (current.Some? && t.id == current.value)
  }

  function SignOutOthers(db: Tables, user: UserId, current: Option<Id>): Tables {
    Tables(Filter(OthersOrCurrent(user, current), db.sessions), Filter(OthersOrCurrent(user, None), db.refreshes))
  }

  /** Afterwards the user's list is the current session's row alone, or empty if that session
      is not a live one of theirs; nobody else's list changes. */
  lemma SignOutLeavesCurrent(lib: Library, db: Tables, user: UserId, current: Option<Id>, now: Time)
    requires UniqueIds(db.sessions)
    ensures var db' := SignOutOthers(db, user, current);
            var rows := ListFor(lib, db', user, current, now);
            && LiveRefreshes(db'.refreshes, user, now) == []
            && (forall row :: row in rows ==> row.isCurrent && current.Some? && row.sessionIds == [current.value])
            && |rows| == if exists t :: t in db.sessions && LiveSession(user, now)(t) && current == Some(t.id)
                         then 1 else 0
  {
    var db' := SignOutOthers(db, user, current);
    var ss := LiveSessions(db'.sessions, user, now);
    NoRefreshesLeft(db, user, current, now);
    LeftSessions(db.sessions, user, current, now);
    OnlyRow(lib, ss, current);
  }

  lemma OnlyRow(lib: Library, ss: seq<Token>, current: Option<Id>)
    requires ss != [] ==> ss == [ss[0]] && current == Some(ss[0].id)
    ensures |Listing(lib, ss, [], current)| == |ss|
    ensures forall row :: row in Listing(lib, ss, [], current) ==>
                            row.isCurrent && current.Some? && row.sessionIds == [current.value]
  {
    if ss != [] {
      OneRow(lib, ss[0], current);
    } else {
      assert Listing(lib, [], [], current) == [] by { var none: seq<Token> := []; assert none + none == none; }
    }
  }

  lemma NoRefreshesLeft(db: Tables, user: UserId, current: Option<Id>, now: Time)
    ensures LiveRefreshes(SignOutOthers(db, user, current).refreshes, user, now) == []
  {
    NoneLeft(Filter(LiveRefresh(user, now), SignOutOthers(db, user, current).refreshes));
  }

  lemma LeftSessions(table: seq<Token>, user: UserId, current: Option<Id>, now: Time)
    requires UniqueIds(table)
    ensures var ss := LiveSessions(Filter(OthersOrCurrent(user, current), table), user, now);
            && |ss| == (if exists t :: t in table && LiveSession(user, now)(t) && current == Some(t.id) then 1 else 0)
            && (ss != [] ==> ss == [ss[0]] && current == Some(ss[0].id))
  {
    var left := Filter(OthersOrCurrent(user, current), table);
    var ss := LiveSessions(left, user, now);
    FilterDistinct(OthersOrCurrent(user, current), table);
    LiveIsPart(ByCreated(), LiveSession(user, now), left);
    AtMostOne(ss);
    NoneLeft(ss);
    if ss != [] {
      assert ss[0] in ss;
    }
  }

  lemma NoneLeft(tokens: seq<Token>)
    ensures (forall t :: t !in tokens) ==> tokens == []
  {
    if tokens != [] {
      assert tokens[0] in tokens;
    }
  }

  lemma AtMostOne(tokens: seq<Token>)
    requires UniqueIds(tokens)
    ensures (forall t, u :: t in tokens && u in tokens ==> t.id == u.id) ==> |tokens| <= 1
  {
    if |tokens| > 1 {
      assert tokens[0] in tokens && tokens[1] in tokens;
    }
  }

  lemma OneRow(lib: Library, t: Token, current: Option<Id>)
    ensures Listing(lib, [t], [], current) == [BuildRow(lib, [t], [], current)]
    ensures BuildRow(lib, [t], [], current).sessionIds == [t.id]
  {
    var k := DedupKey(lib, t);
    assert [t] + [] == [t];
    assert Fingerprints(lib, [t]) == [k];
    assert SortDesc(GroupLastSeen(lib, [t], []), [k]) == [k];
    assert InGroup(lib, k, [t]) == [t];
  }

  lemma SignOutSparesOthers(lib: Library, db: Tables, user: UserId, current: Option<Id>, other: UserId, now: Time)
    requires other != user
    ensures ListFor(lib, SignOutOthers(db, user, current), other, None, now) == ListFor(lib, db, other, None, now)
  {
    FilterTwice(LiveSession(other, now), OthersOrCurrent(user, current), LiveSession(other, now), db.sessions);
    FilterTwice(LiveRefresh(other, now), OthersOrCurrent(user, None), LiveRefresh(other, now), db.refreshes);
  }

  // ---- over the tables ----

  predicate Listed(rows: seq<DeviceRow>, id: Id, session: bool) {
    exists i :: 0 <= i < |rows| && id in if session then rows[i].sessionIds else rows[i].refreshIds
  }

  lemma RowAt(lib: Library, ss: seq<Token>, rs: seq<Token>, current: Option<Id>, i: nat)
    requires i < |ListedOrder(lib, ss, rs)|
    ensures var row, k := Listing(lib, ss, rs, current)[i], ListedOrder(lib, ss, rs)[i];
            row.sessionIds == Ids(InGroup(lib, k, ss)) && row.refreshIds == Ids(InGroup(lib, k, rs))
  {
    SameRows(lib, ss, rs, current);
    RowIdsAreGroup(lib, ss, rs, i);
  }

  lemma RowFor(lib: Library, ss: seq<Token>, rs: seq<Token>, t: Token) returns (i: nat)
    requires t in ss || t in rs
    ensures i < |ListedOrder(lib, ss, rs)| && ListedOrder(lib, ss, rs)[i] == DedupKey(lib, t)
  {
    ListedOrderFacts(lib, ss, rs);
    i :| 0 <= i < |ListedOrder(lib, ss, rs)| && ListedOrder(lib, ss, rs)[i] == DedupKey(lib, t);
  }

  /** The row of a live token lists it. */
  lemma LiveIsListed(lib: Library, ss: seq<Token>, rs: seq<Token>, current: Option<Id>, t: Token)
    ensures t in ss ==> Listed(Listing(lib, ss, rs, current), t.id, true)
    ensures t in rs ==> Listed(Listing(lib, ss, rs, current), t.id, false)
  {
    if t in ss || t in rs {
      var i := RowFor(lib, ss, rs, t);
      RowAt(lib, ss, rs, current, i);
      if t in ss {
        IdOfMember(InGroup(lib, DedupKey(lib, t), ss), t);
      }
      if t in rs {
        IdOfMember(InGroup(lib, DedupKey(lib, t), rs), t);
      }
    }
  }

  /** What is listed is the id of a live token. */
  lemma ListedIsLive(lib: Library, ss: seq<Token>, rs: seq<Token>, current: Option<Id>, id: Id)
    ensures Listed(Listing(lib, ss, rs, current), id, true) ==> id in Ids(ss)
    ensures Listed(Listing(lib, ss, rs, current), id, false) ==> id in Ids(rs)
  {
    var rows, ks := Listing(lib, ss, rs, current), ListedOrder(lib, ss, rs);
    if i :| 0 <= i < |rows| && id in rows[i].sessionIds {
      RowAt(lib, ss, rs, current, i);
      IdsOfPart(InGroup(lib, ks[i], ss), ss, id);
    }
    if i :| 0 <= i < |rows| && id in rows[i].refreshIds {
      RowAt(lib, ss, rs, current, i);
      IdsOfPart(InGroup(lib, ks[i], rs), rs, id);
    }
  }

  lemma IdOfMember(tokens: seq<Token>, t: Token)
    requires t in tokens
    ensures t.id in Ids(tokens)
  {
    var j :| 0 <= j < |tokens| && tokens[j] == t;
    assert Ids(tokens)[j] == t.id;
  }

  lemma IdsOfPart(part: seq<Token>, all: seq<Token>, id: Id)
    requires id in Ids(part) && forall t :: t in part ==> t in all
    ensures id in Ids(all)
  {
    var j :| 0 <= j < |part| && Ids(part)[j] == id;
    assert part[j] in part;
    IdOfMember(all, part[j]);
  }

  lemma IdIsLive(key: Token -> real, live: Token -> bool, table: seq<Token>, t: Token)
    requires UniqueIds(table) && t in table
    ensures t.id in Ids(SortDesc(key, Filter(live, table))) <==> live(t)
  {
    var list := SortDesc(key, Filter(live, table));
    LiveIsPart(key, live, table);
    if j :| 0 <= j < |list| && Ids(list)[j] == t.id {
      assert list[j] in list && list[j].id == t.id;
    }
    if live(t) {
      IdOfMember(list, t);
    }
  }

  /** Which tokens a user's list shows: their own, a session up to and including the instant it
      expires, a refresh token only before it. */
  lemma ShowsLiveTokens(lib: Library, db: Tables, user: UserId, current: Option<Id>, now: Time, t: Token)
    requires UniqueIds(db.sessions) && UniqueIds(db.refreshes)
    ensures var rows := ListFor(lib, db, user, current, now);
            && (t in db.sessions ==> (Listed(rows, t.id, true) <==> t.user == user && t.expires >= now))
            && (t in db.refreshes ==> (Listed(rows, t.id, false) <==> t.user == user && t.expires > now))
  {
    var ss, rs := LiveSessions(db.sessions, user, now), LiveRefreshes(db.refreshes, user, now);
    LiveIsListed(lib, ss, rs, current, t);
    ListedIsLive(lib, ss, rs, current, t.id);
    LiveIsPart(ByCreated(), LiveSession(user, now), db.sessions);
    LiveIsPart(ByCreated(), LiveRefresh(user, now), db.refreshes);
    if t in db.sessions {
      IdIsLive(ByCreated(), LiveSession(user, now), db.sessions, t);
    }
    if t in db.refreshes {
      IdIsLive(ByCreated(), LiveRefresh(user, now), db.refreshes, t);
    }
  }

  lemma {:induction false} FilterDescends(key: Token -> real, keep: Token -> bool, s: seq<Token>)
    requires Descending(key, s)
    ensures Descending(key, Filter(keep, s))
  {
    if s == [] {
    } else {
      FilterDescends(key, keep, s[1..]);
      var rest := Filter(keep, s[1..]);
      forall j | 0 <= j < |rest| ensures key(s[0]) >= key(rest[j]) {
        assert rest[j] in s[1..];
        var n :| 0 <= n < |s[1..]| && s[1..][n] == rest[j];
        assert s[n + 1] == rest[j];
      }
    }
  }

  /** Within each row, sessions and refresh tokens come newest first. */
  lemma RowsAreNewestFirst(lib: Library, db: Tables, user: UserId, current: Option<Id>, now: Time, i: nat)
    requires i < |ListFor(lib, db, user, current, now)|
    ensures var row := ListFor(lib, db, user, current, now)[i];
            exists ss, rs :: row.sessionIds == Ids(ss) && row.refreshIds == Ids(rs)
                             && Descending(ByCreated(), ss) && Descending(ByCreated(), rs)
                             && (forall t :: t in ss ==> t in db.sessions)
                             && (forall t :: t in rs ==> t in db.refreshes)
  {
    var ss, rs := LiveSessions(db.sessions, user, now), LiveRefreshes(db.refreshes, user, now);
    var k := ListedOrder(lib, ss, rs)[i];
    SortKeeps(ByCreated(), Filter(LiveSession(user, now), db.sessions));
    SortKeeps(ByCreated(), Filter(LiveRefresh(user, now), db.refreshes));
    FilterDescends(ByCreated(), Has(lib, k), ss);
    FilterDescends(ByCreated(), Has(lib, k), rs);
    RowAt(lib, ss, rs, current, i);
  }

  /** What is left in the tables: revoking deletes the returned row's tokens of that user and no
      other token; signing out deletes every token of the user but the current session. */
  lemma TablesAfter(lib: Library, db: Tables, user: UserId, deviceKey: string, current: Option<Id>, now: Time, t: Token)
    ensures var (db', row) := Revoke(lib, db, user, deviceKey, now);
            && (t in db'.sessions
                <==> t in db.sessions && !(row.Some? && t.user == user && t.id in row.value.sessionIds))
            && (t in db'.refreshes
                <==> t in db.refreshes && !(row.Some? && t.user == user && t.id in row.value.refreshIds))
    ensures var db' := SignOutOthers(db, user, current);
            && (t in db'.sessions <==> t in db.sessions && (t.user == user ==> current == Some(t.id)))
            && (t in db'.refreshes <==> t in db.refreshes && t.user != user)
  {
  }

  // ---- what makes a device ----

  predicate Given(text: Option<string>) {
    text.Some? && text.value != ""
  }

  function BrowserFamily(lib: Library, t: Token): string {
    if Given(t.userAgent) then lib.parse(t.userAgent.value).browser else ""
  }

  function OsFamily(lib: Library, t: Token): string {
    if Given(t.userAgent) then lib.parse(t.userAgent.value).os else ""
  }

  /** The network of the last address seen, or of the first where none was. */
  function NetworkOf(lib: Library, t: Token): string {
    if Given(t.lastSeenIp) then lib.network(t.lastSeenIp.value)
    else if Given(t.createdIp) then lib.network(t.createdIp.value)
    else "unknown"
  }

  /** Two tokens belong to one device exactly when browser family, operating system and network
      agree, whatever else differs. */
  lemma SameDeviceIff(lib: Library, t: Token, u: Token)
    ensures DedupKey(lib, t) == DedupKey(lib, u)
            <==> BrowserFamily(lib, t) == BrowserFamily(lib, u) && OsFamily(lib, t) == OsFamily(lib, u)
                 && NetworkOf(lib, t) == NetworkOf(lib, u)
  {
  }

  predicate Names(family: string) {
    family != "" && family != "Other"
  }

  /** A device is labelled by its families only if both are named, and its kind is the first that
      applies of phone, tablet and computer. */
  lemma LabelsAre(lib: Library, t: Token)
    ensures var (name, kind) := LabelAndKind(lib, t.userAgent);
            && (name == if Names(BrowserFamily(lib, t)) && Names(OsFamily(lib, t))
                        then BrowserFamily(lib, t) + " on " + OsFamily(lib, t) else "Unknown device")
            && (kind == "unknown" <==> !Given(t.userAgent) || var a := lib.parse(t.userAgent.value);
                                       !a.mobile && !a.tablet && !a.pc)
            && (kind == "phone" <==> Given(t.userAgent) && lib.parse(t.userAgent.value).mobile)
            && (kind == "tablet"
                <==> Given(t.userAgent) && var a := lib.parse(t.userAgent.value); a.tablet && !a.mobile)
            && (kind == "computer"
                <==> Given(t.userAgent) && var a := lib.parse(t.userAgent.value); a.pc && !a.tablet && !a.mobile)
  {
  }
}
