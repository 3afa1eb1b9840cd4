/** Single-use MFA recovery codes: generation, storage as hashes, consumption. */
module RecoveryCodes {
  import opened Options
  import opened Text

  type UserId = nat

  const CODE_LENGTH: nat := 8
  const NUM_CODES: nat := 10
  const MAX_ATTEMPTS: nat := NUM_CODES * 5

  /** A hash that only its own text verifies against: bcrypt without collisions, salt left out. */
  datatype Hash = Bcrypt(text: string)

  predicate VerifyHash(text: string, h: Hash) {
    text == h.text
  }

  datatype CodeRow = CodeRow(user: UserId, hash: Hash, used: bool)

  /** The base32 alphabet of section 6 of RFC 4648. */
  predicate InAlphabet(c: char) {
    'A' <= c <= 'Z' || '2' <= c <= '7'
  }

  /** A drawn code: `XXXX-XXXX` over the alphabet. */
  predicate Drawn(code: string) {
    |code| == 9 && code[4] == '-' && forall i :: 0 <= i < 9 && i != 4 ==> InAlphabet(code[i])
  }

  function Normalize(code: string): string {
    Upper(Strip(IsSpace, Remove(' ', Remove('-', code))))
  }

  predicate IsWellFormed(normalized: string) {
    |normalized| == CODE_LENGTH && forall c :: c in normalized ==> InAlphabet(c)
  }

  // ---- generation ----

  /** The codes kept after the first `n` draws: repeats are skipped, and ten are enough. */
  function Kept(draws: seq<string>, n: nat): (codes: seq<string>)
    requires n <= |draws|
    ensures |codes| <= NUM_CODES
  {
    if n == 0 then [] else
    var codes := Kept(draws, n - 1);
    if |codes| == NUM_CODES || draws[n - 1] in codes then codes else codes + [draws[n - 1]]
  }

  /** The codes kept were drawn, and no two are the same. */
  lemma {:induction false} KeptFacts(draws: seq<string>, n: nat)
    requires n <= |draws|
    ensures forall c :: c in Kept(draws, n) ==> c in draws[..n]
    ensures forall i, j :: 0 <= i < j < |Kept(draws, n)| ==> Kept(draws, n)[i] != Kept(draws, n)[j]
  {
    if n == 0 {
    } else {
      KeptFacts(draws, n - 1);
      assert draws[..n] == draws[..n - 1] + [draws[n - 1]];
    }
  }

  function NewRow(u: UserId, code: string): CodeRow {
    CodeRow(u, Bcrypt(Normalize(code)), false)
  }

  function Rows(u: UserId, codes: seq<string>): seq<CodeRow> {
    if codes == [] then [] else Rows(u, codes[..|codes| - 1]) + [NewRow(u, codes[|codes| - 1])]
  }

  lemma {:induction false} RowsAre(u: UserId, codes: seq<string>)
    ensures |Rows(u, codes)| == |codes|
    ensures forall i :: 0 <= i < |codes| ==> Rows(u, codes)[i] == NewRow(u, codes[i])
  {
    if codes == [] {
    } else {
      RowsAre(u, codes[..|codes| - 1]);
    }
  }

  lemma OwnRows(u: UserId, codes: seq<string>)
    ensures forall x :: x in Rows(u, codes) ==> x.user == u
  {
    RowsAre(u, codes);
  }

  function Distinct(draws: seq<string>): set<string> {
    set d | d in draws
  }

  lemma DistinctAppend(codes: seq<string>, code: string)
    ensures code in Distinct(codes) <==> code in codes
    ensures Distinct(codes + [code]) == Distinct(codes) + {code}
  {
  }

  lemma NothingKept(draws: seq<string>, u: UserId, others: seq<CodeRow>)
    ensures Kept(draws, 0) == [] && Distinct([]) == {} && others + Rows(u, []) == others
  {
  }

  lemma RowsAppend(u: UserId, others: seq<CodeRow>, codes: seq<string>, code: string)
    ensures others + Rows(u, codes + [code]) == others + Rows(u, codes) + [NewRow(u, code)]
  {
    assert (codes + [code])[..|codes|] == codes;
  }

  function Without(rows: seq<CodeRow>, u: UserId): seq<CodeRow> {
    if rows == [] then []
    else if rows[0].user == u then Without(rows[1..], u)
    else [rows[0]] + Without(rows[1..], u)
  }

  lemma {:induction false} WithoutIs(rows: seq<CodeRow>, u: UserId)
    ensures forall x :: x in Without(rows, u) <==> x in rows && x.user != u
  {
    if rows == [] {
    } else {
      WithoutIs(rows[1..], u);
      assert forall x :: x in rows <==> x == rows[0] || x in rows[1..];
    }
  }

  /** The first unused row of the user that the text verifies against. */
  function Match(rows: seq<CodeRow>, u: UserId, text: string): (found: Option<nat>)
    ensures found.Some? ==> found.value < |rows| && Matches(rows[found.value], u, text)
    ensures forall j :: 0 <= j < (if found.Some? then found.value else |rows|) ==> !Matches(rows[j], u, text)
  {
    if rows == [] then None
    else if Matches(rows[0], u, text) then Some(0)
    else
      match Match(rows[1..], u, text)
      case None =>
        assert forall j :: 0 < j < |rows| ==> rows[j] == rows[1..][j - 1];
        None
      case Some(i) =>
        assert forall j :: 0 < j <= i + 1 ==> rows[j] == rows[1..][j - 1];
        Some(i + 1)
  }

  predicate Unspent(row: CodeRow, u: UserId) {
    row.user == u && !row.used
  }

  predicate Matches(row: CodeRow, u: UserId, text: string) {
    Unspent(row, u) && VerifyHash(text, row.hash)
  }

  function Consume(rows: seq<CodeRow>, u: UserId, code: string): (seq<CodeRow>, bool) {
    var text := Normalize(code);
    if !IsWellFormed(text) then (rows, false) else
    match Match(rows, u, text)
    case None => (rows, false)
    case Some(i) => (rows[i := rows[i].(used := true)], true)
  }

  /** The random codes that one generation may look at. */
  type Draws = d: seq<string> | |d| == 50 witness seq(50, _ => "")

  /** The table after a generation. */
  function Generated(rows: seq<CodeRow>, u: UserId, draws: Draws): seq<CodeRow> {
    Without(rows, u) + Rows(u, Kept(draws, MAX_ATTEMPTS))
  }

  lemma ConsumeKeepsUsers(rows: seq<CodeRow>, u: UserId, code: string, row: CodeRow)
    requires row in Consume(rows, u, code).0
    ensures exists x :: x in rows && x.user == row.user
  {
    var after := Consume(rows, u, code).0;
    var i :| 0 <= i < |after| && after[i] == row;
    assert rows[i] in rows && rows[i].user == row.user;
  }

  class RecoveryCodeService {
    var rows: seq<CodeRow>

    constructor ()
      ensures rows == []
    {
      rows := [];
    }

    method DeleteByUserId(u: UserId)
      modifies this
      ensures rows == Without(old(rows), u)
    {
      rows := Without(rows, u);
    }

    /** `draws` are the random codes; the loop looks at no more than fifty. */
    method GenerateFor(u: UserId, draws: Draws) returns (codes: seq<string>)
      modifies this
      ensures codes == Kept(draws, MAX_ATTEMPTS)
      ensures rows == Generated(old(rows), u, draws)
    {
      DeleteByUserId(u);
      ghost var others := rows;
      codes := [];
      var seen: set<string> := {};
      var attempts := 0;
      NothingKept(draws, u, rows);
      while |codes| < NUM_CODES && attempts < MAX_ATTEMPTS
        invariant attempts <= MAX_ATTEMPTS
        invariant codes == Kept(draws, attempts)
        invariant seen == Distinct(codes)
        invariant rows == others + Rows(u, codes)
      {
        var code := draws[attempts];
        ghost var next := Kept(draws, attempts + 1);
        assert next == if code in seen then codes else codes + [code] by {
          NextDraw(draws, attempts);
        }
        attempts := attempts + 1;
        if code !in seen {
          DistinctAppend(codes, code);
          RowsAppend(u, others, codes, code);
          seen := seen + {code};
          codes := codes + [code];
          rows := rows + [NewRow(u, code)];
        }
        assert codes == next;
      }
      EnoughIsEnough(draws, attempts, MAX_ATTEMPTS);
    }

    /** Every unused row is tried, also after a match; the first match is marked used. */
    method ConsumeCode(u: UserId, code: string) returns (accepted: bool)
      modifies this
      ensures (rows, accepted) == Consume(old(rows), u, code)
    {
      var text := Normalize(code);
      if !IsWellFormed(text) {
        return false;
      }
      var matched: Option<nat> := None;
      for i := 0 to |rows|
        invariant matched.Some? ==> matched.value < i && Matches(rows[matched.value], u, text)
        invariant forall j :: 0 <= j < (if matched.Some? then matched.value else i) ==> !Matches(rows[j], u, text)
      {
        if rows[i].user == u && !rows[i].used {
          var ok := VerifyHash(text, rows[i].hash);
          if ok && matched == None {
            matched := Some(i);
          }
        }
      }
      assert matched == Match(rows, u, text);
      if matched == None {
        return false;
      }
      rows := rows[matched.value := rows[matched.value].(used := true)];
      accepted := true;
    }
  }

  /** One step of the draw loop. */
  lemma NextDraw(draws: seq<string>, n: nat)
    requires n < |draws| && |Kept(draws, n)| < NUM_CODES
    ensures Kept(draws, n + 1)
            == if draws[n] in Kept(draws, n) then Kept(draws, n) else Kept(draws, n) + [draws[n]]
  {
  }

  lemma {:induction false} EnoughIsEnough(draws: seq<string>, n: nat, m: nat)
    requires n <= m <= |draws| && (n == m || |Kept(draws, n)| == NUM_CODES)
    ensures Kept(draws, m) == Kept(draws, n)
    decreases m
  {
    if n == m {
    } else {
      EnoughIsEnough(draws, n, m - 1);
    }
  }

  // ---- what is generated ----

  lemma RemoveAbsent(c: char, s: string)
    requires c !in s
    ensures Remove(c, s) == s
  {
  }

  lemma {:induction false} RemoveAt(c: char, s: string, i: nat)
    requires i < |s| && s[i] == c && forall j :: 0 <= j < |s| && j != i ==> s[j] != c
    ensures Remove(c, s) == s[..i] + s[i + 1..]
  {
    if i == 0 {
      assert c !in s[1..];
      RemoveAbsent(c, s[1..]);
    } else {
      RemoveAt(c, s[1..], i - 1);
      assert s[..i] == [s[0]] + s[1..][..i - 1] && s[1..][i..] == s[i + 1..];
    }
  }

  lemma AlphabetFixed(s: string)
    requires forall c :: c in s ==> InAlphabet(c)
    ensures Upper(Strip(IsSpace, Remove(' ', s))) == s
  {
    RemoveAbsent(' ', s);
    if s != "" {
      assert s[0] in s && s[|s| - 1] in s;
      StripNothing(IsSpace, s);
    }
    forall i | 0 <= i < |s| ensures Upper(s)[i] == s[i] {
      assert s[i] in s;
    }
  }

  /** A drawn code normalises to its eight characters, and they are well formed. */
  lemma DrawnNormalizes(code: string)
    requires Drawn(code)
    ensures Normalize(code) == code[..4] + code[5..] && IsWellFormed(Normalize(code))
  {
    RemoveAt('-', code, 4);
    var text := code[..4] + code[5..];
    forall c | c in text ensures InAlphabet(c) {
      var i :| 0 <= i < 8 && text[i] == c;
      assert c == code[if i < 4 then i else i + 1];
    }
    AlphabetFixed(text);
  }

  lemma {:induction false} RemoveAppend(c: char, a: string, b: string)
    ensures Remove(c, a + b) == Remove(c, a) + Remove(c, b)
  {
    if a == "" {
      assert a + b == b;
    } else {
      assert (a + b)[1..] == a[1..] + b;
      RemoveAppend(c, a[1..], b);
    }
  }

  /** However it is typed: dashes and spaces anywhere, blanks around it and lower case make no
      difference. */
  lemma TypedForms(a: string, c: char, b: string)
    ensures c == '-' || c == ' ' ==> Normalize(a + [c] + b) == Normalize(a + b)
    ensures Normalize(Upper(a)) == Normalize(a)
    ensures IsSpace(c) ==> Normalize([c] + a) == Normalize(a) && Normalize(a + [c]) == Normalize(a)
  {
    if c == '-' || c == ' ' {
      BlankAnywhere(a, c, b);
    }
    UpperFirst(a);
    if IsSpace(c) {
      BlankBefore(c, a);
      BlankAfter(a, c);
    }
  }

  /** A letter typed in lower case. */
  predicate SameButCase(s: string, t: string) {
    |s| == |t| && forall i :: 0 <= i < |s| ==> t[i] == s[i] || ('A' <= s[i] <= 'Z' && t[i] == s[i] - 'A' + 'a')
  }

  /** Case makes no difference. */
  lemma CaseIsIgnored(s: string, t: string)
    requires SameButCase(s, t)
    ensures Normalize(t) == Normalize(s)
  {
    assert Upper(t) == Upper(s);
    UpperFirst(s);
    UpperFirst(t);
  }

  /** The thirty-two characters. */
  lemma AlphabetIs(c: char)
    ensures InAlphabet(c) <==> c in "ABCDEFGHIJKLMNOPQRSTUVWXYZ234567"
  {
    var all := "ABCDEFGHIJKLMNOPQRSTUVWXYZ234567";
    assert forall i :: 0 <= i < 32 ==> InAlphabet(all[i]);
    if InAlphabet(c) {
      var i := if c <= '7' then (c - '2') as int + 26 else (c - 'A') as int;
      assert all[i] == c;
    }
  }

  /** A text of any other form is refused, whatever is stored, and nothing changes. */
  lemma MalformedIsRefused(rows: seq<CodeRow>, u: UserId, code: string)
    requires !IsWellFormed(Normalize(code))
    ensures Consume(rows, u, code) == (rows, false)
  {
  }

  lemma BlankAnywhere(a: string, c: char, b: string)
    requires c == '-' || c == ' '
    ensures Normalize(a + [c] + b) == Normalize(a + b)
  {
    RemoveAppend('-', a + [c], b);
    RemoveAppend('-', a, [c]);
    RemoveAppend('-', a, b);
    var x, y := Remove('-', a), Remove('-', b);
    assert Remove('-', [c]) == if c == '-' then "" else [c];
    if c == '-' {
      assert x + "" + y == x + y;
    } else {
      RemoveAppend(' ', x + [c], y);
      RemoveAppend(' ', x, [c]);
      RemoveAppend(' ', x, y);
      assert Remove(' ', [c]) == "" && Remove(' ', x) + "" == Remove(' ', x);
      assert Remove(' ', x + [c] + y) == Remove(' ', x + y);
    }
  }

  lemma {:induction false} RemoveUpper(c: char, s: string)
    requires c == '-' || c == ' '
    ensures Remove(c, Upper(s)) == Upper(Remove(c, s))
  {
    if s == "" {
    } else {
      assert Upper(s)[1..] == Upper(s[1..]);
      RemoveUpper(c, s[1..]);
    }
  }

  lemma {:induction false} StripLeftUpper(s: string)
    ensures StripLeft(IsSpace, Upper(s)) == Upper(StripLeft(IsSpace, s))
  {
    if s == "" {
    } else {
      assert Upper(s)[1..] == Upper(s[1..]);
      StripLeftUpper(s[1..]);
    }
  }

  lemma {:induction false} StripRightUpper(s: string)
    ensures StripRight(IsSpace, Upper(s)) == Upper(StripRight(IsSpace, s))
  {
    if s == "" {
    } else {
      assert Upper(s)[..|s| - 1] == Upper(s[..|s| - 1]);
      StripRightUpper(s[..|s| - 1]);
    }
  }

  lemma UpperFirst(s: string)
    ensures Normalize(Upper(s)) == Normalize(s)
  {
    RemoveUpper('-', s);
    var x := Remove('-', s);
    RemoveUpper(' ', x);
    var y := Remove(' ', x);
    StripLeftUpper(y);
    StripRightUpper(StripLeft(IsSpace, y));
    var z := Strip(IsSpace, y);
    assert Upper(Upper(z)) == Upper(z);
  }

  lemma BlankBefore(c: char, a: string)
    requires IsSpace(c)
    ensures Normalize([c] + a) == Normalize(a)
  {
    RemoveAppend('-', [c], a);
    var x := Remove('-', a);
    assert Remove('-', [c]) == [c];
    RemoveAppend(' ', [c], x);
    var y := Remove(' ', x);
    assert Remove(' ', [c]) == if c == ' ' then "" else [c];
    assert "" + y == y && ([c] + y)[1..] == y;
  }

  lemma {:induction false} StripLeftAppend(y: string, c: char)
    requires IsSpace(c)
    ensures StripLeft(IsSpace, y + [c]) == if StripLeft(IsSpace, y) == "" then "" else StripLeft(IsSpace, y) + [c]
  {
    if y == "" {
      assert [c][1..] == "";
    } else {
      assert (y + [c])[1..] == y[1..] + [c];
      StripLeftAppend(y[1..], c);
    }
  }

  lemma BlankAfter(a: string, c: char)
    requires IsSpace(c)
    ensures Normalize(a + [c]) == Normalize(a)
  {
    RemoveAppend('-', a, [c]);
    var x := Remove('-', a);
    assert Remove('-', [c]) == [c];
    RemoveAppend(' ', x, [c]);
    var y := Remove(' ', x);
    assert Remove(' ', [c]) == if c == ' ' then "" else [c];
    assert y + "" == y;
    StripLeftAppend(y, c);
    var z := StripLeft(IsSpace, y);
    assert z != "" ==> (z + [c])[..|z + [c]| - 1] == z;
  }

  predicate DistinctWellFormed(codes: seq<string>) {
    && (forall i :: 0 <= i < |codes| ==> IsWellFormed(Normalize(codes[i])))
    && (forall i, j :: 0 <= i < j < |codes| ==> Normalize(codes[i]) != Normalize(codes[j]))
  }

  /** Every generated code is well formed once normalised, and the stored forms are pairwise
      distinct, so no two codes of one set are interchangeable. */
  lemma GeneratedFormsDistinct(draws: seq<string>, n: nat)
    requires n <= |draws| && forall d :: d in draws ==> Drawn(d)
    ensures DistinctWellFormed(Kept(draws, n))
  {
    var codes := Kept(draws, n);
    KeptFacts(draws, n);
    forall i | 0 <= i < |codes| ensures Drawn(codes[i]) && Normalize(codes[i]) == codes[i][..4] + codes[i][5..]
                                     && IsWellFormed(Normalize(codes[i])) {
      assert codes[i] in codes;
      DrawnNormalizes(codes[i]);
    }
    forall i, j | 0 <= i < j < |codes| ensures Normalize(codes[i]) != Normalize(codes[j]) {
      if Normalize(codes[i]) == Normalize(codes[j]) {
        SameHalves(codes[i], codes[j]);
      }
    }
  }

  lemma SameHalves(c: string, d: string)
    requires Drawn(c) && Drawn(d) && c[..4] + c[5..] == d[..4] + d[5..]
    ensures c == d
  {
    forall i | 0 <= i < 9 ensures c[i] == d[i] {
      if i < 4 {
        assert (c[..4] + c[5..])[i] == (d[..4] + d[5..])[i];
      } else if i > 4 {
        assert (c[..4] + c[5..])[i - 1] == (d[..4] + d[5..])[i - 1];
      }
    }
  }

  /** A full set of ten is returned exactly when the first fifty draws hold ten different codes;
      otherwise every different code drawn is returned. */
  lemma {:induction false} HowManyCodes(draws: seq<string>, n: nat)
    requires n <= |draws|
    ensures |Kept(draws, n)| == if |Distinct(draws[..n])| < 10 then |Distinct(draws[..n])| else 10
    ensures |Kept(draws, n)| < 10 ==> Distinct(Kept(draws, n)) == Distinct(draws[..n])
  {
    if n == 0 {
      assert Distinct(draws[..0]) == {};
    } else {
      HowManyCodes(draws, n - 1);
      var before, d := Distinct(draws[..n - 1]), draws[n - 1];
      assert draws[..n] == draws[..n - 1] + [d];
      assert Distinct(draws[..n]) == before + {d};
      assert |before + {d}| == |before| + if d in before then 0 else 1 by {
        if d in before {
          assert before + {d} == before;
        }
      }
      if |Kept(draws, n - 1)| < NUM_CODES {
        assert d in before <==> d in Kept(draws, n - 1);
        if d !in before {
          assert Distinct(Kept(draws, n)) == Distinct(Kept(draws, n - 1)) + {d};
        }
      }
    }
  }

  /** What one generation keeps of its fifty draws: ten codes, or all the different ones. */
  lemma HowManyInAll(draws: Draws)
    ensures |Kept(draws, MAX_ATTEMPTS)| == if |Distinct(draws)| < 10 then |Distinct(draws)| else 10
  {
    HowManyCodes(draws, |draws|);
    assert draws[..|draws|] == draws;
  }

  /** The well-formed texts are exactly the normal forms of the codes that can be drawn. */
  lemma WellFormedIff(text: string)
    ensures IsWellFormed(text) <==> exists code :: Drawn(code) && Normalize(code) == text
  {
    if IsWellFormed(text) {
      var code := text[..4] + "-" + text[4..];
      forall i | 0 <= i < 9 && i != 4 ensures InAlphabet(code[i]) {
        assert code[i] == text[if i < 4 then i else i - 1] && code[i] in text;
      }
      DrawnNormalizes(code);
      assert code[..4] + code[5..] == text;
    }
    if code :| Drawn(code) && Normalize(code) == text {
      DrawnNormalizes(code);
    }
  }

  // ---- every run ----

  datatype Event =
    | Generate(u: UserId, draws: Draws)
    | Use(u: UserId, code: string)
    | DeleteAll(u: UserId)

  datatype Run = Start | Then(earlier: Run, last: Event)

  predicate FairDraws(r: Run) {
    r.Then? ==>
      FairDraws(r.earlier)
      && (r.last.Generate? ==> forall d :: d in r.last.draws ==> Drawn(d))
  }

  function Replay(r: Run): seq<CodeRow>
    requires FairDraws(r)
  {
    match r
    case Start => []
    case Then(earlier, Generate(u, draws)) => Generated(Replay(earlier), u, draws)
    case Then(earlier, Use(u, code)) => Consume(Replay(earlier), u, code).0
    case Then(earlier, DeleteAll(u)) => Without(Replay(earlier), u)
  }

  function Forms(codes: seq<string>): set<string> {
    set c | c in codes :: Normalize(c)
  }

  /** The simple account of which texts are good: those of the latest generation that have not
      been used since. */
  function Good(r: Run, u: UserId): set<string>
    requires FairDraws(r)
  {
    if r.Start? then {}
    else if r.last.u != u then Good(r.earlier, u)
    else match r.last
      case Generate(_, draws) => Forms(Kept(draws, MAX_ATTEMPTS))
      case Use(_, code) => Good(r.earlier, u) - {Normalize(code)}
      case DeleteAll(_) => {}
  }

  predicate DistinctForms(rows: seq<CodeRow>, u: UserId) {
    forall i, j :: 0 <= i < j < |rows| && Unspent(rows[i], u) && Unspent(rows[j], u) ==>
      rows[i].hash.text != rows[j].hash.text
  }

  /** Each good text has exactly one unused row, and there are no other unused rows. */
  ghost predicate Represents(rows: seq<CodeRow>, u: UserId, good: set<string>) {
    && (forall i :: 0 <= i < |rows| && Unspent(rows[i], u) ==>
          rows[i].hash.text in good && IsWellFormed(rows[i].hash.text))
    && DistinctForms(rows, u)
    && (forall text :: text in good ==> exists i :: 0 <= i < |rows| && Matches(rows[i], u, text))
  }

  lemma ConsumeRepresents(rows: seq<CodeRow>, u: UserId, good: set<string>, code: string)
    requires Represents(rows, u, good)
    ensures Consume(rows, u, code).1 <==> Normalize(code) in good
    ensures Represents(Consume(rows, u, code).0, u, good - {Normalize(code)})
  {
    var text := Normalize(code);
    var (rows', accepted) := Consume(rows, u, code);
    if text in good {
      var i :| 0 <= i < |rows| && Matches(rows[i], u, text);
      assert IsWellFormed(text) && accepted;
      var m := Match(rows, u, text).value;
      forall t | t in good - {text} ensures exists j :: 0 <= j < |rows'| && Matches(rows'[j], u, t) {
        var j :| 0 <= j < |rows| && Matches(rows[j], u, t);
        assert rows'[j] == rows[j];
      }
    }
  }

  lemma OthersUntouched(rows: seq<CodeRow>, u: UserId, v: UserId, good: set<string>, code: string)
    requires u != v && Represents(rows, v, good)
    ensures Represents(Consume(rows, u, code).0, v, good)
  {
    var rows' := Consume(rows, u, code).0;
    assert |rows'| == |rows|;
    assert forall i :: 0 <= i < |rows| ==> rows'[i] == rows[i] || (rows[i].user == u && rows'[i].user == u);
    forall t | t in good ensures exists j :: 0 <= j < |rows'| && Matches(rows'[j], v, t) {
      var j :| 0 <= j < |rows| && Matches(rows[j], v, t);
      assert rows'[j] == rows[j];
    }
  }

  lemma {:induction false} WithoutKeeps(rows: seq<CodeRow>, u: UserId, v: UserId, good: set<string>)
    requires u != v && Represents(rows, v, good)
    ensures Represents(Without(rows, u), v, good)
  {
    var left := Without(rows, u);
    WithoutIs(rows, u);
    forall t | t in good ensures exists j :: 0 <= j < |left| && Matches(left[j], v, t) {
      var j :| 0 <= j < |rows| && Matches(rows[j], v, t);
      assert rows[j] in left;
    }
    forall i | 0 <= i < |left| && left[i].user == v && !left[i].used
      ensures left[i].hash.text in good && IsWellFormed(left[i].hash.text)
    {
      assert left[i] in rows;
    }
    WithoutDistinct(rows, u, v);
  }

  lemma {:induction false} WithoutDistinct(rows: seq<CodeRow>, u: UserId, v: UserId)
    requires DistinctForms(rows, v)
    ensures DistinctForms(Without(rows, u), v)
  {
    if rows == [] {
    } else {
      var rest := Without(rows[1..], u);
      WithoutIs(rows[1..], u);
      forall i, j | 0 <= i < j < |rows[1..]| && Unspent(rows[1..][i], v) && Unspent(rows[1..][j], v)
        ensures rows[1..][i].hash.text != rows[1..][j].hash.text
      {
        assert rows[1..][i] == rows[i + 1] && rows[1..][j] == rows[j + 1];
      }
      WithoutDistinct(rows[1..], u, v);
      if rows[0].user != u {
        var left := [rows[0]] + rest;
        forall i, j | 0 <= i < j < |left| && Unspent(left[i], v) && Unspent(left[j], v)
          ensures left[i].hash.text != left[j].hash.text
        {
          assert left[j] == rest[j - 1] && rest[j - 1] in rows[1..];
          if i == 0 {
            var k :| 0 <= k < |rows[1..]| && rows[1..][k] == left[j];
            assert rows[k + 1] == left[j] && rows[0] == left[0];
          } else {
            assert left[i] == rest[i - 1];
          }
        }
      }
    }
  }

  lemma GenerateRepresents(rows: seq<CodeRow>, u: UserId, draws: Draws)
    requires forall d :: d in draws ==> Drawn(d)
    ensures Represents(Generated(rows, u, draws), u, Forms(Kept(draws, MAX_ATTEMPTS)))
  {
    var codes := Kept(draws, MAX_ATTEMPTS);
    GeneratedFormsDistinct(draws, MAX_ATTEMPTS);
    RowsRepresent(u, codes);
    WithoutIs(rows, u);
    PrependOthers(Without(rows, u), Rows(u, codes), u, Forms(codes));
  }

  lemma RowsRepresent(u: UserId, codes: seq<string>)
    requires DistinctWellFormed(codes)
    ensures Represents(Rows(u, codes), u, Forms(codes))
  {
    RowsAre(u, codes);
    forall i | 0 <= i < |codes| ensures Normalize(codes[i]) in Forms(codes) {
      assert codes[i] in codes;
    }
    forall t | t in Forms(codes) ensures exists j :: 0 <= j < |codes| && Matches(Rows(u, codes)[j], u, t) {
      var i :| 0 <= i < |codes| && Normalize(codes[i]) == t;
      assert Matches(Rows(u, codes)[i], u, t);
    }
  }

  lemma PrependOthers(others: seq<CodeRow>, own: seq<CodeRow>, u: UserId, good: set<string>)
    requires Represents(own, u, good) && forall x :: x in others ==> x.user != u
    ensures Represents(others + own, u, good)
  {
    var all := others + own;
    forall i | 0 <= i < |others| ensures all[i].user != u {
      assert others[i] in others;
    }
    assert forall i :: |others| <= i < |all| ==> all[i] == own[i - |others|];
    forall t | t in good ensures exists j :: 0 <= j < |all| && Matches(all[j], u, t) {
      var i :| 0 <= i < |own| && Matches(own[i], u, t);
      assert all[|others| + i] == own[i];
    }
  }

  lemma GenerateSparesOthers(rows: seq<CodeRow>, u: UserId, v: UserId, good: set<string>, fresh': seq<CodeRow>)
    requires u != v && Represents(rows, v, good) && forall x :: x in fresh' ==> x.user == u
    ensures Represents(Without(rows, u) + fresh', v, good)
  {
    WithoutKeeps(rows, u, v, good);
    var left := Without(rows, u);
    var all := left + fresh';
    forall i | |left| <= i < |all| ensures all[i].user == u {
      assert all[i] in fresh';
    }
    forall t | t in good ensures exists j :: 0 <= j < |all| && Matches(all[j], v, t) {
      var j :| 0 <= j < |left| && Matches(left[j], v, t);
      assert all[j] == left[j];
    }
  }

  /** The table always stands for the simple account, for every user. */
  lemma {:induction false} TableRefinesAccount(r: Run, v: UserId)
    requires FairDraws(r)
    ensures Represents(Replay(r), v, Good(r, v))
  {
    if r.Start? {
    } else {
      TableRefinesAccount(r.earlier, v);
      var rows := Replay(r.earlier);
      match r.last
      case Generate(u, draws) =>
        if u == v {
          GenerateRepresents(rows, u, draws);
        } else {
          OwnRows(u, Kept(draws, MAX_ATTEMPTS));
          GenerateSparesOthers(rows, u, v, Good(r.earlier, v), Rows(u, Kept(draws, MAX_ATTEMPTS)));
        }
      case Use(u, code) =>
        if u == v {
          ConsumeRepresents(rows, u, Good(r.earlier, v), code);
        } else {
          OthersUntouched(rows, u, v, Good(r.earlier, v), code);
        }
      case DeleteAll(u) =>
        if u == v {
          WithoutIs(rows, u);
          assert forall x :: x in Without(rows, u) ==> x.user != u;
          assert forall i :: 0 <= i < |Without(rows, u)| ==> Without(rows, u)[i] in Without(rows, u);
        } else {
          WithoutKeeps(rows, u, v, Good(r.earlier, v));
        }
    }
  }

  function Unused(rows: seq<CodeRow>, u: UserId): nat {
    if rows == [] then 0 else (if rows[0].user == u && !rows[0].used then 1 else 0) + Unused(rows[1..], u)
  }

  lemma {:induction false} MarkingLowersUnused(rows: seq<CodeRow>, u: UserId, i: nat)
    requires i < |rows| && rows[i].user == u && !rows[i].used
    ensures Unused(rows[i := rows[i].(used := true)], u) == Unused(rows, u) - 1
  {
    var rows' := rows[i := rows[i].(used := true)];
    if i == 0 {
      assert rows'[1..] == rows[1..];
    } else {
      MarkingLowersUnused(rows[1..], u, i - 1);
      assert rows'[1..] == rows[1..][i - 1 := rows[i].(used := true)];
    }
  }

  /** A code is accepted exactly when its normal form is that of a code of the latest generation
      not used since; accepting lowers the unused count by exactly one, refusing changes nothing. */
  lemma AcceptedIffGood(r: Run, u: UserId, code: string)
    requires FairDraws(r)
    ensures var (rows, accepted) := Consume(Replay(r), u, code);
            && (accepted <==> Normalize(code) in Good(r, u))
            && (accepted ==> Unused(rows, u) == Unused(Replay(r), u) - 1)
            && (!accepted ==> rows == Replay(r))
  {
    TableRefinesAccount(r, u);
    ConsumeRepresents(Replay(r), u, Good(r, u), code);
    if Consume(Replay(r), u, code).1 {
      MarkingLowersUnused(Replay(r), u, Match(Replay(r), u, Normalize(code)).value);
    }
  }

  /** Does `r` extend `first` without a new generation for the user? */
  predicate ExtendsWithoutGeneration(r: Run, first: Run, u: UserId) {
    r == first || (r.Then? && !(r.last.Generate? && r.last.u == u) && ExtendsWithoutGeneration(r.earlier, first, u))
  }

  /** A code once accepted, however it is typed again, is never accepted again before a new set
      is generated. */
  lemma {:induction false} NeverAcceptedTwice(r: Run, first: Run, u: UserId, code: string, again: string)
    requires FairDraws(r) && FairDraws(first) && first.Then? && first.last == Use(u, code)
    requires ExtendsWithoutGeneration(r, first, u)
    requires Normalize(again) == Normalize(code)
    ensures !Consume(Replay(r), u, again).1 && Normalize(code) !in Good(r, u)
  {
    if r == first {
    } else {
      NeverAcceptedTwice(r.earlier, first, u, code, again);
    }
    AcceptedIffGood(r, u, again);
  }

  /** A new generation voids every code that is not itself in the new set. */
  lemma GenerationVoidsEarlier(r: Run, u: UserId, draws: Draws, code: string)
    requires FairDraws(Then(r, Generate(u, draws)))
    ensures Consume(Replay(Then(r, Generate(u, draws))), u, code).1
            <==> exists c :: c in Kept(draws, MAX_ATTEMPTS) && Normalize(c) == Normalize(code)
  {
    AcceptedIffGood(Then(r, Generate(u, draws)), u, code);
  }
}
