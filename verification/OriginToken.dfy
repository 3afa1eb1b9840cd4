/** The signed `branding_origin` token: `<origin>.<nonce>.<expiry>.<sig>`. */
module OriginToken {
  import opened Options
  import opened Text

  const TOKEN_MAX_AGE_SECONDS: int := 300

  const TWO_TO_97: int := 0x2_0000_0000_0000_0000_0000_0000
  const TWO_TO_485: int := TWO_TO_97 * TWO_TO_97 * TWO_TO_97 * TWO_TO_97 * TWO_TO_97
  const TWO_TO_970: int := TWO_TO_485 * TWO_TO_485

  /** The largest double, and the least integer that no longer rounds to one. */
  const MAX_FLOAT: int := 0x3F_FFFF_FFFF_FFFE * TWO_TO_970
  const FLOAT_LIMIT: int := 0x3F_FFFF_FFFF_FFFF * TWO_TO_970

  /** A reading of the clock. */
  type Instant = t: real | t <= MAX_FLOAT as real

  /** What other libraries compute: the HMAC-SHA256 hex digest of a message under a key, the host
      of a URL (`None` also for text that does not parse), and `int` of text that is not ASCII,
      with the digits and spaces of every script. */
  datatype Library = Library(
    mac: (string, string) -> string,
    hostname: string -> Option<string>,
    wideInt: string -> Option<int>)

  /** `TypeError`: the constant-time comparison refuses non-ASCII text. `OverflowError`: an integer
      is too large to subtract a float from. */
  datatype Exception = TypeError | OverflowError

  datatype Outcome =
    | Ok(origin: string)
    | NoToken
    | NoSigningKey
    | Malformed
    | SignatureMismatch
    | Expired
    | OriginNotAllowed
    | Raised(exception: Exception)

  predicate IsAscii(s: string) {
    forall i :: 0 <= i < |s| ==> s[i] <= '\U{7F}'
  }

  function Message(origin: string, nonce: string, expiry: int): string {
    origin + "." + nonce + "." + PrintInt(expiry)
  }

  /** What the signer on the other side emits. */
  function Sign(lib: Library, key: string, origin: string, nonce: string, expiry: int): string {
    Message(origin, nonce, expiry) + "." + lib.mac(key, Message(origin, nonce, expiry))
  }

  /** `int(text)`; `None` is the `ValueError`. */
  function IntOf(lib: Library, text: string): Option<int> {
    if IsAscii(text) then ParseInt(text) else lib.wideInt(text)
  }

  /** The four non-empty parts of a token with an integer expiry. */
  datatype Parts = Parts(origin: string, nonce: string, expiry: int, signature: string)

  function Parse(lib: Library, token: string): Option<Parts> {
    var parts := RSplit('.', token, 3);
    if |parts| != 4 || parts[0] == "" || parts[1] == "" || parts[2] == "" || parts[3] == "" then None else
    match IntOf(lib, parts[2])
    case None => None
    case Some(expiry) => Some(Parts(parts[0], parts[1], expiry, parts[3]))
  }

  predicate Allowed(lib: Library, hosts: set<string>, origin: string) {
    lib.hostname(origin).Some? && lib.hostname(origin).value in hosts
  }

  function Hosts(lib: Library, uris: seq<string>): set<string> {
    set u | u in uris && lib.hostname(u).Some? && lib.hostname(u).value != "" :: lib.hostname(u).value
  }

  method ExtractHosts(lib: Library, uris: seq<string>) returns (hosts: set<string>)
    ensures hosts == Hosts(lib, uris)
  {
    hosts := {};
    for i := 0 to |uris|
      invariant hosts == Hosts(lib, uris[..i])
    {
      var host := lib.hostname(uris[i]);
      assert uris[..i + 1] == uris[..i] + [uris[i]];
      if host.Some? && host.value != "" {
        hosts := hosts + {host.value};
      }
    }
    assert uris[..|uris|] == uris;
  }

  /** The checks on a token's parts. Comparing an integer with a float is exact at any size;
      subtracting converts the integer first. */
  function Judge(lib: Library, key: string, hosts: set<string>, parts: Option<Parts>, now: Instant): Outcome {
    match parts
    case None => Malformed
    case Some(p) =>
      if !IsAscii(p.signature) then Raised(TypeError)
      else if lib.mac(key, Message(p.origin, p.nonce, p.expiry)) != p.signature then SignatureMismatch
      else if p.expiry as real < now then Expired
      else if p.expiry >= FLOAT_LIMIT then Raised(OverflowError)
      else if p.expiry as real - now > TOKEN_MAX_AGE_SECONDS as real then Expired
      else if !Allowed(lib, hosts, p.origin) then OriginNotAllowed
      else Ok(p.origin)
  }

  function Verify(lib: Library, key: Option<string>, hosts: set<string>, token: Option<string>, now: Instant): Outcome {
    if key == None then NoSigningKey
    else if token == None || token.value == "" then NoToken
    else Judge(lib, key.value, hosts, Parse(lib, token.value), now)
  }

  // ---- the codec ----

  /** Hex digests: not empty, ASCII, no dot. */
  predicate HexMac(lib: Library, key: string, message: string) {
    var mac := lib.mac(key, message);
    mac != "" && IsAscii(mac) && '.' !in mac
  }

  lemma PrintedIsPlain(n: int)
    ensures '.' !in PrintInt(n) && IsAscii(PrintInt(n)) && PrintInt(n) != ""
  {
    ReadPrintInt(n);
    forall i | 0 <= i < |PrintInt(n)| ensures PrintInt(n)[i] <= '\U{7F}' {
      assert PrintInt(n)[i] in PrintInt(n);
    }
  }

  lemma FourParts(a: string, b: string, c: string, d: string)
    requires '.' !in b && '.' !in c && '.' !in d
    ensures RSplit('.', a + "." + b + "." + c + "." + d, 3) == [a, b, c, d]
  {
    RSplitLast('.', a + "." + b + "." + c, d, 3);
    RSplitLast('.', a + "." + b, c, 2);
    RSplitLast('.', a, b, 1);
    assert RSplit('.', a, 0) == [a];
  }

  /** Four parts without regard to what the third one means. */
  predicate Joined(token: string, origin: string, nonce: string, text: string, signature: string) {
    && origin != "" && nonce != "" && text != "" && signature != ""
    && '.' !in nonce && '.' !in text && '.' !in signature
    && token == origin + "." + nonce + "." + text + "." + signature
  }

  /** A token spelled out, without reference to how it is split. The expiry is any text for the
      integer: `int` also takes signs, spaces, leading zeros and underscores. */
  predicate Spells(
    lib: Library, token: string, origin: string, nonce: string, text: string, expiry: int, signature: string)
  {
    Joined(token, origin, nonce, text, signature) && IntOf(lib, text) == Some(expiry)
  }

  lemma ParsedIsSpelled(lib: Library, token: string) returns (text: string)
    requires Parse(lib, token).Some?
    ensures var p := Parse(lib, token).value; Spells(lib, token, p.origin, p.nonce, text, p.expiry, p.signature)
  {
    var parts := RSplit('.', token, 3);
    JoinRSplit('.', token, 3);
    RSplitParts('.', token, 3);
    JoinFour(parts[0], parts[1], parts[2], parts[3]);
    assert parts == [parts[0], parts[1], parts[2], parts[3]];
    text := parts[2];
  }

  lemma JoinedParses(lib: Library, token: string, origin: string, nonce: string, text: string, signature: string)
    requires Joined(token, origin, nonce, text, signature)
    ensures Parse(lib, token) == match IntOf(lib, text)
                                 case None => None
                                 case Some(expiry) => Some(Parts(origin, nonce, expiry, signature))
  {
    FourParts(origin, nonce, text, signature);
    assert RSplit('.', token, 3) == [origin, nonce, text, signature];
  }

  lemma SpelledIsParsed(
    lib: Library, token: string, origin: string, nonce: string, text: string, expiry: int, signature: string)
    requires Spells(lib, token, origin, nonce, text, expiry, signature)
    ensures Parse(lib, token) == Some(Parts(origin, nonce, expiry, signature))
  {
    JoinedParses(lib, token, origin, nonce, text, signature);
  }

  /** An expiry that is not ASCII is left to the interpreter's wider reading. */
  lemma WideExpiryParses(
    lib: Library, token: string, origin: string, nonce: string, text: string, signature: string)
    requires Joined(token, origin, nonce, text, signature) && !IsAscii(text)
    ensures Parse(lib, token) == if lib.wideInt(text).Some?
                                 then Some(Parts(origin, nonce, lib.wideInt(text).value, signature)) else None
  {
    JoinedParses(lib, token, origin, nonce, text, signature);
  }

  lemma JoinFour(a: string, b: string, c: string, d: string)
    ensures Join('.', [a, b, c, d]) == a + "." + b + "." + c + "." + d
  {
    assert [a, b, c, d][1..] == [b, c, d] && [b, c, d][1..] == [c, d] && [c, d][1..] == [d];
    assert Join('.', [c, d]) == c + "." + d;
    assert Join('.', [b, c, d]) == b + "." + (c + "." + d);
    assert a + "." + (b + "." + (c + "." + d)) == a + "." + b + "." + c + "." + d;
  }

  lemma EmptyDoesNotParse(lib: Library)
    ensures Parse(lib, "") == None
  {
    assert RSplit('.', "", 3) == [""];
  }

  lemma PrintedParses(lib: Library, origin: string, nonce: string, expiry: int, sig: string)
    requires origin != "" && nonce != "" && '.' !in nonce && sig != "" && '.' !in sig
    ensures Parse(lib, Message(origin, nonce, expiry) + "." + sig)
            == if Printable(expiry) then Some(Parts(origin, nonce, expiry, sig)) else None
  {
    PrintedIsPlain(expiry);
    ParsePrintInt(expiry);
    JoinedParses(lib, Message(origin, nonce, expiry) + "." + sig, origin, nonce, PrintInt(expiry), sig);
  }

  /** Every signed token parses back to its own parts, dots in the origin included, unless its
      expiry has more digits than the interpreter reads. */
  lemma SignedParses(lib: Library, key: string, origin: string, nonce: string, expiry: int)
    requires origin != "" && nonce != "" && '.' !in nonce
    requires HexMac(lib, key, Message(origin, nonce, expiry))
    ensures Parse(lib, Sign(lib, key, origin, nonce, expiry))
            == if Printable(expiry)
               then Some(Parts(origin, nonce, expiry, lib.mac(key, Message(origin, nonce, expiry))))
               else None
  {
    PrintedParses(lib, origin, nonce, expiry, lib.mac(key, Message(origin, nonce, expiry)));
  }

  /** A signed token is accepted, with its own origin, exactly from its expiry minus five minutes
      up to its expiry and for an allowed host. Outside that span it is expired, except that an
      expiry too large for a float raises and one with too many digits is malformed. */
  lemma SignedVerifies(
    lib: Library, key: string, hosts: set<string>, origin: string, nonce: string, expiry: int, now: Instant)
    requires origin != "" && nonce != "" && '.' !in nonce
    requires HexMac(lib, key, Message(origin, nonce, expiry))
    ensures Verify(lib, Some(key), hosts, Some(Sign(lib, key, origin, nonce, expiry)), now)
            == if !Printable(expiry) then Malformed
               else if expiry >= FLOAT_LIMIT then Raised(OverflowError)
               else if !(now <= expiry as real <= now + 300.0) then Expired
               else if Allowed(lib, hosts, origin) then Ok(origin) else OriginNotAllowed
  {
    SignedParses(lib, key, origin, nonce, expiry);
    JudgeSigned(lib, key, hosts, Parts(origin, nonce, expiry, lib.mac(key, Message(origin, nonce, expiry))), now);
  }

  lemma JudgeSigned(lib: Library, key: string, hosts: set<string>, p: Parts, now: Instant)
    requires Signed(lib, key, p)
    ensures Judge(lib, key, hosts, Some(p), now)
            == if p.expiry >= FLOAT_LIMIT then Raised(OverflowError)
               else if !(now <= p.expiry as real <= now + 300.0) then Expired
               else if Allowed(lib, hosts, p.origin) then Ok(p.origin) else OriginNotAllowed
  {
    assert FLOAT_LIMIT as real > now;
  }

  /** The token spells an origin, a nonce, an expiry and the ASCII signature of those three. */
  ghost predicate SpellsSigned(lib: Library, key: string, token: string, origin: string, expiry: int) {
    exists nonce, text ::
      Spells(lib, token, origin, nonce, text, expiry, lib.mac(key, Message(origin, nonce, expiry)))
      && IsAscii(lib.mac(key, Message(origin, nonce, expiry)))
  }

  predicate Signed(lib: Library, key: string, p: Parts) {
    IsAscii(p.signature) && p.signature == lib.mac(key, Message(p.origin, p.nonce, p.expiry))
  }

  lemma SignedIsSpelled(lib: Library, key: string, token: string)
    requires Parse(lib, token).Some? && Signed(lib, key, Parse(lib, token).value)
    ensures SpellsSigned(lib, key, token, Parse(lib, token).value.origin, Parse(lib, token).value.expiry)
  {
    var text := ParsedIsSpelled(lib, token);
  }

  lemma SpelledIsSigned(lib: Library, key: string, token: string, origin: string, expiry: int)
    requires SpellsSigned(lib, key, token, origin, expiry)
    ensures exists p :: Parse(lib, token) == Some(p) && Signed(lib, key, p) && p.origin == origin && p.expiry == expiry
  {
    var nonce, text :| Spells(lib, token, origin, nonce, text, expiry, lib.mac(key, Message(origin, nonce, expiry)))
                       && IsAscii(lib.mac(key, Message(origin, nonce, expiry)));
    SpelledIsParsed(lib, token, origin, nonce, text, expiry, lib.mac(key, Message(origin, nonce, expiry)));
  }

  lemma OkIffSigned(lib: Library, key: string, hosts: set<string>, p: Parts, now: Instant, origin: string)
    ensures Judge(lib, key, hosts, Some(p), now) == Ok(origin)
            <==> Signed(lib, key, p) && p.origin == origin && now <= p.expiry as real <= now + 300.0
                 && Allowed(lib, hosts, origin)
  {
    assert now + 300.0 < FLOAT_LIMIT as real;
  }

  lemma AcceptedIsSpelled(
    lib: Library, key: string, hosts: set<string>, token: string, now: Instant, origin: string)
    requires Verify(lib, Some(key), hosts, Some(token), now) == Ok(origin)
    ensures Allowed(lib, hosts, origin)
    ensures Parse(lib, token).Some? && var expiry := Parse(lib, token).value.expiry;
            SpellsSigned(lib, key, token, origin, expiry) && now <= expiry as real <= now + 300.0
  {
    OkIffSigned(lib, key, hosts, Parse(lib, token).value, now, origin);
    SignedIsSpelled(lib, key, token);
  }

  lemma SpelledIsAccepted(
    lib: Library, key: string, hosts: set<string>, token: string, now: Instant, origin: string, expiry: int)
    requires Allowed(lib, hosts, origin) && SpellsSigned(lib, key, token, origin, expiry)
    requires now <= expiry as real <= now + 300.0
    ensures Verify(lib, Some(key), hosts, Some(token), now) == Ok(origin)
  {
    EmptyDoesNotParse(lib);
    SpelledIsSigned(lib, key, token, origin, expiry);
    OkIffSigned(lib, key, hosts, Parse(lib, token).value, now, origin);
  }

  /** What acceptance means: a token that spells such a signature, in date, for an allowed host,
      and no other, is accepted with that origin. */
  lemma AcceptedIffSigned(
    lib: Library, key: string, hosts: set<string>, token: string, now: Instant, origin: string)
    ensures Verify(lib, Some(key), hosts, Some(token), now) == Ok(origin)
            <==> Allowed(lib, hosts, origin)
                 && exists expiry ::
                      SpellsSigned(lib, key, token, origin, expiry) && now <= expiry as real <= now + 300.0
  {
    if Verify(lib, Some(key), hosts, Some(token), now) == Ok(origin) {
      AcceptedIsSpelled(lib, key, hosts, token, now, origin);
    } else if Allowed(lib, hosts, origin) {
      if expiry :| SpellsSigned(lib, key, token, origin, expiry) && now <= expiry as real <= now + 300.0 {
        SpelledIsAccepted(lib, key, hosts, token, now, origin, expiry);
      }
    }
  }

  /** An address names an allowed host if some redirect address has the same, non-empty host. */
  lemma AllowedIff(lib: Library, uris: seq<string>, origin: string)
    ensures Allowed(lib, Hosts(lib, uris), origin)
            <==> exists i :: 0 <= i < |uris| && lib.hostname(uris[i]) == lib.hostname(origin)
                             && lib.hostname(origin) != None && lib.hostname(origin) != Some("")
  {
    if Allowed(lib, Hosts(lib, uris), origin) {
      var u :| u in uris && lib.hostname(u) == lib.hostname(origin);
      var i :| 0 <= i < |uris| && uris[i] == u;
      assert lib.hostname(uris[i]) == lib.hostname(origin);
    }
    if i :| 0 <= i < |uris| && lib.hostname(uris[i]) == lib.hostname(origin)
            && lib.hostname(origin) != None && lib.hostname(origin) != Some("")
    {
      assert uris[i] in uris;
    }
  }

  /** The reasons for refusing, in the order they are looked at: no key, no token, not four parts
      with an integer, then a signature that is ASCII but not that of the parts. */
  lemma RefusalsAre(lib: Library, key: Option<string>, hosts: set<string>, token: Option<string>, now: Instant)
    ensures var answer := Verify(lib, key, hosts, token, now);
            && (answer == NoSigningKey <==> key == None)
            && (answer == NoToken <==> key != None && token in {None, Some("")})
            && (answer == Malformed
                <==> key != None && token !in {None, Some("")} && !SpellsParts(lib, token.value))
            && (answer == SignatureMismatch
                <==> key != None && token !in {None, Some("")} && Parse(lib, token.value) != None
                     && var p := Parse(lib, token.value).value;
                     IsAscii(p.signature) && p.signature != lib.mac(key.value, Message(p.origin, p.nonce, p.expiry)))
  {
    if token !in {None, Some("")} {
      SpellsPartsIff(lib, token.value);
      if key.Some? {
        JudgeRefuses(lib, key.value, hosts, Parse(lib, token.value), now);
      }
    }
  }

  lemma JudgeRefuses(lib: Library, key: string, hosts: set<string>, parts: Option<Parts>, now: Instant)
    ensures var answer := Judge(lib, key, hosts, parts, now);
            && !answer.NoSigningKey? && !answer.NoToken? && (answer == Malformed <==> parts == None)
            && (answer == SignatureMismatch
                <==> parts != None && var p := parts.value;
                     IsAscii(p.signature) && p.signature != lib.mac(key, Message(p.origin, p.nonce, p.expiry)))
  {
  }

  ghost predicate SpellsParts(lib: Library, token: string) {
    exists origin, nonce, text, expiry, signature :: Spells(lib, token, origin, nonce, text, expiry, signature)
  }

  lemma SpellsPartsIff(lib: Library, token: string)
    ensures SpellsParts(lib, token) <==> Parse(lib, token) != None
  {
    if Parse(lib, token) != None {
      var text := ParsedIsSpelled(lib, token);
    }
    if SpellsParts(lib, token) {
      var origin, nonce, text, expiry, signature :| Spells(lib, token, origin, nonce, text, expiry, signature);
      SpelledIsParsed(lib, token, origin, nonce, text, expiry, signature);
    }
  }

  lemma NonceHasNoDot(lib: Library, token: string)
    requires Parse(lib, token).Some?
    ensures '.' !in Parse(lib, token).value.nonce
  {
    RSplitParts('.', token, 3);
  }

  /** A message determines its origin, nonce and expiry. */
  lemma MessageInjective(o: string, n: string, e: int, o': string, n': string, e': int)
    requires '.' !in n && '.' !in n' && Message(o, n, e) == Message(o', n', e')
    ensures o == o' && n == n' && e == e'
  {
    ThreeParts(o, n, e);
    ThreeParts(o', n', e');
    assert [o, n, PrintInt(e)][0] == o && [o, n, PrintInt(e)][1] == n && [o, n, PrintInt(e)][2] == PrintInt(e);
    ReadPrintInt(e);
    ReadPrintInt(e');
  }

  lemma ThreeParts(o: string, n: string, e: int)
    requires '.' !in n
    ensures RSplit('.', Message(o, n, e), 2) == [o, n, PrintInt(e)]
  {
    PrintedIsPlain(e);
    RSplitLast('.', o + "." + n, PrintInt(e), 2);
    RSplitLast('.', o, n, 1);
    assert RSplit('.', o, 0) == [o];
  }

  /** So two accepted tokens whose signed messages agree carry the same origin, nonce and expiry. */
  lemma SameMessageSameClaims(
    lib: Library, key: string, hosts: set<string>, t: string, u: string, now: Instant, later: Instant)
    requires Verify(lib, Some(key), hosts, Some(t), now).Ok? && Verify(lib, Some(key), hosts, Some(u), later).Ok?
    requires var p, q := Parse(lib, t).value, Parse(lib, u).value;
             Message(p.origin, p.nonce, p.expiry) == Message(q.origin, q.nonce, q.expiry)
    ensures var p, q := Parse(lib, t).value, Parse(lib, u).value; p == q
    ensures Verify(lib, Some(key), hosts, Some(t), now) == Verify(lib, Some(key), hosts, Some(u), later)
  {
    var p, q := Parse(lib, t).value, Parse(lib, u).value;
    NonceHasNoDot(lib, t);
    NonceHasNoDot(lib, u);
    MessageInjective(p.origin, p.nonce, p.expiry, q.origin, q.nonce, q.expiry);
  }

  // ---- when it raises ----

  ghost predicate SpellsNonAscii(lib: Library, token: string) {
    exists origin, nonce, text, expiry, signature ::
      Spells(lib, token, origin, nonce, text, expiry, signature) && !IsAscii(signature)
  }

  lemma NonAsciiParts(lib: Library, token: string)
    ensures SpellsNonAscii(lib, token) <==> Parse(lib, token).Some? && !IsAscii(Parse(lib, token).value.signature)
  {
    if Parse(lib, token).Some? && !IsAscii(Parse(lib, token).value.signature) {
      var text := ParsedIsSpelled(lib, token);
    }
    if SpellsNonAscii(lib, token) {
      var origin, nonce, text, expiry, signature :|
        Spells(lib, token, origin, nonce, text, expiry, signature) && !IsAscii(signature);
      SpelledIsParsed(lib, token, origin, nonce, text, expiry, signature);
    }
  }

  /** A correctly signed token whose expiry no float can hold. */
  ghost predicate SpellsHuge(lib: Library, key: string, token: string) {
    exists origin, expiry :: SpellsSigned(lib, key, token, origin, expiry) && expiry >= FLOAT_LIMIT
  }

  lemma HugeParts(lib: Library, key: string, token: string)
    ensures SpellsHuge(lib, key, token)
            <==> Parse(lib, token).Some? && Signed(lib, key, Parse(lib, token).value)
                 && Parse(lib, token).value.expiry >= FLOAT_LIMIT
  {
    if Parse(lib, token).Some? && Signed(lib, key, Parse(lib, token).value) {
      SignedIsSpelled(lib, key, token);
    }
    if SpellsHuge(lib, key, token) {
      var origin, expiry :| SpellsSigned(lib, key, token, origin, expiry) && expiry >= FLOAT_LIMIT;
      SpelledIsSigned(lib, key, token, origin, expiry);
    }
  }

  lemma JudgeRaises(lib: Library, key: string, hosts: set<string>, parts: Option<Parts>, now: Instant)
    ensures Judge(lib, key, hosts, parts, now) == Raised(TypeError) <==> parts.Some? && !IsAscii(parts.value.signature)
    ensures Judge(lib, key, hosts, parts, now) == Raised(OverflowError)
            <==> parts.Some? && Signed(lib, key, parts.value) && parts.value.expiry >= FLOAT_LIMIT
  {
    assert FLOAT_LIMIT as real > now;
  }

  /** The method's documentation says that it never raises. It does, for exactly the tokens that
      spell a signature which is not ASCII, and for those that spell their own correct signature
      with an expiry too large for a float. */
  lemma RaisesExactly(lib: Library, key: string, hosts: set<string>, token: string, now: Instant)
    ensures Verify(lib, Some(key), hosts, Some(token), now) == Raised(TypeError) <==> SpellsNonAscii(lib, token)
    ensures Verify(lib, Some(key), hosts, Some(token), now) == Raised(OverflowError) <==> SpellsHuge(lib, key, token)
    ensures !Verify(lib, None, hosts, Some(token), now).Raised? && !Verify(lib, Some(key), hosts, None, now).Raised?
  {
    EmptyDoesNotParse(lib);
    NonAsciiParts(lib, token);
    HugeParts(lib, key, token);
    JudgeRaises(lib, key, hosts, Parse(lib, token), now);
  }

  /** Tokens of the first kind need no key: every origin, nonce and expiry that prints has them. */
  lemma RaisesOnNonAscii(
    lib: Library, key: string, hosts: set<string>, origin: string, nonce: string, expiry: int, sig: string,
    now: Instant)
    requires origin != "" && nonce != "" && '.' !in nonce && '.' !in sig && !IsAscii(sig) && Printable(expiry)
    ensures Verify(lib, Some(key), hosts, Some(Message(origin, nonce, expiry) + "." + sig), now) == Raised(TypeError)
  {
    var token := Message(origin, nonce, expiry) + "." + sig;
    PrintedParses(lib, origin, nonce, expiry, sig);
    JudgeRaises(lib, key, hosts, Some(Parts(origin, nonce, expiry, sig)), now);
    assert token != "";
  }

  /** The least integer that no float holds has few enough digits to be read. */
  lemma LimitIsPrintable()
    ensures Printable(FLOAT_LIMIT)
  {
    SmallPowers();
    Fivefold(97, TWO_TO_97);
    PowersMultiply(485, 485);
    PowersMultiply(54, 970);
    LimitIsProduct(PowerOfTwo(54), PowerOfTwo(970));
    DigitsWithinBits(FLOAT_LIMIT, 1024);
  }

  lemma LimitIsProduct(a: int, b: int)
    requires a == 0x40_0000_0000_0000 && b == TWO_TO_970
    ensures 0 < FLOAT_LIMIT < a * b
  {
  }

  lemma Fivefold(k: nat, v: int)
    requires PowerOfTwo(k) == v
    ensures PowerOfTwo(5 * k) == v * v * v * v * v
  {
    PowersMultiply(k, k);
    PowersMultiply(2 * k, k);
    PowersMultiply(3 * k, k);
    PowersMultiply(4 * k, k);
  }

  lemma SmallPowers()
    ensures PowerOfTwo(54) == 0x40_0000_0000_0000 && PowerOfTwo(97) == TWO_TO_97
  {
    FortyEight();
    PowersMultiply(48, 6);
    PowersMultiply(48, 48);
    PowersMultiply(1, 96);
  }

  lemma FortyEight()
    ensures PowerOfTwo(1) == 2 && PowerOfTwo(6) == 64 && PowerOfTwo(48) == 0x1_0000_0000_0000
  {
    assert PowerOfTwo(6) == 64 && PowerOfTwo(1) == 2;
    PowersMultiply(6, 6);
    PowersMultiply(12, 12);
    PowersMultiply(24, 24);
  }

  /** And a signer that puts it in a token makes `verify` raise. */
  lemma RaisesOnHuge(
    lib: Library, key: string, hosts: set<string>, origin: string, nonce: string, now: Instant)
    requires origin != "" && nonce != "" && '.' !in nonce
    requires HexMac(lib, key, Message(origin, nonce, FLOAT_LIMIT))
    ensures Verify(lib, Some(key), hosts, Some(Sign(lib, key, origin, nonce, FLOAT_LIMIT)), now)
            == Raised(OverflowError)
  {
    LimitIsPrintable();
    SignedVerifies(lib, key, hosts, origin, nonce, FLOAT_LIMIT, now);
  }

  /** `int` takes blanks around the digits, but not the separators that `str.strip` takes too. */
  lemma SeparatorsAreMalformed(lib: Library, c: char, sig: string)
    requires IsSpace(c) && sig != "" && '.' !in sig
    ensures Parse(lib, "o" + "." + "n" + "." + [c, '5'] + "." + sig) == None <==> !IsIntSpace(c)
  {
    var text := [c, '5'];
    assert IsAscii(text);
    BlankThenFive(c);
    JoinedParses(lib, "o" + "." + "n" + "." + text + "." + sig, "o", "n", text, sig);
  }

  lemma BlankThenFive(c: char)
    requires IsSpace(c)
    ensures ParseInt([c, '5']) == if IsIntSpace(c) then Some(5) else None
  {
    var text := [c, '5'];
    assert text[1..] == "5" && text[..1] == [c];
    assert DigitCount("5") == 1;
    assert StripLeft(IsIntSpace, text) == if IsIntSpace(c) then "5" else text;
    assert ParseDigits([c]) == None;
  }
}
