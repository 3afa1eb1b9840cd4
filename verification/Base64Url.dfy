/** base64url with stripped padding, and the two places that strip a fixed number of padding
    characters instead. The decoder is CPython's lenient `binascii.a2b_base64`: a table lookup
    per character, then a scan that skips what is outside the alphabet and stops at enough
    padding. */
module Base64Url {
  import opened Options

  type Byte = x: int | 0 <= x < 256
  type Sextet = x: int | 0 <= x < 64

  /** What a character stands for: six bits, padding, or nothing. */
  type Symbol = x: int | 0 <= x <= 65

  const PAD: Symbol := 64
  const SKIP: Symbol := 65

  // ---- the alphabet of section 5 of RFC 4648 ----

  function Char(v: Symbol): char {
    if v < 26 then 'A' + v as char
    else if v < 52 then 'a' + (v - 26) as char
    else if v < 62 then '0' + (v - 52) as char
    else if v == 62 then '-'
    else if v == 63 then '_'
    else '='
  }

  /** The decoder also takes the standard alphabet's two other characters. */
  function Lookup(c: char): Symbol {
    if 'A' <= c <= 'Z' then (c - 'A') as int
    else if 'a' <= c <= 'z' then (c - 'a') as int + 26
    else if '0' <= c <= '9' then (c - '0') as int + 52
    else if c == '-' || c == '+' then 62
    else if c == '_' || c == '/' then 63
    else if c == '=' then PAD
    else SKIP
  }

  predicate UrlChar(c: char) {
    Lookup(c) < 64 && c != '+' && c != '/'
  }

  lemma CharRoundTrip(v: Symbol)
    requires v != SKIP
    ensures Lookup(Char(v)) == v && (UrlChar(Char(v)) <==> v != PAD) && (Char(v) == '=' <==> v == PAD)
  {
  }

  lemma LookupRoundTrip(c: char)
    requires UrlChar(c)
    ensures Char(Lookup(c)) == c
  {
  }

  function Write(symbols: seq<Symbol>): (s: string)
    ensures |s| == |symbols| && forall i :: 0 <= i < |s| ==> s[i] == Char(symbols[i])
  {
    seq(|symbols|, i requires 0 <= i < |symbols| => Char(symbols[i]))
  }

  function Read(s: string): (symbols: seq<Symbol>)
    ensures |symbols| == |s| && forall i :: 0 <= i < |s| ==> symbols[i] == Lookup(s[i])
  {
    seq(|s|, i requires 0 <= i < |s| => Lookup(s[i]))
  }

  // ---- encoding ----

  /** The four groups of six bits in three bytes. */
  function First(a: Byte): Sextet { a / 4 }

  function Second(a: Byte, b: Byte): Sextet { a % 4 * 16 + b / 16 }

  function Third(b: Byte, c: Byte): Sextet { b % 16 * 4 + c / 64 }

  function Fourth(c: Byte): Sextet { c % 64 }

  function Symbols(data: seq<Byte>): seq<Symbol> {
    if |data| == 0 then []
    else if |data| == 1 then [First(data[0]), Second(data[0], 0), PAD, PAD]
    else if |data| == 2 then [First(data[0]), Second(data[0], data[1]), Third(data[1], 0), PAD]
    else [First(data[0]), Second(data[0], data[1]), Third(data[1], data[2]), Fourth(data[2])] + Symbols(data[3..])
  }

  /** `base64.urlsafe_b64encode`, padding included. */
  function Encode(data: seq<Byte>): string {
    Write(Symbols(data))
  }

  function RStripPadding(s: string): string {
    if s != "" && s[|s| - 1] == '=' then RStripPadding(s[..|s| - 1]) else s
  }

  function B64UrlEncode(data: seq<Byte>): string {
    RStripPadding(Encode(data))
  }

  // ---- decoding ----

  predicate Bits(quad: nat, left: nat) {
    quad < 4 && (quad == 1 ==> left < 64) && (quad == 2 ==> left < 16) && (quad == 3 ==> left < 4)
  }

  /** The rest of the scan: `quad` characters of the current group have been read, `left` holds
      their bits not yet output, `pads` counts padding characters since. */
  function Scan(s: seq<Symbol>, quad: nat, left: nat, pads: nat): Option<seq<Byte>>
    requires Bits(quad, left)
  {
    if s == [] then if quad == 0 then Some([]) else None
    else if s[0] == PAD then
      if quad >= 2 && quad + pads + 1 >= 4 then Some([])
      else Scan(s[1..], quad, left, if quad >= 2 then pads + 1 else pads)
    else if s[0] == SKIP then Scan(s[1..], quad, left, pads)
    else if quad == 0 then Scan(s[1..], 1, s[0], 0)
    else if quad == 1 then Cons(left * 4 + s[0] / 16, Scan(s[1..], 2, s[0] % 16, 0))
    else if quad == 2 then Cons(left * 16 + s[0] / 4, Scan(s[1..], 3, s[0] % 4, 0))
    else Cons(left * 64 + s[0], Scan(s[1..], 0, 0, 0))
  }

  function Cons(b: Byte, rest: Option<seq<Byte>>): Option<seq<Byte>> {
    if rest.Some? then Some([b] + rest.value) else None
  }

  function Padding(n: nat): string {
    seq(n, _ => '=')
  }

  /** Python's `-n % 4`. */
  function PadCount(n: nat): nat {
    (4 - n % 4) % 4
  }

  /** `None` is the exception: non-ASCII text, or a wrong number of data characters. */
  function B64UrlDecode(s: string): Option<seq<Byte>> {
    if exists i :: 0 <= i < |s| && s[i] > '\U{7F}' then None
    else Scan(Read(s + Padding(PadCount(|s|))), 0, 0, 0)
  }

  // ---- the round trip ----

  /** The symbols without the padding, read off the data directly. */
  function Bare(data: seq<Byte>): seq<Symbol> {
    if |data| == 0 then []
    else if |data| == 1 then [First(data[0]), Second(data[0], 0)]
    else if |data| == 2 then [First(data[0]), Second(data[0], data[1]), Third(data[1], 0)]
    else [First(data[0]), Second(data[0], data[1]), Third(data[1], data[2]), Fourth(data[2])] + Bare(data[3..])
  }

  function Pads(n: nat): seq<Symbol> {
    seq(n, _ => PAD)
  }

  lemma {:induction false} BareShape(data: seq<Byte>)
    ensures |Bare(data)| == (4 * |data| + 2) / 3
    ensures forall i :: 0 <= i < |Bare(data)| ==> Bare(data)[i] < 64
  {
    if |data| < 3 {
    } else {
      BareShape(data[3..]);
    }
  }

  lemma PadPeriod(n: nat)
    ensures PadCount(n + 4) == PadCount(n)
  {
  }

  lemma {:induction false} SymbolsArePadded(data: seq<Byte>)
    ensures Symbols(data) == Bare(data) + Pads(PadCount(|Bare(data)|))
  {
    if |data| < 3 {
    } else {
      var rest := data[3..];
      SymbolsArePadded(rest);
      PadPeriod(|Bare(rest)|);
      var group := [First(data[0]), Second(data[0], data[1]), Third(data[1], data[2]), Fourth(data[2])];
      assert group + (Bare(rest) + Pads(PadCount(|Bare(rest)|))) == group + Bare(rest) + Pads(PadCount(|Bare(rest)|));
    }
  }

  lemma {:induction false} StripsAll(s: string, n: nat)
    requires s == "" || s[|s| - 1] != '='
    ensures RStripPadding(s + Padding(n)) == s
  {
    var t := s + Padding(n);
    if n == 0 {
      assert t == s;
    } else {
      StripsAll(s, n - 1);
      assert t[..|t| - 1] == s + Padding(n - 1);
    }
  }

  lemma EncodeIsPadded(data: seq<Byte>)
    ensures Encode(data) == Write(Bare(data)) + Padding(PadCount(|Bare(data)|))
  {
    SymbolsArePadded(data);
    CharRoundTrip(PAD);
  }

  /** What `_b64url_encode` returns: URL-safe characters only, four for every three bytes
      rounded up, and the padding it dropped is the one `_b64url_decode` puts back. */
  lemma EncodedShape(data: seq<Byte>)
    ensures B64UrlEncode(data) == Write(Bare(data))
    ensures |B64UrlEncode(data)| == (4 * |data| + 2) / 3
    ensures forall i :: 0 <= i < |B64UrlEncode(data)| ==> UrlChar(B64UrlEncode(data)[i])
    ensures B64UrlEncode(data) + Padding(PadCount(|B64UrlEncode(data)|)) == Encode(data)
  {
    EncodeIsPadded(data);
    BareShape(data);
    var s := Write(Bare(data));
    forall i | 0 <= i < |s| ensures UrlChar(s[i]) && s[i] != '=' {
      CharRoundTrip(Bare(data)[i]);
    }
    StripsAll(s, PadCount(|s|));
  }

  /** The bits come back together. */
  lemma Recombine(a: Byte, b: Byte, c: Byte)
    ensures First(a) * 4 + Second(a, b) / 16 == a
    ensures Second(a, b) % 16 * 16 + Third(b, c) / 4 == b
    ensures Third(b, c) % 4 * 64 + Fourth(c) == c
  {
  }

  /** One symbol of data in front of the rest, in each state of the scan. */
  lemma ScanOne(v: Sextet, rest: seq<Symbol>, quad: nat, left: nat)
    requires Bits(quad, left)
    ensures Scan([v] + rest, quad, left, 0)
            == if quad == 0 then Scan(rest, 1, v, 0)
               else if quad == 1 then Cons(left * 4 + v / 16, Scan(rest, 2, v % 16, 0))
               else if quad == 2 then Cons(left * 16 + v / 4, Scan(rest, 3, v % 4, 0))
               else Cons(left * 64 + v, Scan(rest, 0, 0, 0))
  {
    assert ([v] + rest)[1..] == rest;
  }

  lemma ScanPadding(left: nat)
    requires left < 4
    ensures Scan([PAD, PAD], 2, left, 0) == Some([]) && Scan([PAD], 3, left, 0) == Some([])
  {
    assert [PAD, PAD][1..] == [PAD];
    assert Scan([PAD], 2, left, 1) == Some([]);
  }

  lemma ScanTwo(v: Sextet, w: Sextet)
    requires w % 16 == 0
    ensures Scan([v, w, PAD, PAD], 0, 0, 0) == Some([v * 4 + w / 16] + [])
  {
    ScanPadding(0);
    ScanOne(w, [PAD, PAD], 1, v);
    ScanOne(v, [w, PAD, PAD], 0, 0);
    assert [v, w, PAD, PAD] == [v] + [w, PAD, PAD] && [w, PAD, PAD] == [w] + [PAD, PAD];
  }

  lemma ScanThree(v: Sextet, w: Sextet, x: Sextet)
    requires x % 4 == 0
    ensures Scan([v, w, x, PAD], 0, 0, 0) == Some([v * 4 + w / 16] + ([w % 16 * 16 + x / 4] + []))
  {
    ScanPadding(0);
    ScanOne(x, [PAD], 2, w % 16);
    ScanOne(w, [x, PAD], 1, v);
    ScanOne(v, [w, x, PAD], 0, 0);
    assert [v, w, x, PAD] == [v] + [w, x, PAD] && [w, x, PAD] == [w] + [x, PAD] && [x, PAD] == [x] + [PAD];
  }

  lemma {:induction false} ScanSymbols(data: seq<Byte>)
    ensures Scan(Symbols(data), 0, 0, 0) == Some(data)
  {
    if |data| == 1 {
      Recombine(data[0], 0, 0);
      ScanTwo(First(data[0]), Second(data[0], 0));
      assert data == [data[0]] + [];
    } else if |data| == 2 {
      Recombine(data[0], data[1], 0);
      ScanThree(First(data[0]), Second(data[0], data[1]), Third(data[1], 0));
      assert data == [data[0]] + ([data[1]] + []);
    } else if |data| >= 3 {
      ScanSymbols(data[3..]);
      var a, b, c := data[0], data[1], data[2];
      Recombine(a, b, c);
      ScanGroup(a, b, c, First(a), Second(a, b), Third(b, c), Fourth(c), Symbols(data[3..]), data[3..]);
      assert data == [a, b, c] + data[3..];
    }
  }

  lemma ScanFour(v: Sextet, w: Sextet, x: Sextet, y: Sextet, rest: seq<Symbol>)
    ensures Scan([v, w, x, y] + rest, 0, 0, 0)
            == Cons(v * 4 + w / 16, Cons(w % 16 * 16 + x / 4, Cons(x % 4 * 64 + y, Scan(rest, 0, 0, 0))))
  {
    var s3 := [y] + rest;
    var s2 := [x] + s3;
    var s1 := [w] + s2;
    ScanOne(y, rest, 3, x % 4);
    ScanOne(x, s3, 2, w % 16);
    ScanOne(w, s2, 1, v);
    ScanOne(v, s1, 0, 0);
    assert [v, w, x, y] + rest == [v] + s1;
  }

  lemma ScanGroup(a: Byte, b: Byte, c: Byte, v: Sextet, w: Sextet, x: Sextet, y: Sextet,
                  rest: seq<Symbol>, tail: seq<Byte>)
    requires v * 4 + w / 16 == a && w % 16 * 16 + x / 4 == b && x % 4 * 64 + y == c
    requires Scan(rest, 0, 0, 0) == Some(tail)
    ensures Scan([v, w, x, y] + rest, 0, 0, 0) == Some([a, b, c] + tail)
  {
    ScanFour(v, w, x, y, rest);
    assert [a, b, c] + tail == [a] + ([b] + ([c] + tail));
  }

  lemma ReadWrite(symbols: seq<Symbol>)
    requires SKIP !in symbols
    ensures Read(Write(symbols)) == symbols
  {
    forall i | 0 <= i < |symbols| ensures Lookup(Char(symbols[i])) == symbols[i] {
      assert symbols[i] in symbols;
      CharRoundTrip(symbols[i]);
    }
  }

  lemma AsciiChar(c: char)
    requires UrlChar(c)
    ensures c <= '\U{7F}'
  {
  }

  /** Decoding what was encoded gives back every byte sequence. */
  lemma DecodeEncode(data: seq<Byte>)
    ensures B64UrlDecode(B64UrlEncode(data)) == Some(data)
  {
    EncodedShape(data);
    var s := B64UrlEncode(data);
    forall i | 0 <= i < |s| ensures s[i] <= '\U{7F}' {
      AsciiChar(s[i]);
    }
    SymbolsArePadded(data);
    BareShape(data);
    ReadWrite(Symbols(data));
    ScanSymbols(data);
  }

  // ---- the other direction ----

  /** Text the encoder could have written: URL-safe characters, a possible length, and no stray
      bits in the last character. */
  predicate Canonical(s: string) {
    (forall i :: 0 <= i < |s| ==> UrlChar(s[i])) && Tidy(Read(s))
  }

  predicate Tidy(symbols: seq<Symbol>) {
    var n := |symbols|;
    n % 4 != 1 && (n % 4 == 2 ==> symbols[n - 1] % 16 == 0) && (n % 4 == 3 ==> symbols[n - 1] % 4 == 0)
  }

  lemma {:induction false} BareIsTidy(data: seq<Byte>)
    ensures Tidy(Bare(data))
  {
    if |data| < 3 {
    } else {
      BareIsTidy(data[3..]);
      TidyMore([First(data[0]), Second(data[0], data[1]), Third(data[1], data[2]), Fourth(data[2])], Bare(data[3..]));
    }
  }

  lemma TidyMore(group: seq<Symbol>, rest: seq<Symbol>)
    requires |group| == 4 && Tidy(rest)
    ensures Tidy(group + rest)
  {
    var all := group + rest;
    assert |all| % 4 == |rest| % 4;
    if rest != [] {
      assert all[|all| - 1] == rest[|rest| - 1];
    }
  }

  /** The bytes of four groups of six bits. */
  lemma Regroup(i: int, j: int, k: int, l: int) returns (a: Byte, b: Byte, c: Byte)
    requires 0 <= i < 64 && 0 <= j < 64 && 0 <= k < 64 && 0 <= l < 64
    ensures First(a) == i && Second(a, b) == j && Third(b, c) == k && Fourth(c) == l
    ensures j % 16 == 0 && k == 0 ==> b == 0
    ensures k % 4 == 0 && l == 0 ==> c == 0
  {
    a, b, c := i * 4 + j / 16, j % 16 * 16 + k / 4, k % 4 * 64 + l;
  }

  lemma BareGroup(a: Byte, b: Byte, c: Byte, rest: seq<Byte>)
    ensures Bare([a, b, c] + rest) == [First(a), Second(a, b), Third(b, c), Fourth(c)] + Bare(rest)
    ensures Bare([a]) == [First(a), Second(a, 0)]
    ensures Bare([a, b]) == [First(a), Second(a, b), Third(b, 0)]
  {
    assert ([a, b, c] + rest)[3..] == rest;
  }

  lemma TidyTail(s: seq<Symbol>)
    requires Tidy(s) && |s| > 3
    ensures Tidy(s[4..])
  {
    assert |s[4..]| % 4 == |s| % 4;
    if |s| > 4 {
      assert s[4..][|s| - 5] == s[|s| - 1];
    }
  }

  lemma TidyTwo(i: Symbol, j: Symbol) returns (data: seq<Byte>)
    requires i < 64 && j < 64 && j % 16 == 0
    ensures Bare(data) == [i, j]
  {
    var a, b, c := Regroup(i, j, 0, 0);
    BareGroup(a, b, c, []);
    data := [a];
  }

  lemma TidyThree(i: Symbol, j: Symbol, k: Symbol) returns (data: seq<Byte>)
    requires i < 64 && j < 64 && k < 64 && k % 4 == 0
    ensures Bare(data) == [i, j, k]
  {
    var a, b, c := Regroup(i, j, k, 0);
    BareGroup(a, b, c, []);
    data := [a, b];
  }

  /** The data a tidy sequence of symbols stands for. */
  lemma {:induction false} TidyIsBare(s: seq<Symbol>) returns (data: seq<Byte>)
    requires Tidy(s) && forall i :: 0 <= i < |s| ==> s[i] < 64
    ensures Bare(data) == s
    decreases |s|
  {
    if |s| == 0 {
      data := [];
    } else if |s| == 2 {
      data := TidyTwo(s[0], s[1]);
      assert s == [s[0], s[1]];
    } else if |s| == 3 {
      data := TidyThree(s[0], s[1], s[2]);
      assert s == [s[0], s[1], s[2]];
    } else {
      TidyTail(s);
      var a, b, c := Regroup(s[0], s[1], s[2], s[3]);
      var rest := TidyIsBare(s[4..]);
      BareGroup(a, b, c, rest);
      data := [a, b, c] + rest;
      assert s == [s[0], s[1], s[2], s[3]] + s[4..];
    }
  }

  /** Encoding what was decoded gives the text back exactly when the text is canonical. */
  lemma EncodeDecode(s: string)
    ensures (B64UrlDecode(s).Some? && B64UrlEncode(B64UrlDecode(s).value) == s) <==> Canonical(s)
  {
    if Canonical(s) {
      var data := TidyIsBare(Read(s));
      EncodedShape(data);
      forall i | 0 <= i < |s| ensures Char(Lookup(s[i])) == s[i] {
        LookupRoundTrip(s[i]);
      }
      assert Write(Read(s)) == s;
      DecodeEncode(data);
    }
    if B64UrlDecode(s).Some? {
      EncodedIsCanonical(B64UrlDecode(s).value);
    }
  }

  lemma EncodedIsCanonical(data: seq<Byte>)
    ensures Canonical(B64UrlEncode(data))
  {
    EncodedShape(data);
    BareShape(data);
    ReadWrite(Bare(data));
    BareIsTidy(data);
  }

  // ---- what else decodes ----

  lemma EncodeIsAscii(data: seq<Byte>)
    ensures forall i :: 0 <= i < |Encode(data)| ==> Encode(data)[i] <= '\U{7F}'
  {
  }

  lemma {:induction false} EncodeLength(data: seq<Byte>)
    ensures |Encode(data)| % 4 == 0
  {
    if |data| < 3 {
    } else {
      EncodeLength(data[3..]);
      assert |Encode(data)| == 4 + |Encode(data[3..])|;
    }
  }

  /** Padding that is already there does no harm. */
  lemma DecodePadded(data: seq<Byte>)
    ensures B64UrlDecode(Encode(data)) == Some(data)
  {
    var s := Encode(data);
    EncodeIsAscii(data);
    EncodeLength(data);
    assert s + Padding(0) == s;
    assert Read(s) == Symbols(data) by {
      SymbolsArePadded(data);
      BareShape(data);
      ReadWrite(Symbols(data));
    }
    ScanSymbols(data);
  }

  lemma ScanTwoThen(v: Sextet, w: Sextet, tail: seq<Symbol>)
    requires w % 16 == 0
    ensures Scan([v, w, PAD, PAD] + tail, 0, 0, 0) == Some([v * 4 + w / 16])
  {
    var pads := [PAD, PAD] + tail;
    assert pads[1..] == [PAD] + tail;
    assert [v, w, PAD, PAD] + tail == [v] + ([w] + pads);
    ScanOne(v, [w] + pads, 0, 0);
    ScanOne(w, pads, 1, v);
    assert [v * 4 + w / 16] + [] == [v * 4 + w / 16];
  }

  lemma ScanThreeThen(v: Sextet, w: Sextet, x: Sextet, tail: seq<Symbol>)
    requires x % 4 == 0
    ensures Scan([v, w, x, PAD] + tail, 0, 0, 0) == Some([v * 4 + w / 16, w % 16 * 16 + x / 4])
  {
    var pads := [PAD] + tail;
    assert [v, w, x, PAD] + tail == [v] + ([w] + ([x] + pads));
    ScanOne(v, [w] + ([x] + pads), 0, 0);
    ScanOne(w, [x] + pads, 1, v);
    ScanOne(x, pads, 2, w % 16);
    assert [v * 4 + w / 16] + ([w % 16 * 16 + x / 4] + []) == [v * 4 + w / 16, w % 16 * 16 + x / 4];
  }

  lemma {:induction false} ScanThenTail(data: seq<Byte>, tail: seq<Symbol>)
    requires |data| % 3 != 0
    ensures Scan(Symbols(data) + tail, 0, 0, 0) == Some(data)
  {
    if |data| == 1 {
      Recombine(data[0], 0, 0);
      ScanTwoThen(First(data[0]), Second(data[0], 0), tail);
      assert data == [data[0]];
    } else if |data| == 2 {
      Recombine(data[0], data[1], 0);
      ScanThreeThen(First(data[0]), Second(data[0], data[1]), Third(data[1], 0), tail);
      assert data == [data[0], data[1]];
    } else {
      var a, b, c, rest := data[0], data[1], data[2], Symbols(data[3..]);
      ScanThenTail(data[3..], tail);
      Recombine(a, b, c);
      var group := [First(a), Second(a, b), Third(b, c), Fourth(c)];
      assert Symbols(data) + tail == group + (rest + tail);
      ScanGroup(a, b, c, First(a), Second(a, b), Third(b, c), Fourth(c), rest + tail, data[3..]);
      assert data == [a, b, c] + data[3..];
    }
  }

  /** The padding of an encoding ends it: what follows is not read. */
  lemma PaddingEnds(data: seq<Byte>, tail: string)
    requires |data| % 3 != 0 && forall i :: 0 <= i < |tail| ==> tail[i] <= '\U{7F}'
    ensures B64UrlDecode(Encode(data) + tail) == Some(data)
  {
    EncodeIsAscii(data);
    var s := Encode(data) + tail;
    forall i | 0 <= i < |s| ensures s[i] <= '\U{7F}' {
      if i >= |Encode(data)| {
        assert s[i] == tail[i - |Encode(data)|];
      }
    }
    assert Read(Encode(data)) == Symbols(data) by {
      SymbolsArePadded(data);
      BareShape(data);
      ReadWrite(Symbols(data));
    }
    var more := Read(tail + Padding(PadCount(|s|)));
    assert Read(s + Padding(PadCount(|s|))) == Symbols(data) + more;
    ScanThenTail(data, more);
  }

  /** The characters of the text that stand for data; everything else is skipped. */
  function DataOf(symbols: seq<Symbol>): seq<Symbol> {
    if symbols == [] then []
    else if symbols[0] == SKIP then DataOf(symbols[1..]) else [symbols[0]] + DataOf(symbols[1..])
  }

  lemma {:induction false} JunkIsSkipped(s: seq<Symbol>, tail: seq<Symbol>, quad: nat, left: nat)
    requires Bits(quad, left) && PAD !in s
    ensures Scan(s + tail, quad, left, 0) == Scan(DataOf(s) + tail, quad, left, 0)
    ensures forall i :: 0 <= i < |DataOf(s)| ==> DataOf(s)[i] < 64
  {
    if s == [] {
      assert s + tail == tail && DataOf(s) + tail == tail;
    } else {
      var rest := s[1..];
      assert (s + tail)[1..] == rest + tail && (s + tail)[0] == s[0];
      assert s[0] in s;
      if s[0] == SKIP {
        JunkIsSkipped(rest, tail, quad, left);
      } else {
        var v := s[0];
        assert s + tail == [v] + (rest + tail) && DataOf(s) + tail == [v] + (DataOf(rest) + tail);
        ScanOne(v, rest + tail, quad, left);
        ScanOne(v, DataOf(rest) + tail, quad, left);
        if quad == 0 {
          JunkIsSkipped(rest, tail, 1, v);
        } else if quad == 1 {
          JunkIsSkipped(rest, tail, 2, v % 16);
        } else if quad == 2 {
          JunkIsSkipped(rest, tail, 3, v % 4);
        } else {
          JunkIsSkipped(rest, tail, 0, 0);
        }
      }
    }
  }

  /** Padding alone, after `quad` characters of a group. */
  lemma {:induction false} ScanPads(n: nat, quad: nat, left: nat, pads: nat)
    requires Bits(quad, left)
    ensures Scan(Pads(n), quad, left, pads)
            == if quad == 0 || (quad >= 2 && n > 0 && quad + pads + n >= 4) then Some([]) else None
  {
    if n == 0 {
    } else {
      assert Pads(n)[1..] == Pads(n - 1);
      ScanPads(n - 1, quad, left, if quad >= 2 then pads + 1 else pads);
    }
  }

  /** The last symbol without the bits that no byte takes. */
  function Tidied(data: seq<Symbol>): seq<Symbol> {
    var n := |data|;
    if n % 4 == 2 then data[n - 1 := data[n - 1] / 16 * 16]
    else if n % 4 == 3 then data[n - 1 := data[n - 1] / 4 * 4]
    else data
  }

  predicate Decodable(n: nat, pads: nat) {
    n % 4 == 0 || (n % 4 >= 2 && n % 4 + pads >= 4)
  }

  /** The bytes that four groups of six bits make, taken apart again. */
  lemma PackFirst(v: Sextet, w: Sextet)
    ensures First(v * 4 + w / 16) == v && Second(v * 4 + w / 16, 0) == w / 16 * 16
  {
  }

  lemma PackSecond(v: Sextet, w: Sextet, x: Sextet)
    ensures Second(v * 4 + w / 16, w % 16 * 16 + x / 4) == w && Third(w % 16 * 16 + x / 4, 0) == x / 4 * 4
  {
    var a, b := v * 4 + w / 16, w % 16 * 16 + x / 4;
    assert a % 4 == w / 16 && b / 16 == w % 16 && b % 16 == x / 4;
  }

  lemma PackThird(w: Sextet, x: Sextet, y: Sextet)
    ensures Third(w % 16 * 16 + x / 4, x % 4 * 64 + y) == x && Fourth(x % 4 * 64 + y) == y
  {
    var b, c := w % 16 * 16 + x / 4, x % 4 * 64 + y;
    assert b % 16 == x / 4 && c / 64 == x % 4 && c % 64 == y;
  }

  lemma ScanLastTwo(v: Sextet, w: Sextet, pads: nat)
    ensures Scan([v, w] + Pads(pads), 0, 0, 0) == if pads >= 2 then Some([v * 4 + w / 16]) else None
  {
    var tail := Pads(pads);
    assert [v, w] + tail == [v] + ([w] + tail);
    ScanOne(v, [w] + tail, 0, 0);
    ScanOne(w, tail, 1, v);
    ScanPads(pads, 2, w % 16, 0);
    assert [v * 4 + w / 16] + [] == [v * 4 + w / 16];
  }

  lemma ScanLastThree(v: Sextet, w: Sextet, x: Sextet, pads: nat)
    ensures Scan([v, w, x] + Pads(pads), 0, 0, 0)
            == if pads >= 1 then Some([v * 4 + w / 16, w % 16 * 16 + x / 4]) else None
  {
    var tail := Pads(pads);
    assert [v, w, x] + tail == [v] + ([w] + ([x] + tail));
    ScanOne(v, [w] + ([x] + tail), 0, 0);
    ScanOne(w, [x] + tail, 1, v);
    ScanOne(x, tail, 2, w % 16);
    ScanPads(pads, 3, x % 4, 0);
    assert [v * 4 + w / 16] + ([w % 16 * 16 + x / 4] + []) == [v * 4 + w / 16, w % 16 * 16 + x / 4];
  }

  /** What the scan of data and padding says: whether it decodes, and to what. */
  ghost predicate DecodesTo(data: seq<Symbol>, pads: nat, bytes: Option<seq<Byte>>) {
    (bytes.Some? <==> Decodable(|data|, pads)) && (bytes.Some? ==> Bare(bytes.value) == Tidied(data))
  }

  lemma LastTwo(v: Sextet, w: Sextet, pads: nat)
    ensures DecodesTo([v, w], pads, Scan([v, w] + Pads(pads), 0, 0, 0))
  {
    ScanLastTwo(v, w, pads);
    PackFirst(v, w);
    BareGroup(v * 4 + w / 16, 0, 0, []);
  }

  lemma LastThree(v: Sextet, w: Sextet, x: Sextet, pads: nat)
    ensures DecodesTo([v, w, x], pads, Scan([v, w, x] + Pads(pads), 0, 0, 0))
  {
    ScanLastThree(v, w, x, pads);
    PackFirst(v, w);
    PackSecond(v, w, x);
    BareGroup(v * 4 + w / 16, w % 16 * 16 + x / 4, 0, []);
  }

  lemma FourMore(v: Sextet, w: Sextet, x: Sextet, y: Sextet, rest: seq<Symbol>, pads: nat)
    requires DecodesTo(rest, pads, Scan(rest + Pads(pads), 0, 0, 0))
    ensures DecodesTo([v, w, x, y] + rest, pads, Scan([v, w, x, y] + rest + Pads(pads), 0, 0, 0))
  {
    var tail := rest + Pads(pads);
    assert [v, w, x, y] + rest + Pads(pads) == [v, w, x, y] + tail;
    var a, b, c := v * 4 + w / 16, w % 16 * 16 + x / 4, x % 4 * 64 + y;
    ScanFour(v, w, x, y, tail);
    if Scan(tail, 0, 0, 0).Some? {
      var bytes := Scan(tail, 0, 0, 0).value;
      assert [a] + ([b] + ([c] + bytes)) == [a, b, c] + bytes;
      PackGroup(v, w, x, y, bytes);
    }
    TidiedMore([v, w, x, y], rest);
  }

  lemma PackGroup(v: Sextet, w: Sextet, x: Sextet, y: Sextet, bytes: seq<Byte>)
    ensures Bare([v * 4 + w / 16, w % 16 * 16 + x / 4, x % 4 * 64 + y] + bytes) == [v, w, x, y] + Bare(bytes)
  {
    PackFirst(v, w);
    PackSecond(v, w, x);
    PackThird(w, x, y);
    BareGroup(v * 4 + w / 16, w % 16 * 16 + x / 4, x % 4 * 64 + y, bytes);
  }

  lemma TidiedMore(group: seq<Symbol>, rest: seq<Symbol>)
    requires |group| == 4
    ensures Tidied(group + rest) == group + Tidied(rest)
    ensures forall pads: nat :: Decodable(|group + rest|, pads) == Decodable(|rest|, pads)
  {
    assert |group + rest| % 4 == |rest| % 4;
  }

  /** Data followed by padding decodes exactly when the padding completes its last group, to the
      bytes that encode back to it without its stray bits. */
  lemma {:induction false} ScanData(data: seq<Symbol>, pads: nat)
    requires forall i :: 0 <= i < |data| ==> data[i] < 64
    ensures DecodesTo(data, pads, Scan(data + Pads(pads), 0, 0, 0))
    decreases |data|
  {
    if |data| == 0 {
      assert data + Pads(pads) == Pads(pads);
      ScanPads(pads, 0, 0, 0);
    } else if |data| == 1 {
      assert data + Pads(pads) == [data[0]] + Pads(pads);
      ScanOne(data[0], Pads(pads), 0, 0);
      ScanPads(pads, 1, data[0], 0);
    } else if |data| == 2 {
      LastTwo(data[0], data[1], pads);
      assert data == [data[0], data[1]];
    } else if |data| == 3 {
      LastThree(data[0], data[1], data[2], pads);
      assert data == [data[0], data[1], data[2]];
    } else {
      ScanData(data[4..], pads);
      FourMore(data[0], data[1], data[2], data[3], data[4..], pads);
      assert data == [data[0], data[1], data[2], data[3]] + data[4..];
    }
  }

  /** Which texts without padding decode, and to what: exactly the ASCII texts whose data characters
      the rebuilt padding completes, to the bytes those characters spell, whatever else they hold. */
  lemma DecodesIff(s: string)
    requires '=' !in s
    ensures var data := DataOf(Read(s));
            && (B64UrlDecode(s).Some?
                <==> (forall i :: 0 <= i < |s| ==> s[i] <= '\U{7F}') && Decodable(|data|, PadCount(|s|)))
            && (B64UrlDecode(s).Some? ==> Bare(B64UrlDecode(s).value) == Tidied(data))
  {
    var pads := PadCount(|s|);
    forall i | 0 <= i < |s| ensures Lookup(s[i]) != PAD {
      assert s[i] in s;
    }
    assert Read(s + Padding(pads)) == Read(s) + Pads(pads);
    JunkIsSkipped(Read(s), Pads(pads), 0, 0);
    ScanData(DataOf(Read(s)), pads);
  }

  /** The standard alphabet's two characters decode like the URL-safe ones they stand for. */
  lemma StandardAlphabetDecodes(s: string, t: string)
    requires |s| == |t|
    requires forall i :: 0 <= i < |s| ==> t[i] == s[i] || (s[i] == '-' && t[i] == '+') || (s[i] == '_' && t[i] == '/')
    ensures B64UrlDecode(t) == B64UrlDecode(s)
  {
    var pads := PadCount(|s|);
    assert Read(t + Padding(pads)) == Read(s + Padding(pads));
    assert forall i :: 0 <= i < |s| ==> (s[i] > '\U{7F}' <==> t[i] > '\U{7F}');
  }

  // ---- stripping a fixed number of characters ----

  /** `s[:-n]` for `n > 0`. */
  function DropLast(s: string, n: nat): string {
    if |s| <= n then "" else s[..|s| - n]
  }

  /** Dropping one or two characters removes exactly the padding for these lengths and no others. */
  lemma DroppedPadding(data: seq<Byte>)
    ensures DropLast(Encode(data), 1) == B64UrlEncode(data) <==> |data| % 3 == 2 || data == []
    ensures DropLast(Encode(data), 2) == B64UrlEncode(data) <==> |data| % 3 == 1 || data == []
  {
    EncodedShape(data);
    PadArithmetic(|data|);
    DropsExactly(B64UrlEncode(data), PadCount(|B64UrlEncode(data)|), 1);
    DropsExactly(B64UrlEncode(data), PadCount(|B64UrlEncode(data)|), 2);
  }

  lemma DropsExactly(s: string, n: nat, k: nat)
    ensures DropLast(s + Padding(n), k) == s <==> n == k || (s == "" && n <= k)
  {
    var e := s + Padding(n);
    assert |e| == |s| + n;
    if n == k {
      assert e[..|s|] == s;
    }
  }

  lemma PadArithmetic(n: nat)
    ensures PadCount((4 * n + 2) / 3) == if n % 3 == 0 then 0 else if n % 3 == 1 then 2 else 1
  {
    var k, r := n / 3, n % 3;
    assert n == 3 * k + r;
    assert (4 * n + 2) / 3 == 4 * k + (if r == 0 then 0 else if r == 1 then 2 else 3);
  }

  /** `get_code_verifier_hash`: `digest` is SHA-256 of the verifier. */
  function CodeVerifierHash(digest: seq<Byte>): string {
    DropLast(Encode(digest), 1)
  }

  /** `get_validation_hash`: the left half of the digest of the value. */
  function ValidationHash(digest: seq<Byte>): string {
    DropLast(Encode(digest[..|digest| / 2]), 2)
  }

  /** For a 32-byte digest the PKCE challenge is the unpadded encoding that section 4.2 of
      RFC 7636 asks for: 43 characters that decode to the digest. */
  lemma CodeVerifierHashIsUnpadded(digest: seq<Byte>)
    requires |digest| == 32
    ensures CodeVerifierHash(digest) == B64UrlEncode(digest) && |CodeVerifierHash(digest)| == 43
    ensures B64UrlDecode(CodeVerifierHash(digest)) == Some(digest)
  {
    DroppedPadding(digest);
    EncodedShape(digest);
    DecodeEncode(digest);
  }

  /** And `at_hash` is that of the digest's left half (section 3.1.3.6 of OpenID Connect Core
      1.0): 22 characters that decode to the first 16 bytes. */
  lemma ValidationHashIsUnpadded(digest: seq<Byte>)
    requires |digest| == 32
    ensures ValidationHash(digest) == B64UrlEncode(digest[..16]) && |ValidationHash(digest)| == 22
    ensures B64UrlDecode(ValidationHash(digest)) == Some(digest[..16])
  {
    var half := digest[..16];
    assert |digest| / 2 == 16 && |half| == 16;
    DroppedPadding(half);
    EncodedShape(half);
    DecodeEncode(half);
  }
}
