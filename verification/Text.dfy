/** Python's string operations that the codecs use, on sequences of characters. */
module Text {
  import opened Options

  function Remove(c: char, s: string): string {
    if s == "" then "" else if s[0] == c then Remove(c, s[1..]) else [s[0]] + Remove(c, s[1..])
  }

  /** ASCII whitespace, as `str.strip` sees it. */
  predicate IsSpace(c: char) {
    IsIntSpace(c) || '\U{1C}' <= c <= '\U{1F}'
  }

  /** The whitespace that `int` takes around ASCII digits. */
  predicate IsIntSpace(c: char) {
    c == ' ' || '\t' <= c <= '\r'
  }

  /** The two kinds of blanks: all the characters that `str.strip` removes, and those `int` allows. */
  lemma BlanksAre(c: char)
    ensures IsIntSpace(c) <==> c in {' ', '\t', '\n', '\U{0B}', '\U{0C}', '\r'}
    ensures IsSpace(c) <==> IsIntSpace(c) || c in {'\U{1C}', '\U{1D}', '\U{1E}', '\U{1F}'}
  {
    assert c as int == 10 ==> c == '\n';
  }

  function StripLeft(space: char -> bool, s: string): string {
    if s != "" && space(s[0]) then StripLeft(space, s[1..]) else s
  }

  function StripRight(space: char -> bool, s: string): string {
    if s != "" && space(s[|s| - 1]) then StripRight(space, s[..|s| - 1]) else s
  }

  function Strip(space: char -> bool, s: string): string {
    StripRight(space, StripLeft(space, s))
  }

  function UpperChar(c: char): char {
    if 'a' <= c <= 'z' then c - 'a' + 'A' else c
  }

  /** `str.upper` on ASCII text. */
  function Upper(s: string): (r: string)
    ensures |r| == |s| && forall i :: 0 <= i < |s| ==> r[i] == UpperChar(s[i])
  {
    seq(|s|, i requires 0 <= i < |s| => UpperChar(s[i]))
  }

  /** `s.split(sep)` for a one-character separator: never empty. */
  function Split(sep: char, s: string): (parts: seq<string>)
    ensures parts != []
    ensures forall p :: p in parts ==> sep !in p
    ensures forall p, c :: p in parts && c in p ==> c in s
  {
    if s == "" then [""] else
    var rest := Split(sep, s[1..]);
    if s[0] == sep then [""] + rest
    else
      var parts := [[s[0]] + rest[0]] + rest[1..];
      assert forall p :: p in parts ==> p == [s[0]] + rest[0] || p in rest;
      parts
  }

  /** `sep.join(parts)`. */
  function Join(sep: char, parts: seq<string>): string {
    if parts == [] then "" else if |parts| == 1 then parts[0] else parts[0] + [sep] + Join(sep, parts[1..])
  }

  lemma {:induction false} JoinSplit(sep: char, s: string)
    ensures Join(sep, Split(sep, s)) == s
  {
    if s == "" {
    } else {
      JoinSplit(sep, s[1..]);
      var rest := Split(sep, s[1..]);
      var parts := Split(sep, s);
      if s[0] == sep {
        assert parts[1..] == rest;
      } else if |rest| == 1 {
        assert parts == [[s[0]] + rest[0]];
      } else {
        assert parts[1..] == rest[1..];
      }
    }
  }

  /** Splitting text whose first part has no separator. */
  lemma {:induction false} SplitFirst(sep: char, first: string, rest: string)
    requires sep !in first
    ensures Split(sep, first) == [first]
    ensures Split(sep, first + [sep] + rest) == [first] + Split(sep, rest)
  {
    if first == "" {
      assert ("" + [sep] + rest)[1..] == rest;
    } else {
      SplitFirst(sep, first[1..], rest);
      assert (first + [sep] + rest)[1..] == first[1..] + [sep] + rest;
      assert [first[0]] + first[1..] == first;
    }
  }

  lemma {:induction false} SplitJoin(sep: char, parts: seq<string>)
    requires parts != [] && forall p :: p in parts ==> sep !in p
    ensures Split(sep, Join(sep, parts)) == parts
  {
    assert parts[0] in parts;
    if |parts| == 1 {
      SplitFirst(sep, parts[0], "");
    } else {
      SplitJoin(sep, parts[1..]);
      SplitFirst(sep, parts[0], Join(sep, parts[1..]));
    }
  }

  // ---- splitting from the right ----

  /** `s.rsplit(sep, max)`: at most `max` separators are used, the last ones. */
  function RSplit(sep: char, s: string, max: nat): (parts: seq<string>)
    ensures 1 <= |parts| <= max + 1
    ensures max > 0 ==> sep !in parts[|parts| - 1]
  {
    if max == 0 || sep !in s then [s] else
    var i := LastIndex(sep, s);
    RSplit(sep, s[..i], max - 1) + [s[i + 1..]]
  }

  function LastIndex(sep: char, s: string): (i: nat)
    requires sep in s
    ensures i < |s| && s[i] == sep && sep !in s[i + 1..]
  {
    var n := |s| - 1;
    if s[n] == sep then n
    else
      assert s == s[..n] + [s[n]];
      var i := LastIndex(sep, s[..n]);
      assert s[i + 1..] == s[..n][i + 1..] + [s[n]];
      i
  }

  lemma RSplitLast(sep: char, first: string, last: string, max: nat)
    requires max > 0 && sep !in last
    ensures RSplit(sep, first + [sep] + last, max) == RSplit(sep, first, max - 1) + [last]
  {
    var s := first + [sep] + last;
    assert s[|first|] == sep;
    var i := LastIndex(sep, s);
    forall k | i < k < |s| ensures s[k] != sep {
      assert s[i + 1..][k - i - 1] == s[k];
    }
    forall k | |first| < k < |s| ensures s[k] != sep {
      assert last[k - |first| - 1] == s[k];
    }
    assert i == |first|;
    assert s[..|first|] == first && s[|first| + 1..] == last;
  }

  /** The parts, joined again, are the text. */
  lemma {:induction false} JoinRSplit(sep: char, s: string, max: nat)
    ensures Join(sep, RSplit(sep, s, max)) == s
  {
    if max > 0 && sep in s {
      var i := LastIndex(sep, s);
      JoinRSplit(sep, s[..i], max - 1);
      JoinAppend(sep, RSplit(sep, s[..i], max - 1), s[i + 1..]);
      assert s == s[..i] + [sep] + s[i + 1..];
    }
  }

  lemma {:induction false} RSplitParts(sep: char, s: string, max: nat)
    ensures forall i :: 1 <= i < |RSplit(sep, s, max)| ==> sep !in RSplit(sep, s, max)[i]
  {
    if max > 0 && sep in s {
      RSplitParts(sep, s[..LastIndex(sep, s)], max - 1);
    }
  }

  lemma {:induction false} JoinAppend(sep: char, parts: seq<string>, last: string)
    requires parts != []
    ensures Join(sep, parts + [last]) == Join(sep, parts) + [sep] + last
  {
    if |parts| == 1 {
      assert (parts + [last])[1..] == [last];
    } else {
      JoinAppend(sep, parts[1..], last);
      assert (parts + [last])[1..] == parts[1..] + [last];
      var rest := Join(sep, parts[1..]);
      assert parts[0] + [sep] + (rest + [sep] + last) == parts[0] + [sep] + rest + [sep] + last;
    }
  }

  // ---- integers ----

  predicate IsDigit(c: char) {
    '0' <= c <= '9'
  }

  function Digit(n: nat): char
    requires n < 10
  {
    '0' + n as char
  }

  function PrintNat(n: nat): string {
    (if n < 10 then "" else PrintNat(n / 10)) + [Digit(n % 10)]
  }

  /** `str(n)`. */
  function PrintInt(n: int): string {
    if n < 0 then "-" + PrintNat(-n) else PrintNat(n)
  }

  /** What stands before the last digit, an underscore in between left out. */
  function BeforeLast(s: string): string
    requires |s| > 1
  {
    if s[|s| - 2] == '_' then s[..|s| - 2] else s[..|s| - 1]
  }

  /** Digits with single underscores between them. */
  function ParseDigits(s: string): Option<nat>
    decreases |s|
  {
    if s == "" || !IsDigit(s[|s| - 1]) then None else
    var d := (s[|s| - 1] - '0') as int;
    if |s| == 1 then Some(d) else
    match ParseDigits(BeforeLast(s))
    case None => None
    case Some(v) => Some(v * 10 + d)
  }

  /** The integer that ASCII text spells, however long. */
  function ReadInt(s: string): Option<int> {
    var t := Strip(IsIntSpace, s);
    if t != "" && t[0] == '-' then Signed(ParseDigits(t[1..]), -1)
    else if t != "" && t[0] == '+' then Signed(ParseDigits(t[1..]), 1)
    else Signed(ParseDigits(t), 1)
  }

  /** The interpreter's default limit on the digits that `int` takes. */
  const MAX_STR_DIGITS: nat := 4300

  function DigitCount(s: string): nat {
    if s == "" then 0 else (if IsDigit(s[0]) then 1 else 0) + DigitCount(s[1..])
  }

  /** `int(s)` on ASCII text; `None` is the `ValueError`. */
  function ParseInt(s: string): Option<int> {
    if DigitCount(s) > MAX_STR_DIGITS then None else ReadInt(s)
  }

  /** Do the digits of `n` stay within that limit? */
  predicate Printable(n: int) {
    |PrintNat(Magnitude(n))| <= 4300
  }

  function Magnitude(n: int): nat {
    if n < 0 then -n else n
  }

  function Signed(digits: Option<nat>, sign: int): Option<int> {
    if digits.Some? then Some(sign * digits.value) else None
  }

  lemma {:induction false} ParsePrintNat(n: nat)
    ensures ParseDigits(PrintNat(n)) == Some(n)
    ensures PrintNat(n) != "" && forall c :: c in PrintNat(n) ==> IsDigit(c)
  {
    var s := PrintNat(n);
    if n < 10 {
    } else {
      ParsePrintNat(n / 10);
      var front := PrintNat(n / 10);
      assert s[..|s| - 1] == front && front[|front| - 1] in front;
    }
  }

  lemma StripNothing(space: char -> bool, s: string)
    requires s != "" && !space(s[0]) && !space(s[|s| - 1])
    ensures Strip(space, s) == s
  {
  }

  lemma {:induction false} DigitsOnly(s: string)
    requires forall c :: c in s ==> IsDigit(c)
    ensures DigitCount(s) == |s|
  {
    if s == "" {
    } else {
      assert s[0] in s;
      DigitsOnly(s[1..]);
    }
  }

  lemma PrintedDigits(n: nat)
    ensures var digits := PrintNat(n);
            digits != "" && IsDigit(digits[0]) && IsDigit(digits[|digits| - 1]) && ParseDigits(digits) == Some(n)
    ensures forall c :: c in PrintNat(n) ==> IsDigit(c)
  {
    ParsePrintNat(n);
    var digits := PrintNat(n);
    assert digits[0] in digits && digits[|digits| - 1] in digits;
  }

  lemma ReadPlain(n: nat)
    ensures ReadInt(PrintNat(n)) == Some(n)
  {
    PrintedDigits(n);
    StripNothing(IsIntSpace, PrintNat(n));
  }

  lemma ReadNegative(n: int)
    requires n < 0
    ensures ReadInt("-" + PrintNat(-n)) == Some(n)
  {
    PrintedDigits(-n);
    var t := "-" + PrintNat(-n);
    assert t[1..] == PrintNat(-n) && t[|t| - 1] == PrintNat(-n)[|PrintNat(-n)| - 1];
    StripNothing(IsIntSpace, t);
  }

  lemma ReadPrintInt(n: int)
    ensures ReadInt(PrintInt(n)) == Some(n)
    ensures PrintInt(n) != "" && forall c :: c in PrintInt(n) ==> IsDigit(c) || c == '-'
  {
    PrintedDigits(Magnitude(n));
    if n < 0 {
      ReadNegative(n);
    } else {
      ReadPlain(n);
    }
  }

  /** A printed integer reads back exactly when its digits are within the limit. */
  lemma ParsePrintInt(n: int)
    ensures ParseInt(PrintInt(n)) == if Printable(n) then Some(n) else None
  {
    var digits := PrintNat(Magnitude(n));
    ReadPrintInt(n);
    ParsePrintNat(Magnitude(n));
    DigitsOnly(digits);
    if n < 0 {
      assert PrintInt(n)[1..] == digits;
    }
  }

  lemma BeforeDigit(front: string, c: char)
    requires front != ""
    ensures BeforeLast(front + "_" + [c]) == front
    ensures front[|front| - 1] != '_' ==> BeforeLast(front + [c]) == front
  {
    var t, u, n := front + [c], front + "_" + [c], |front|;
    assert t[n - 1] == front[n - 1] && t[..n] == front && u[n] == '_' && u[..n] == front;
  }

  /** A digit counts behind a digit or behind a single underscore after one. */
  lemma NextDigit(front: string, c: char)
    requires front != "" && IsDigit(front[|front| - 1]) && IsDigit(c)
    ensures var value := match ParseDigits(front)
                         case None => None
                         case Some(v) => Some(v * 10 + (c - '0') as int);
            ParseDigits(front + [c]) == value && ParseDigits(front + "_" + [c]) == value
  {
    hide ParseDigits, BeforeLast;
    var t, u := front + [c], front + "_" + [c];
    assert t[|t| - 1] == c && u[|u| - 1] == c;
    BeforeDigit(front, c);
    Unfolded(t);
    Unfolded(u);
  }

  lemma Unfolded(s: string)
    requires |s| > 1 && IsDigit(s[|s| - 1])
    ensures ParseDigits(s) == match ParseDigits(BeforeLast(s))
                              case None => None
                              case Some(v) => Some(v * 10 + (s[|s| - 1] - '0') as int)
  {
  }

  /** A sign and blanks around the digits make no difference either. */
  lemma SignsAndBlanks(n: nat, c: char)
    requires IsIntSpace(c)
    ensures ReadInt("+" + PrintNat(n)) == Some(n)
    ensures ReadInt([c] + PrintNat(n)) == Some(n) && ReadInt(PrintNat(n) + [c]) == Some(n)
  {
    PlusSign(n);
    BlankInFront(n, c);
    BlankBehind(n, c);
  }

  lemma PlusSign(n: nat)
    ensures ReadInt("+" + PrintNat(n)) == Some(n)
  {
    PrintedDigits(n);
    var t := "+" + PrintNat(n);
    assert t[1..] == PrintNat(n) && t[|t| - 1] == PrintNat(n)[|PrintNat(n)| - 1];
    StripNothing(IsIntSpace, t);
  }

  lemma BlankInFront(n: nat, c: char)
    requires IsIntSpace(c)
    ensures ReadInt([c] + PrintNat(n)) == Some(n)
  {
    PrintedDigits(n);
    ReadPlain(n);
    assert ([c] + PrintNat(n))[1..] == PrintNat(n);
    StripNothing(IsIntSpace, PrintNat(n));
  }

  lemma BlankBehind(n: nat, c: char)
    requires IsIntSpace(c)
    ensures ReadInt(PrintNat(n) + [c]) == Some(n)
  {
    PrintedDigits(n);
    ReadPlain(n);
    var t := PrintNat(n) + [c];
    assert StripLeft(IsIntSpace, t) == t && t[..|t| - 1] == PrintNat(n);
    StripNothing(IsIntSpace, PrintNat(n));
  }

  function PowerOfTwo(k: nat): nat {
    if k == 0 then 1 else 2 * PowerOfTwo(k - 1)
  }

  lemma {:induction false} PowersMultiply(j: nat, k: nat)
    ensures PowerOfTwo(j + k) == PowerOfTwo(j) * PowerOfTwo(k)
  {
    if j == 0 {
    } else {
      PowersMultiply(j - 1, k);
    }
  }

  /** An integer has no more decimal digits than bits. */
  lemma {:induction false} DigitsWithinBits(n: nat, k: nat)
    requires n < PowerOfTwo(k) && k > 0
    ensures |PrintNat(n)| <= k
  {
    if n < 10 {
    } else {
      assert k > 1;
      DigitsWithinBits(n / 10, k - 1);
    }
  }
}
