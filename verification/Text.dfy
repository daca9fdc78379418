/** The string operations the front end's text parsers use. */
module Text {

  /** White space for `trim` and for the pattern `\s`. */
  predicate IsSpace(c: char) {
    c in {' ', '\t', '\n', '\r', '\U{000B}', '\U{000C}', '\U{00A0}', '\U{1680}', '\U{2028}', '\U{2029}', '\U{202F}',
          '\U{205F}', '\U{3000}', '\U{FEFF}'}
    || '\U{2000}' <= c <= '\U{200A}'
  }

  /** Of the ASCII characters exactly the blank and the codes 9 to 13 are white space; digits, letters and marks are
      not. */
  lemma AsciiSpaces(c: char)
    requires c as int < 128
    ensures IsSpace(c) <==> c == ' ' || 9 <= c as int <= 13
  {
  }

  predicate NoSpace(s: string) {
    forall c | c in s :: !IsSpace(c)
  }

  /** Words with no white space in them, blank at most at either end. */
  predicate WordList(ws: seq<string>) {
    && |ws| >= 1
    && (forall i | 0 <= i < |ws| :: NoSpace(ws[i]))
    && (forall i | 1 <= i < |ws| - 1 :: ws[i] != "")
  }

  /** The pieces of `s` between separators; there is always at least one. */
  function SplitBy(s: string, sep: char -> bool): (parts: seq<string>)
    ensures |parts| >= 1
  {
    if s == [] then [[]]
    else
      var rest := SplitBy(s[1..], sep);
      if sep(s[0]) then [[]] + rest else [[s[0]] + rest[0]] + rest[1..]
  }

  function Split(s: string, sep: char): (parts: seq<string>)
    ensures |parts| >= 1
  {
    SplitBy(s, c => c == sep)
  }

  predicate Without(s: string, sep: char -> bool) {
    forall c | c in s :: !sep(c)
  }

  lemma {:induction false} PiecesAreWithout(s: string, sep: char -> bool)
    ensures forall i | 0 <= i < |SplitBy(s, sep)| :: Without(SplitBy(s, sep)[i], sep)
  {
    if s != [] {
      PiecesAreWithout(s[1..], sep);
    }
  }

  /** A string without separators is its own only piece. */
  lemma {:induction false} SplitWithout(s: string, sep: char -> bool)
    requires Without(s, sep)
    ensures SplitBy(s, sep) == [s]
  {
    if s != [] {
      var c0 := s[0];
      assert c0 in s;
      SplitWithout(s[1..], sep);
      assert [s[0]] + s[1..] == s;
    }
  }

  /** The first piece ends at the first separator. */
  lemma {:induction false} SplitAtFirst(a: string, x: char, b: string, sep: char -> bool)
    requires sep(x) && Without(a, sep)
    ensures SplitBy(a + [x] + b, sep) == [a] + SplitBy(b, sep)
  {
    if a == [] {
      assert a + [x] + b == [x] + b;
      SplitHead(x, b, sep);
    } else {
      var c0 := a[0];
      assert c0 in a;
      SplitAtFirst(a[1..], x, b, sep);
      assert a + [x] + b == [c0] + (a[1..] + [x] + b);
      SplitHead(c0, a[1..] + [x] + b, sep);
      assert [c0] + a[1..] == a;
    }
  }

  /** How one more character in front changes the pieces. */
  lemma SplitHead(x: char, b: string, sep: char -> bool)
    ensures SplitBy([x] + b, sep) ==
            if sep(x) then [[]] + SplitBy(b, sep) else [[x] + SplitBy(b, sep)[0]] + SplitBy(b, sep)[1..]
  {
    assert ([x] + b)[1..] == b;
  }

  /** `s` is `a` and `b` around the only occurrence of `sep`. */
  predicate Cut(s: string, sep: char, a: string, b: string) {
    s == a + [sep] + b && sep !in a && sep !in b
  }

  lemma TwoPieces(s: string, sep: char) returns (a: string, b: string)
    requires |Split(s, sep)| == 2
    ensures Cut(s, sep, a, b) && Split(s, sep) == [a, b]
  {
    JoinSplit(s, sep);
    PiecesAreWithout(s, c => c == sep);
    a, b := Split(s, sep)[0], Split(s, sep)[1];
    assert Join([b], sep) == b;
  }

  lemma CutSplits(s: string, sep: char, a: string, b: string)
    requires Cut(s, sep, a, b)
    ensures Split(s, sep) == [a, b]
  {
    SplitAtFirst(a, sep, b, c => c == sep);
    SplitWithout(b, c => c == sep);
  }

  /** The pieces with `sep` between them. */
  function Join(parts: seq<string>, sep: char): string {
    if parts == [] then []
    else if |parts| == 1 then parts[0]
    else parts[0] + [sep] + Join(parts[1..], sep)
  }

  /** Splitting undoes joining. */
  lemma {:induction false} SplitJoin(parts: seq<string>, sep: char)
    requires |parts| >= 1 && forall i | 0 <= i < |parts| :: sep !in parts[i]
    ensures Split(Join(parts, sep), sep) == parts
  {
    if |parts| == 1 {
      SplitWithout(parts[0], c => c == sep);
    } else {
      SplitJoin(parts[1..], sep);
      SplitAtFirst(parts[0], sep, Join(parts[1..], sep), c => c == sep);
    }
  }

  /** Joining undoes splitting. */
  lemma {:induction false} JoinSplit(s: string, sep: char)
    ensures Join(Split(s, sep), sep) == s
  {
    if s != [] {
      JoinSplit(s[1..], sep);
      var rest := Split(s[1..], sep);
      SplitHead(s[0], s[1..], c => c == sep);
      assert [s[0]] + s[1..] == s;
      if s[0] == sep {
        assert ([[]] + rest)[1..] == rest;
      } else {
        JoinHead(s[0], rest, sep);
      }
    }
  }

  lemma JoinHead(x: char, parts: seq<string>, sep: char)
    requires |parts| >= 1
    ensures Join([[x] + parts[0]] + parts[1..], sep) == [x] + Join(parts, sep)
  {
    var grown := [[x] + parts[0]] + parts[1..];
    assert grown[1..] == parts[1..];
  }

  /** The text before the first white space: the first piece of a split on runs of white space. */
  function FirstWord(s: string): (w: string)
    ensures w <= s && NoSpace(w) && (|w| < |s| ==> IsSpace(s[|w|]))
  {
    if s == [] || IsSpace(s[0]) then [] else [s[0]] + FirstWord(s[1..])
  }

  function TrimStart(s: string): (t: string)
    ensures |t| <= |s| && (t == [] || !IsSpace(t[0]))
  {
    if s != [] && IsSpace(s[0]) then TrimStart(s[1..]) else s
  }

  function TrimEnd(s: string): (t: string)
    ensures |t| <= |s| && (t == [] || (t[0] == s[0] && !IsSpace(t[|t| - 1])))
  {
    if s != [] && IsSpace(s[|s| - 1]) then TrimEnd(s[..|s| - 1]) else s
  }

  lemma {:induction false} TrimEndKeeps(s: string, p: char -> bool)
    requires Without(s, p)
    ensures Without(TrimEnd(s), p)
  {
    if s != [] && IsSpace(s[|s| - 1]) {
      TrimEndKeeps(s[..|s| - 1], p);
    }
  }

  lemma {:induction false} TrimKeeps(s: string, p: char -> bool)
    requires Without(s, p)
    ensures Without(Trim(s), p)
  {
    if s != [] && IsSpace(s[0]) {
      TrimKeeps(s[1..], p);
    } else {
      TrimEndKeeps(s, p);
    }
  }

  lemma TrimWord(s: string)
    requires NoSpace(s)
    ensures Trim(s) == s
  {
    if s != "" {
      var a, b := s[0], s[|s| - 1];
      assert a in s && b in s;
    }
  }

  function Trim(s: string): (t: string)
    ensures t == [] || (!IsSpace(t[0]) && !IsSpace(t[|t| - 1]))
  {
    TrimEnd(TrimStart(s))
  }

  /** The pieces of `s` between runs of white space. */
  function Words(s: string): (ws: seq<string>)
    ensures |ws| >= 1 && ws[0] == FirstWord(s)
    ensures forall i | 0 <= i < |ws| :: NoSpace(ws[i])
    decreases |s|
  {
    var w := FirstWord(s);
    if |w| == |s| then [w] else
      var rest := Words(TrimStart(s[|w|..]));
      [w] + rest
  }

  predicate IsDigit(c: char) {
    '0' <= c <= '9'
  }

  predicate AllDigits(s: string) {
    |s| > 0 && forall c | c in s :: IsDigit(c)
  }

  function DigitValue(c: char): (d: nat)
    requires IsDigit(c)
    ensures d < 10
  {
    c as int - '0' as int
  }

  /** The number a string of digits denotes. */
  function DigitsValue(s: string): nat
    requires forall c | c in s :: IsDigit(c)
  {
    if s == [] then 0 else 10 * DigitsValue(s[..|s| - 1]) + DigitValue(s[|s| - 1])
  }

  /** The longest run of digits at the start. */
  function DigitPrefix(s: string): (p: string)
    ensures p <= s && (forall c | c in p :: IsDigit(c)) && (|p| < |s| ==> !IsDigit(s[|p|]))
  {
    if s == [] || !IsDigit(s[0]) then [] else [s[0]] + DigitPrefix(s[1..])
  }

  lemma {:induction false} DigitPrefixOf(digits: string, junk: string)
    requires forall c | c in digits :: IsDigit(c)
    requires junk == "" || !IsDigit(junk[0])
    ensures DigitPrefix(digits + junk) == digits
  {
    if digits == "" {
      assert digits + junk == junk;
    } else {
      var c := digits[0];
      assert c in digits;
      DigitPrefixOf(digits[1..], junk);
      assert (digits + junk)[1..] == digits[1..] + junk;
    }
  }

  datatype Parsed = Number(n: int) | NaN

  /** Decimal `parseInt`: leading white space and one sign are skipped, then digits are read as far as they go. */
  function ParseInt(text: string): Parsed {
    ReadSigned(TrimStart(text))
  }

  /** The sign in front of a number, if there is one. */
  function Sign(s: string): (sign: string)
    ensures sign <= s && IsSign(sign)
  {
    if s != [] && (s[0] == '+' || s[0] == '-') then [s[0]] else ""
  }

  predicate IsSign(sign: string) {
    sign == "" || sign == "+" || sign == "-"
  }

  function ReadSigned(s: string): Parsed {
    var digits := DigitPrefix(s[|Sign(s)|..]);
    if digits == "" then NaN else Number(Signed(Sign(s), digits))
  }

  function Signed(sign: string, digits: string): int
    requires forall c | c in digits :: IsDigit(c)
  {
    if sign == "-" then 0 - DigitsValue(digits) else DigitsValue(digits)
  }

  /** `s` is a sign, digits, and something that does not go on with a digit. */
  predicate Reads(s: string, sign: string, digits: string, junk: string) {
    && s == sign + (digits + junk) && IsSign(sign) && AllDigits(digits)
    && (junk == "" || !IsDigit(junk[0]))
  }

  lemma ReadingIsTheNumber(s: string, sign: string, digits: string, junk: string)
    requires Reads(s, sign, digits, junk)
    ensures ReadSigned(s) == Number(Signed(sign, digits))
  {
    hide DigitsValue, DigitPrefix;
    var d := digits[0];
    assert d in digits;
    DigitPrefixOf(digits, junk);
    assert s[|sign|..] == digits + junk;
    assert sign == "" ==> s[0] == d;
    assert Sign(s) == sign;
  }

  lemma NumbersAreRead(s: string) returns (sign: string, digits: string, junk: string)
    requires ReadSigned(s) != NaN
    ensures Reads(s, sign, digits, junk)
  {
    sign := Sign(s);
    var body := s[|sign|..];
    digits := DigitPrefix(body);
    junk := body[|digits|..];
    assert body == digits + junk;
    assert s == sign + body;
  }

  /** On plain digits `parseInt` is their value. */
  lemma ParseDigits(s: string)
    requires AllDigits(s)
    ensures ParseInt(s) == Number(DigitsValue(s))
  {
    var c := s[0];
    assert c in s && !IsSpace(c);
    assert s == "" + (s + "");
    ReadingIsTheNumber(s, "", s, "");
  }

  /** The usual decimal notation of a number. */
  function Decimal(n: nat): string {
    if n < 10 then [('0' as int + n) as char] else Decimal(n / 10) + [('0' as int + n % 10) as char]
  }

  /** Decimal notation is read back. */
  lemma {:induction false} DecimalRoundTrip(n: nat)
    ensures AllDigits(Decimal(n)) && DigitsValue(Decimal(n)) == n
  {
    var last := ('0' as int + n % 10) as char;
    if n >= 10 {
      DecimalRoundTrip(n / 10);
      assert Decimal(n)[..|Decimal(n)| - 1] == Decimal(n / 10);
    } else {
      assert Decimal(n) == [] + [last];
      assert DigitsValue([]) == 0;
    }
  }

  /** `parseInt` reads a number and ignores what comes after it. */
  lemma JunkIsIgnored(n: nat, junk: string)
    requires junk == "" || !IsDigit(junk[0])
    ensures ParseInt(Decimal(n) + junk) == Number(n)
  {
    var digits := Decimal(n);
    DecimalRoundTrip(n);
    var c := digits[0];
    assert c in digits && IsDigit(c);
    DigitIsNoSpace(c);
    assert digits + junk == "" + (digits + junk);
    ReadingIsTheNumber(digits + junk, "", digits, junk);
  }

  /** One sign in front is read, after white space or none. */
  lemma SignsAreRead(n: nat)
    ensures ParseInt("+" + Decimal(n)) == Number(n) && ParseInt(" +" + Decimal(n)) == Number(n)
    ensures ParseInt("-" + Decimal(n)) == Number(0 - n) && ParseInt("+-" + Decimal(n)) == NaN
  {
    hide ReadSigned, Decimal, DigitsValue;
    var digits := Decimal(n);
    DecimalRoundTrip(n);
    SignedIsRead("+", digits);
    SignedIsRead("-", digits);
    assert (" +" + digits)[1..] == "+" + digits;
    TwoSignsAreNot("+-" + digits);
  }

  lemma SignedIsRead(sign: string, digits: string)
    requires AllDigits(digits) && sign != "" && IsSign(sign)
    ensures ReadSigned(sign + digits) == Number(Signed(sign, digits))
  {
    assert digits + "" == digits;
    ReadingIsTheNumber(sign + digits, sign, digits, "");
  }

  lemma TwoSignsAreNot(s: string)
    requires |s| >= 2 && s[0] == '+' && s[1] == '-'
    ensures ReadSigned(s) == NaN
  {
    assert s[|Sign(s)|..][0] == '-';
  }

  lemma DigitIsNoSpace(c: char)
    requires IsDigit(c)
    ensures !IsSpace(c)
  {
  }
}
