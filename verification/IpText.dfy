/** Single addresses, prefixes and ranges in form texts (front/src/utils/common.ts). */
module IpText {
  import opened Collections
  import opened Text
  import opened AddressText

  /** What the validator library's `isIP` answers for version 4 and for version 6. */
  datatype Library = Library(isIP4: string -> bool, isIP6: string -> bool) {

    /** No string is an address of both versions; the empty string and strings with a slash are none. */
    ghost predicate Consistent() {
      forall s: string {:trigger isIP4(s)} {:trigger isIP6(s)} ::
        isIP4(s) || isIP6(s) ==> s != "" && '/' !in s && !(isIP4(s) && isIP6(s))
    }

    predicate IsSingleIP(s: string) {
      isIP4(s) || isIP6(s)
    }

    predicate IsCIDR(s: string) {
      var parts := Split(s, '/');
      |parts| == 2 &&
      if isIP4(parts[0]) then InRange(ParseInt(parts[1]), 32)
      else isIP6(parts[0]) && InRange(ParseInt(parts[1]), 128)
    }

    predicate IsRange(s: string) {
      var parts := Split(s, '-');
      |parts| == 2 && ((isIP4(parts[0]) && isIP4(parts[1])) || (isIP6(parts[0]) && isIP6(parts[1])))
    }

    predicate IsAddress(s: string) {
      IsSingleIP(s) || IsCIDR(s) || IsRange(s)
    }

    // ----- the intended grammar -----

    function PrefixMax(ip: string): nat {
      if isIP4(ip) then 32 else 128
    }

    /** An address, a slash and a decimal prefix length (RFC 4632 section 3.1, RFC 4291 section 2.3). */
    ghost predicate PrefixNotation(s: string) {
      exists ip, length ::
        Cut(s, '/', ip, length) && IsSingleIP(ip) && AllDigits(length) && DigitsValue(length) <= PrefixMax(ip)
    }

    /** Two addresses of one version with a hyphen between. */
    ghost predicate RangeNotation(s: string) {
      exists a, b :: Cut(s, '-', a, b) && ((isIP4(a) && isIP4(b)) || (isIP6(a) && isIP6(b)))
    }

    ghost predicate AddressNotation(s: string) {
      IsSingleIP(s) || PrefixNotation(s) || RangeNotation(s)
    }

    /** After the slash stands something that is not a decimal number but from which a fitting number can be read. */
    ghost predicate LenientPrefix(s: string) {
      exists ip, length ::
        Cut(s, '/', ip, length) && IsSingleIP(ip) && !AllDigits(length) && InRange(ParseInt(length), PrefixMax(ip))
    }

    lemma CutCIDR(s: string, ip: string, length: string)
      requires Consistent() && Cut(s, '/', ip, length)
      ensures IsCIDR(s) <==> IsSingleIP(ip) && InRange(ParseInt(length), PrefixMax(ip))
      ensures !IsSingleIP(s) && !IsRange(s) && !RangeNotation(s)
    {
      CutSplits(s, '/', ip, length);
      assert s[|ip|] == '/';
      if |Split(s, '-')| == 2 {
        var a, b := TwoPieces(s, '-');
        SlashStays(s, a, b);
      }
      forall a, b | Cut(s, '-', a, b) ensures '/' in a || '/' in b {
        SlashStays(s, a, b);
      }
    }

    lemma SlashStays(s: string, a: string, b: string)
      requires Cut(s, '-', a, b) && '/' in s
      ensures '/' in a || '/' in b
    {
    }

    lemma RangeIsNotation(s: string)
      ensures IsRange(s) <==> RangeNotation(s)
    {
      if |Split(s, '-')| == 2 {
        var a, b := TwoPieces(s, '-');
        assert IsRange(s) ==> RangeNotation(s);
      }
      forall a, b | Cut(s, '-', a, b) ensures Split(s, '-') == [a, b] {
        CutSplits(s, '-', a, b);
      }
    }

    /** Everything in the intended grammar is accepted, and what is accepted besides has a lenient prefix. */
    lemma AcceptedIsNotationOrLenient(s: string)
      requires Consistent()
      ensures IsAddress(s) <==> AddressNotation(s) || LenientPrefix(s)
      ensures !(AddressNotation(s) && LenientPrefix(s))
    {
      RangeIsNotation(s);
      if |Split(s, '/')| == 2 {
        var ip, length := TwoPieces(s, '/');
        CutCIDR(s, ip, length);
        if AllDigits(length) {
          ParseDigits(length);
        }
      }
      forall ip, length | Cut(s, '/', ip, length) ensures Split(s, '/') == [ip, length] {
        CutSplits(s, '/', ip, length);
      }
    }
  }

  predicate InRange(p: Parsed, max: nat) {
    p.Number? && 0 <= p.n <= max
  }

  ghost predicate Fits(s: string, sign: string, digits: string, junk: string, max: nat) {
    Reads(s, sign, digits, junk) && 0 <= Signed(sign, digits) <= max
  }

  ghost predicate StartsWithFitting(s: string, max: nat) {
    exists sign, digits, junk :: Fits(s, sign, digits, junk, max)
  }

  /** The texts from which a fitting number is read: white space, a sign, digits, and anything after them. */
  lemma FittingReadings(length: string, max: nat)
    ensures InRange(ParseInt(length), max) <==> StartsWithFitting(TrimStart(length), max)
  {
    var s := TrimStart(length);
    if InRange(ParseInt(length), max) {
      var sign, digits, junk := NumbersAreRead(s);
      ReadingIsTheNumber(s, sign, digits, junk);
      assert Fits(s, sign, digits, junk, max);
    }
    if StartsWithFitting(s, max) {
      var sign, digits, junk :| Fits(s, sign, digits, junk, max);
      ReadingIsTheNumber(s, sign, digits, junk);
      assert ParseInt(length) == Number(Signed(sign, digits));
    }
  }

  /** The check and the intended grammar agree on a text exactly when its prefix is not a lenient one. */
  lemma AddressCheckIsExactIff(s: string, lib: Library)
    requires lib.Consistent()
    ensures (lib.IsAddress(s) <==> lib.AddressNotation(s)) <==> !lib.LenientPrefix(s)
  {
    lib.AcceptedIsNotationOrLenient(s);
  }

  /** For instance a fitting prefix length with anything but a digit behind it, as in `10.0.0.0/24abc`. */
  lemma JunkAfterThePrefixIsAccepted(s: string, lib: Library, ip: string, n: nat, junk: string)
    requires lib.Consistent() && lib.IsSingleIP(ip) && n <= lib.PrefixMax(ip)
    requires Cut(s, '/', ip, Decimal(n) + junk) && junk != "" && !IsDigit(junk[0])
    ensures lib.IsAddress(s) && !lib.AddressNotation(s)
  {
    var length := Decimal(n) + junk;
    JunkIsIgnored(n, junk);
    JunkIsNoDigits(Decimal(n), junk);
    ShownLenient(s, lib, ip, length);
    lib.AcceptedIsNotationOrLenient(s);
  }

  /** A prefix length in decimal notation is accepted up to 32 bits for version 4 and up to 128 bits for version 6. */
  lemma DecimalPrefixes(lib: Library, ip: string, n: nat)
    requires lib.Consistent() && lib.IsSingleIP(ip)
    ensures lib.IsAddress(ip + "/" + Decimal(n)) <==> n <= if lib.isIP4(ip) then 32 else 128
  {
    var length := Decimal(n);
    DecimalRoundTrip(n);
    ParseDigits(length);
    assert '/' !in length by {
      assert forall c | c in length :: IsDigit(c);
    }
    lib.CutCIDR(ip + "/" + length, ip, length);
  }

  /** Two addresses with a hyphen between are accepted exactly when they are of one version, in whatever order. */
  lemma RangesAreOfOneVersion(lib: Library, a: string, b: string)
    requires lib.Consistent() && '-' !in a && '-' !in b && '/' !in a && '/' !in b && !lib.IsSingleIP(a + "-" + b)
    ensures lib.IsAddress(a + "-" + b) <==> (lib.isIP4(a) && lib.isIP4(b)) || (lib.isIP6(a) && lib.isIP6(b))
  {
    CutSplits(a + "-" + b, '-', a, b);
    SplitWithout(a + "-" + b, c => c == '/');
  }

  lemma JunkIsNoDigits(digits: string, junk: string)
    requires junk != "" && !IsDigit(junk[0])
    ensures !AllDigits(digits + junk)
  {
    assert (digits + junk)[|digits|] == junk[0];
  }

  lemma ShownLenient(s: string, lib: Library, ip: string, length: string)
    requires Cut(s, '/', ip, length) && lib.IsSingleIP(ip)
    requires !AllDigits(length) && InRange(ParseInt(length), lib.PrefixMax(ip))
    ensures lib.LenientPrefix(s)
  {
  }

  // ----- whole texts -----

  method AnalysisIP(text: string, lib: Library) returns (list: seq<Entry>)
    ensures list == Analysed(Split(text, '\n'), s => lib.IsAddress(s))
  {
    list := [];
    var lines := Split(text, '\n');
    for i := 0 to |lines|
      invariant list == Analysed(lines[..i], s => lib.IsAddress(s))
    {
      AnalysedStep(lines, i, s => lib.IsAddress(s));
      var parts := Words(lines[i]);
      var description := if |parts| >= 2 then Join(parts[1..], ' ') else "";
      if lib.IsSingleIP(parts[0]) || lib.IsCIDR(parts[0]) || lib.IsRange(parts[0]) {
        list := list + [Entry(parts[0], description)];
      }
    }
    assert lines[..|lines|] == lines;
  }

  /** The counting check passes exactly the texts whose every non-blank line starts with an address in the intended
      grammar, or in the lenient form of a prefix. */
  method IsIpsValid(text: string, lib: Library) returns (ok: bool)
    requires lib.Consistent()
    ensures ok <==> forall line | line in Split(text, '\n') && line != "" ::
                      lib.AddressNotation(FirstWord(line)) || lib.LenientPrefix(FirstWord(line))
  {
    var lines := Filter(Split(text, '\n'), line => line != "");
    var list := AnalysisIP(text, lib);
    ok := !(|lines| > |list|);
    BlankIsNoAddress(lib);
    CountIsExact(Split(text, '\n'), s => lib.IsAddress(s));
    forall line | line in Split(text, '\n') {
      lib.AcceptedIsNotationOrLenient(FirstWord(line));
    }
  }

  lemma BlankIsNoAddress(lib: Library)
    requires lib.Consistent()
    ensures !lib.IsAddress("")
  {
    SplitWithout("", c => c == '/');
    SplitWithout("", c => c == '-');
  }
}
