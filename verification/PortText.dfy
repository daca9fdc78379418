/** Protocols with ports in form texts (front/src/utils/common.ts). */
module PortText {
  import opened Collections
  import opened Text
  import opened AddressText

  const MAX_PORT := 65535

  predicate IsPortNumber(s: string) {
    AllDigits(s) && ParseInt(s).Number? && 0 < ParseInt(s).n <= MAX_PORT
  }

  predicate IsDispersedPort(s: string) {
    ',' in s && forall i | 0 <= i < |Split(s, ',')| :: IsPortNumber(Split(s, ',')[i])
  }

  predicate IsContinuityPort(s: string) {
    var parts := Split(s, '-');
    |parts| == 2 && IsPortNumber(parts[0]) && IsPortNumber(parts[1])
  }

  predicate IsProtocol(s: string) {
    s == "tcp" || s == "TCP" || s == "UDP" || s == "udp"
  }

  predicate IsSpecialProtocol(s: string) {
    s == "ICMP" || s == "icmp" || s == "GRE" || s == "gre"
  }

  predicate IsPorts(s: string) {
    IsPortNumber(s) || s == "all" || s == "ALL" || IsDispersedPort(s) || IsContinuityPort(s)
  }

  /** The test `analysisPort` makes on the first word of a line. */
  predicate IsPortAddress(word: string) {
    var parts := Split(Trim(word), ':');
    if |parts| == 2 then IsProtocol(parts[0]) && IsPorts(parts[1]) else IsSpecialProtocol(parts[0])
  }

  // ----- the intended grammar -----

  predicate PortNumber(s: string) {
    AllDigits(s) && 1 <= DigitsValue(s) <= MAX_PORT
  }

  ghost predicate PortList(s: string) {
    exists ports :: PortsJoined(s, ports)
  }

  predicate PortsJoined(s: string, ports: seq<string>) {
    |ports| >= 1 && s == Join(ports, ',') && forall i | 0 <= i < |ports| :: PortNumber(ports[i])
  }

  ghost predicate PortRange(s: string) {
    exists low, high :: Cut(s, '-', low, high) && PortNumber(low) && PortNumber(high)
  }

  /** A comma list of one or more ports, a range of ports, or all of them. */
  ghost predicate Ports(s: string) {
    s == "all" || s == "ALL" || PortList(s) || PortRange(s)
  }

  /** A protocol with its ports, or a protocol that has none. */
  ghost predicate PortNotation(s: string) {
    || IsSpecialProtocol(s)
    || exists protocol, ports :: Cut(s, ':', protocol, ports) && IsProtocol(protocol) && Ports(ports)
  }

  /** A protocol that has no ports, followed by two colons or more. */
  ghost predicate SpecialWithColons(s: string) {
    exists protocol, rest :: SpecialThenColons(s, protocol, rest)
  }

  predicate SpecialThenColons(s: string, protocol: string, rest: string) {
    s == protocol + ":" + rest && IsSpecialProtocol(protocol) && ':' in rest
  }

  // ----- the check against the grammar -----

  lemma PortNumberIsDigits(s: string)
    ensures IsPortNumber(s) <==> PortNumber(s)
  {
    if AllDigits(s) {
      ParseDigits(s);
    }
  }

  /** Decimal notation is accepted for the numbers 1 to 65535 and no others. */
  lemma DecimalPorts(n: nat)
    ensures IsPortNumber(Decimal(n)) <==> 1 <= n <= 65535
  {
    PortNumberIsDigits(Decimal(n));
    DecimalRoundTrip(n);
  }

  lemma ListsAgree(s: string)
    ensures IsPortNumber(s) || IsDispersedPort(s) <==> PortList(s)
  {
    if IsPortNumber(s) {
      PortNumberIsDigits(s);
      assert PortsJoined(s, [s]);
    } else if IsDispersedPort(s) {
      JoinSplit(s, ',');
      forall i | 0 <= i < |Split(s, ',')| ensures PortNumber(Split(s, ',')[i]) {
        PortNumberIsDigits(Split(s, ',')[i]);
      }
      assert PortsJoined(s, Split(s, ','));
    }
    if PortList(s) {
      var ports :| PortsJoined(s, ports);
      ListedPortsPass(s, ports);
    }
  }

  lemma ListedPortsPass(s: string, ports: seq<string>)
    requires PortsJoined(s, ports)
    ensures IsPortNumber(s) || IsDispersedPort(s)
  {
    forall i | 0 <= i < |ports| ensures IsPortNumber(ports[i]) && ',' !in ports[i] {
      PortNumberIsDigits(ports[i]);
    }
    SplitJoin(ports, ',');
    if |ports| > 1 {
      assert s[|ports[0]|] == ',';
    }
  }

  lemma RangesAgree(s: string)
    ensures IsContinuityPort(s) <==> PortRange(s)
  {
    if |Split(s, '-')| == 2 {
      var low, high := TwoPieces(s, '-');
      PortNumberIsDigits(low);
      PortNumberIsDigits(high);
    }
    if PortRange(s) {
      var low, high :| Cut(s, '-', low, high) && PortNumber(low) && PortNumber(high);
      PortNumberIsDigits(low);
      PortNumberIsDigits(high);
      CutSplits(s, '-', low, high);
    }
  }

  lemma PortsAgree(s: string)
    ensures IsPorts(s) <==> Ports(s)
  {
    ListsAgree(s);
    RangesAgree(s);
  }

  /** A range is any two ports, the first of which may be the greater one. */
  lemma RangesTakeAnyOrder(low: nat, high: nat)
    ensures IsPorts(Decimal(low) + "-" + Decimal(high)) <==> 1 <= low <= 65535 && 1 <= high <= 65535
  {
    hide IsPorts, IsPortNumber;
    var a, b := Decimal(low), Decimal(high);
    DecimalPorts(low);
    DecimalPorts(high);
    OnlyDigits(low);
    OnlyDigits(high);
    CutSplits(a + "-" + b, '-', a, b);
    HyphenatedIsARange(a + "-" + b, a, b);
  }

  /** Decimal notation holds no punctuation. */
  lemma OnlyDigits(n: nat)
    ensures Decimal(n) != "" && forall c | c in Decimal(n) :: IsDigit(c)
    ensures ',' !in Decimal(n) && '-' !in Decimal(n) && ':' !in Decimal(n)
  {
    DecimalRoundTrip(n);
  }

  lemma HyphenatedIsARange(s: string, a: string, b: string)
    requires s == a + "-" + b && AllDigits(a) && AllDigits(b)
    ensures IsPorts(s) <==> IsContinuityPort(s)
  {
    assert s[|a|] == '-' && '-' in s;
    assert s[0] == a[0] && a[0] in a;
    assert ',' !in s;
  }

  /** Ports follow exactly the four spellings of two protocols. */
  lemma ProtocolsWithPorts(protocol: string, n: nat)
    requires NoSpace(protocol) && ':' !in protocol
    ensures IsPortAddress(protocol + ":" + Decimal(n)) <==>
              protocol in ["tcp", "TCP", "udp", "UDP"] && 1 <= n <= 65535
  {
    hide IsPorts, Decimal, Trim;
    OnlyDigits(n);
    DigitsAreNoSpace(Decimal(n));
    TrimWord(protocol + ":" + Decimal(n));
    CutSplits(protocol + ":" + Decimal(n), ':', protocol, Decimal(n));
    DecimalIsANumber(n);
  }

  lemma DigitsAreNoSpace(s: string)
    requires forall c | c in s :: IsDigit(c)
    ensures NoSpace(s)
  {
    forall c | c in s ensures !IsSpace(c) {
      DigitIsNoSpace(c);
    }
  }

  lemma DecimalIsANumber(n: nat)
    ensures IsPorts(Decimal(n)) <==> 1 <= n <= 65535
  {
    hide IsPortNumber, Decimal;
    DecimalPorts(n);
    OnlyDigits(n);
    var s := Decimal(n);
    SplitWithout(s, c => c == '-');
    assert s[0] in s;
  }

  /** A word without a colon passes exactly as one of the four spellings of the two protocols that have no ports. */
  lemma ProtocolsWithoutPorts(protocol: string)
    requires NoSpace(protocol) && ':' !in protocol
    ensures IsPortAddress(protocol) <==> protocol in ["icmp", "ICMP", "gre", "GRE"]
  {
    TrimWord(protocol);
    SplitWithout(protocol, c => c == ':');
  }

  predicate HoldsDigit(s: string) {
    exists i :: 0 <= i < |s| && IsDigit(s[i])
  }

  lemma NumbersHoldDigits(s: string)
    requires IsPortNumber(s)
    ensures HoldsDigit(s)
  {
    assert s[0] in s && IsDigit(s[0]);
  }

  lemma ListsHoldDigits(s: string)
    requires IsDispersedPort(s)
    ensures HoldsDigit(s)
  {
    var parts := Split(s, ',');
    JoinSplit(s, ',');
    NumbersHoldDigits(parts[0]);
    var i :| 0 <= i < |parts[0]| && IsDigit(parts[0][i]);
    assert s[i] == parts[0][i];
  }

  lemma RangesHoldDigits(s: string)
    requires IsContinuityPort(s)
    ensures HoldsDigit(s)
  {
    var low, high := TwoPieces(s, '-');
    NumbersHoldDigits(low);
    var i :| 0 <= i < |low| && IsDigit(low[i]);
    assert s[i] == low[i];
  }

  /** Apart from numbers, lists and ranges only `all` and `ALL` stand for ports. */
  lemma AllIsTheOnlyWord(s: string)
    requires !HoldsDigit(s)
    ensures IsPorts(s) <==> s == "all" || s == "ALL"
  {
    if IsPortNumber(s) {
      NumbersHoldDigits(s);
    } else if IsDispersedPort(s) {
      ListsHoldDigits(s);
    } else if IsContinuityPort(s) {
      RangesHoldDigits(s);
    }
  }

  lemma SpecialProtocolIsWhole(s: string)
    requires IsSpecialProtocol(s)
    ensures Split(s, ':') == [s]
  {
    assert ':' !in s;
    SplitWithout(s, c => c == ':');
  }

  lemma ColonsMeanMorePieces(s: string, protocol: string, rest: string)
    requires SpecialThenColons(s, protocol, rest)
    ensures |Split(s, ':')| >= 3 && Split(s, ':')[0] == protocol
  {
    SplitAtFirst(protocol, ':', rest, c => c == ':');
    if |Split(rest, ':')| == 1 {
      JoinSplit(rest, ':');
      PiecesAreWithout(rest, c => c == ':');
    }
  }

  /** Three pieces or more, starting with a special protocol, are that protocol and a rest with a colon in it. */
  lemma MorePiecesMeanColons(s: string)
    requires |Split(s, ':')| >= 3 && IsSpecialProtocol(Split(s, ':')[0])
    ensures SpecialWithColons(s)
  {
    JoinSplit(s, ':');
    var parts := Split(s, ':');
    var rest := Join(parts[1..], ':');
    assert rest[|parts[1]|] == ':';
    assert SpecialThenColons(s, parts[0], rest);
  }

  /** A word is accepted when it is in the grammar, or a protocol without ports followed by two colons or more. */
  lemma AcceptedPortsAre(word: string)
    requires NoSpace(word)
    ensures IsPortAddress(word) <==> PortNotation(word) || SpecialWithColons(word)
    ensures !(PortNotation(word) && SpecialWithColons(word))
  {
    TrimWord(word);
    var parts := Split(word, ':');
    if |parts| == 2 {
      var protocol, ports := TwoPieces(word, ':');
      PortsAgree(ports);
    } else if |parts| == 1 {
      JoinSplit(word, ':');
    } else if IsSpecialProtocol(parts[0]) {
      MorePiecesMeanColons(word);
    }
    if IsSpecialProtocol(word) {
      SpecialProtocolIsWhole(word);
    }
    forall protocol, ports | Cut(word, ':', protocol, ports) ensures parts == [protocol, ports] {
      CutSplits(word, ':', protocol, ports);
    }
    forall protocol, rest | SpecialThenColons(word, protocol, rest)
      ensures |parts| >= 3 && parts[0] == protocol
    {
      ColonsMeanMorePieces(word, protocol, rest);
    }
  }

  /** The check and the grammar agree on a word exactly when it is not a special protocol with two colons or more. */
  lemma PortCheckIsExactIff(word: string)
    requires NoSpace(word)
    ensures (IsPortAddress(word) <==> PortNotation(word)) <==> !SpecialWithColons(word)
  {
    AcceptedPortsAre(word);
  }

  /** So `icmp:1:2` and the like are accepted though these protocols take no ports. */
  lemma SpecialProtocolsTakeColons(protocol: string, rest: string)
    requires IsSpecialProtocol(protocol) && NoSpace(rest) && ':' in rest
    ensures IsPortAddress(protocol + ":" + rest) && !PortNotation(protocol + ":" + rest)
  {
    var word := protocol + ":" + rest;
    assert SpecialThenColons(word, protocol, rest);
    SpecialIsNoSpace(protocol);
    AcceptedPortsAre(word);
  }

  lemma SpecialIsNoSpace(protocol: string)
    requires IsSpecialProtocol(protocol)
    ensures NoSpace(protocol + ":")
  {
  }

  // ----- whole texts -----

  method AnalysisPort(text: string) returns (list: seq<Entry>)
    ensures list == Analysed(Split(text, '\n'), IsPortAddress)
  {
    hide Words, Split, Trim;
    list := [];
    var lines := Split(text, '\n');
    for i := 0 to |lines|
      invariant list == Analysed(lines[..i], IsPortAddress)
    {
      AnalysedStep(lines, i, IsPortAddress);
      var parts := Words(lines[i]);
      var description := if |parts| >= 2 then Join(parts[1..], ' ') else "";
      var portArr := Split(Trim(parts[0]), ':');
      if |portArr| == 2 {
        var protocol, port := portArr[0], portArr[1];
        if IsProtocol(protocol) {
          if IsPortNumber(port) || port == "all" || port == "ALL" || IsDispersedPort(port) || IsContinuityPort(port) {
            list := list + [Entry(parts[0], description)];
          }
        }
      } else {
        var protocol := portArr[0];
        if IsSpecialProtocol(protocol) {
          list := list + [Entry(parts[0], description)];
        }
      }
    }
    assert lines[..|lines|] == lines;
  }

  lemma BlankIsNoPort()
    ensures !IsPortAddress("")
  {
    SplitWithout("", c => c == ':');
    assert Trim("") == "";
  }

  /** The counting check passes exactly the texts whose every non-blank line starts with a word in the grammar, or with
      a special protocol and two colons or more. */
  method IsPortValid(text: string) returns (ok: bool)
    ensures ok <==> forall line | line in Split(text, '\n') && line != "" ::
                      PortNotation(FirstWord(line)) || SpecialWithColons(FirstWord(line))
  {
    var lines := Filter(Split(text, '\n'), line => line != "");
    var list := AnalysisPort(text);
    ok := !(|lines| > |list|);
    BlankIsNoPort();
    CountIsExact(Split(text, '\n'), IsPortAddress);
    forall line | line in Split(text, '\n') {
      AcceptedPortsAre(FirstWord(line));
    }
  }
}
