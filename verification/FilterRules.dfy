/** Rules that properties build for themselves: alternatives, and addresses of either network
    (front/src/utils/search.ts). */
module FilterRules {
  import opened Collections
  import opened IpText
  import opened IpLists
  import opened SearchQuery
  import opened QueryMeaning

  // ----- alternatives -----

  /** The rule for one value or several typed into a search box. */
  function BuildFilterRulesWithSearchSelect(value: Val, field: string, op: Op): Rule {
    if value.Arr? && |value.items| > 1 then
      Group(false, OR, seq(|value.items|, i requires 0 <= i < |value.items| => Leaf(false, field, op, value.items[i])))
    else if value.Arr? && |value.items| == 1 then Leaf(false, field, op, value.items[0])
    else Leaf(false, field, op, value)
  }

  /** Several values are alternatives, whatever the operator; one value stands for itself, and so does no value. */
  lemma SearchSelectMeansSomeValue(value: Val, field: string, op: Op, record: Record, b: Backend)
    ensures b.Matches(BuildFilterRulesWithSearchSelect(value, field, op), record) <==>
            if value == Arr([]) then b.Holds(op, record(field), Arr([]))
            else exists i | 0 <= i < |Typed(value)| :: b.Holds(op, record(field), Typed(value)[i])
  {
    var rule := BuildFilterRulesWithSearchSelect(value, field, op);
    if rule.Group? {
      assert |rule.rules| == |Typed(value)|;
      assert forall i | 0 <= i < |rule.rules| ::
          b.Matches(rule.rules[i], record) == b.Holds(op, record(field), Typed(value)[i]);
    } else if value != Arr([]) {
      assert |Typed(value)| == 1;
      assert b.Matches(rule, record) == b.Holds(op, record(field), Typed(value)[0]);
    }
  }

  // ----- addresses -----

  /** What the search field holds: one text, several, or something else. */
  datatype Input = One(text: string) | Many(texts: seq<string>) | Other

  function Texts(value: Input): seq<string> {
    match value
    case One(text) => [text]
    case Many(texts) => texts
    case Other => []
  }

  /** A set that remembers the order of insertion. */
  function Insert(elements: seq<string>, x: string): seq<string> {
    if x in elements then elements else elements + [x]
  }

  function InsertAll(elements: seq<string>, xs: seq<string>): seq<string> {
    if xs == [] then elements else Insert(InsertAll(elements, xs[..|xs| - 1]), xs[|xs| - 1])
  }

  lemma {:induction false} InsertAllMembers(elements: seq<string>, xs: seq<string>)
    ensures forall x :: x in InsertAll(elements, xs) <==> x in elements || x in xs
    ensures NoDuplicates(elements) ==> NoDuplicates(InsertAll(elements, xs))
  {
    if xs != [] {
      InsertAllMembers(elements, xs[..|xs| - 1]);
      assert xs == xs[..|xs| - 1] + [xs[|xs| - 1]];
    }
  }

  method AddAll(elements: seq<string>, xs: seq<string>) returns (grown: seq<string>)
    ensures grown == InsertAll(elements, xs)
  {
    grown := elements;
    for i := 0 to |xs|
      invariant grown == InsertAll(elements, xs[..i])
    {
      assert xs[..i + 1][..i] == xs[..i];
      grown := Insert(grown, xs[i]);
    }
    assert xs[..|xs|] == xs;
  }

  /** What `f` makes of each text. */
  function Mapped(texts: seq<string>, f: string -> seq<string>): (lists: seq<seq<string>>)
    ensures |lists| == |texts|
  {
    if texts == [] then [] else Mapped(texts[..|texts| - 1], f) + [f(texts[|texts| - 1])]
  }

  lemma MappedStep(texts: seq<string>, i: nat, f: string -> seq<string>)
    requires i < |texts|
    ensures Mapped(texts[..i + 1], f) == Mapped(texts[..i], f) + [f(texts[i])]
  {
    assert texts[..i + 1][..i] == texts[..i];
  }

  lemma {:induction false} MappedHolds(texts: seq<string>, f: string -> seq<string>, ip: string)
    ensures ListedIn(Mapped(texts, f), ip) <==> exists text | text in texts :: ip in f(text)
  {
    if texts != [] {
      var init, last := texts[..|texts| - 1], texts[|texts| - 1];
      MappedHolds(init, f, ip);
      assert texts == init + [last];
      assert f(last) in Mapped(texts, f);
    }
  }

  /** The listed items of each text. */
  function Lists(texts: seq<string>): seq<seq<string>> {
    Mapped(texts, Listed)
  }

  /** The addresses of one version in all lists, each once, in order of first appearance. */
  function Gathered(lists: seq<seq<string>>, version: string -> bool): seq<string> {
    if lists == [] then []
    else InsertAll(Gathered(lists[..|lists| - 1], version), Filter(lists[|lists| - 1], version))
  }

  lemma GatheredStep(lists: seq<seq<string>>, list: seq<string>, version: string -> bool)
    ensures Gathered(lists + [list], version) == InsertAll(Gathered(lists, version), Filter(list, version))
  {
    assert (lists + [list])[..|lists|] == lists;
  }

  ghost predicate ListedIn(lists: seq<seq<string>>, ip: string) {
    exists list | list in lists :: ip in list
  }

  lemma {:induction false} InsertAllGrows(elements: seq<string>, xs: seq<string>)
    ensures elements <= InsertAll(elements, xs)
  {
    if xs != [] {
      InsertAllGrows(elements, xs[..|xs| - 1]);
    }
  }

  /** Addresses are gathered in order of first appearance: later lists, and later items of a list, only add behind. */
  lemma {:induction false} LaterAddressesComeLater(lists: seq<seq<string>>, list: seq<string>, more: seq<string>,
                                                   version: string -> bool)
    ensures Gathered(lists, version) <= Gathered(lists + [list], version) <= Gathered(lists + [list + more], version)
  {
    var before, first := Gathered(lists, version), Filter(list, version);
    GatheredStep(lists, list, version);
    GatheredStep(lists, list + more, version);
    FilterKeepsOrder(list, more, version);
    InsertAllGrows(before, first);
    InsertAllAppends(before, first, Filter(more, version));
    InsertAllGrows(InsertAll(before, first), Filter(more, version));
  }

  lemma {:induction false} InsertAllAppends(elements: seq<string>, xs: seq<string>, ys: seq<string>)
    ensures InsertAll(elements, xs + ys) == InsertAll(InsertAll(elements, xs), ys)
  {
    if ys == [] {
      assert xs + ys == xs;
    } else {
      InsertAllAppends(elements, xs, ys[..|ys| - 1]);
      assert (xs + ys)[..|xs + ys| - 1] == xs + ys[..|ys| - 1];
    }
  }

  /** Every given address of the version is gathered once, and nothing else. */
  lemma {:induction false} GatheredMembers(lists: seq<seq<string>>, version: string -> bool)
    ensures NoDuplicates(Gathered(lists, version))
    ensures forall ip :: ip in Gathered(lists, version) <==> version(ip) && ListedIn(lists, ip)
  {
    if lists != [] {
      var init, last := lists[..|lists| - 1], lists[|lists| - 1];
      GatheredMembers(init, version);
      FilterMembers(last, version);
      InsertAllMembers(Gathered(init, version), Filter(last, version));
      assert lists == init + [last];
    }
  }

  function Strings(xs: seq<string>): (vs: seq<Val>)
    ensures |vs| == |xs| && forall i | 0 <= i < |xs| :: vs[i] == Str(xs[i])
  {
    seq(|xs|, i requires 0 <= i < |xs| => Str(xs[i]))
  }

  function AddressRule(field: string, addresses: seq<string>): seq<Rule> {
    if |addresses| > 0 then [Leaf(false, field, JsonOverlaps, Arr(Strings(addresses)))] else []
  }

  function Field4(network: string): string {
    network + "_ipv4_addresses"
  }

  function Field6(network: string): string {
    network + "_ipv6_addresses"
  }

  /** The rules for the given addresses of both versions on one network. */
  function IpRules(value: Input, network: string, lib: Library): seq<Rule> {
    AddressRule(Field4(network), Gathered(Lists(Texts(value)), lib.isIP4)) +
    AddressRule(Field6(network), Gathered(Lists(Texts(value)), Only6(lib)))
  }

  method BuildIPFilterRules(value: Input, network: string, lib: Library) returns (rule: Rule)
    ensures rule == Group(false, OR, IpRules(value, network, lib))
  {
    var v4Set, v6Set := [], [];
    var texts := Texts(value);
    for i := 0 to |texts|
      invariant v4Set == Gathered(Lists(texts[..i]), lib.isIP4)
      invariant v6Set == Gathered(Lists(texts[..i]), Only6(lib))
    {
      MappedStep(texts, i, Listed);
      GatheredStep(Lists(texts[..i]), Listed(texts[i]), lib.isIP4);
      GatheredStep(Lists(texts[..i]), Listed(texts[i]), Only6(lib));
      var v4, v6 := ParseIP(texts[i], lib);
      v4Set := AddAll(v4Set, v4);
      v6Set := AddAll(v6Set, v6);
    }
    assert texts[..|texts|] == texts;
    rule := Group(false, OR, []);
    if |v4Set| > 0 {
      rule := rule.(rules := rule.rules + [Leaf(false, Field4(network), JsonOverlaps, Arr(Strings(v4Set)))]);
    }
    if |v6Set| > 0 {
      rule := rule.(rules := rule.rules + [Leaf(false, Field6(network), JsonOverlaps, Arr(Strings(v6Set)))]);
    }
    assert rule.rules == AddressRule(Field4(network), v4Set) + AddressRule(Field6(network), v6Set);
  }

  /** The load-balancer search cannot tell the networks apart and asks for both. */
  method BuildVIPFilterRules(value: Input, lib: Library) returns (rule: Rule)
    ensures rule == Group(false, OR, IpRules(value, "private", lib) + IpRules(value, "public", lib))
  {
    var privateIpResult := BuildIPFilterRules(value, "private", lib);
    var publicIpResult := BuildIPFilterRules(value, "public", lib);
    rule := Group(false, OR, privateIpResult.rules + publicIpResult.rules);
  }

  // ----- what the address rules ask for -----

  ghost predicate ListHolds(x: Val, ip: string, b: Backend) {
    x.Arr? && exists k | 0 <= k < |x.items| :: b.same(x.items[k], Str(ip))
  }

  ghost predicate Given(value: Input, ip: string) {
    match value
    case One(text) => ip in Listed(text)
    case Many(texts) => exists text | text in texts :: ip in Listed(text)
    case Other => false
  }

  ghost predicate SomeMatch(rules: seq<Rule>, record: Record, b: Backend) {
    exists i | 0 <= i < |rules| :: b.Matches(rules[i], record)
  }

  lemma AddressRuleMeans(field: string, addresses: seq<string>, record: Record, b: Backend)
    requires record(field).Arr?
    ensures SomeMatch(AddressRule(field, addresses), record, b)
            <==> exists ip | ip in addresses :: ListHolds(record(field), ip, b)
  {
    var x := record(field);
    if |addresses| > 0 {
      var v := Arr(Strings(addresses));
      assert SomeMatch(AddressRule(field, addresses), record, b) <==> b.Holds(JsonOverlaps, x, v) by {
        assert b.Matches(AddressRule(field, addresses)[0], record) <==> b.Holds(JsonOverlaps, x, v);
      }
      if i, j :| 0 <= i < |x.items| && 0 <= j < |v.items| && b.same(x.items[i], v.items[j]) {
        var ip := addresses[j];
        assert ip in addresses && ListHolds(x, ip, b);
      }
      if ip :| ip in addresses && ListHolds(x, ip, b) {
        var j :| 0 <= j < |addresses| && addresses[j] == ip;
        assert v.items[j] == Str(ip);
      }
    }
  }

  lemma SomeMatchConcat(r: seq<Rule>, s: seq<Rule>, record: Record, b: Backend)
    ensures SomeMatch(r + s, record, b) <==> SomeMatch(r, record, b) || SomeMatch(s, record, b)
  {
    var all := r + s;
    if i :| 0 <= i < |all| && b.Matches(all[i], record) {
      assert i >= |r| ==> all[i] == s[i - |r|];
    }
    if i :| 0 <= i < |r| && b.Matches(r[i], record) {
      assert all[i] == r[i];
    }
    if i :| 0 <= i < |s| && b.Matches(s[i], record) {
      assert all[|r| + i] == s[i];
    }
  }

  /** The record has a given address of the right version on the network. */
  ghost predicate HasGiven(value: Input, network: string, lib: Library, record: Record, b: Backend) {
    exists ip :: Given(value, ip) &&
      ((lib.isIP4(ip) && ListHolds(record(Field4(network)), ip, b)) ||
       (!lib.isIP4(ip) && lib.isIP6(ip) && ListHolds(record(Field6(network)), ip, b)))
  }

  lemma TextsAreGiven(value: Input, ip: string)
    ensures Given(value, ip) <==> exists text | text in Texts(value) :: ip in Listed(text)
  {
    if value.One? {
      assert value.text in Texts(value);
    }
  }

  lemma GatheredAreGiven(value: Input, lib: Library)
    ensures forall ip :: ip in Gathered(Lists(Texts(value)), lib.isIP4) <==> Given(value, ip) && lib.isIP4(ip)
    ensures forall ip :: ip in Gathered(Lists(Texts(value)), Only6(lib)) <==>
              Given(value, ip) && !lib.isIP4(ip) && lib.isIP6(ip)
  {
    GatheredMembers(Lists(Texts(value)), lib.isIP4);
    GatheredMembers(Lists(Texts(value)), Only6(lib));
    forall ip ensures ListedIn(Lists(Texts(value)), ip) <==> Given(value, ip) {
      MappedHolds(Texts(value), Listed, ip);
      TextsAreGiven(value, ip);
    }
  }

  lemma IpRulesMean(value: Input, network: string, lib: Library, record: Record, b: Backend)
    requires record(Field4(network)).Arr? && record(Field6(network)).Arr?
    ensures SomeMatch(IpRules(value, network, lib), record, b) <==> HasGiven(value, network, lib, record, b)
  {
    var f4, f6 := Field4(network), Field6(network);
    var g4, g6 := Gathered(Lists(Texts(value)), lib.isIP4), Gathered(Lists(Texts(value)), Only6(lib));
    AddressRuleMeans(f4, g4, record, b);
    AddressRuleMeans(f6, g6, record, b);
    SomeMatchConcat(AddressRule(f4, g4), AddressRule(f6, g6), record, b);
    GatheredAreGiven(value, lib);
  }

  /** A search by address finds exactly the records that have one of the given addresses on either network. */
  lemma VipSearchFindsTheGiven(value: Input, lib: Library, record: Record, b: Backend)
    requires record("private_ipv4_addresses").Arr? && record("private_ipv6_addresses").Arr?
    requires record("public_ipv4_addresses").Arr? && record("public_ipv6_addresses").Arr?
    ensures b.Matches(Group(false, OR, IpRules(value, "private", lib) + IpRules(value, "public", lib)), record) <==>
              exists ip :: Given(value, ip) &&
                if lib.isIP4(ip) then
                  || ListHolds(record("private_ipv4_addresses"), ip, b)
                  || ListHolds(record("public_ipv4_addresses"), ip, b)
                else
                  && lib.isIP6(ip)
                  && (|| ListHolds(record("private_ipv6_addresses"), ip, b)
                      || ListHolds(record("public_ipv6_addresses"), ip, b))
  {
    hide ListHolds, Given, IpRules;
    FieldsAreNamed();
    IpRulesMean(value, "private", lib, record, b);
    IpRulesMean(value, "public", lib, record, b);
    SomeMatchConcat(IpRules(value, "private", lib), IpRules(value, "public", lib), record, b);
  }

  lemma FieldsAreNamed()
    ensures Field4("private") == "private_ipv4_addresses" && Field6("private") == "private_ipv6_addresses"
    ensures Field4("public") == "public_ipv4_addresses" && Field6("public") == "public_ipv6_addresses"
  {
  }

  /** As a property's own rules the search is left out of the query exactly when no address was given: a search for
      something that is no address puts no constraint at all. */
  lemma NoAddressMeansNoConstraint(value: Input, lib: Library)
    ensures AddCustom(Built(Group(false, OR, IpRules(value, "private", lib) + IpRules(value, "public", lib)))).Skip?
            <==> forall ip | Given(value, ip) :: !lib.IsSingleIP(ip)
  {
    var g4, g6 := Gathered(Lists(Texts(value)), lib.isIP4), Gathered(Lists(Texts(value)), Only6(lib));
    GatheredAreGiven(value, lib);
    if g4 != [] {
      var ip := g4[0];
      assert ip in g4;
    }
    if g6 != [] {
      var ip := g6[0];
      assert ip in g6;
    }
    forall ip | Given(value, ip) && lib.IsSingleIP(ip) ensures ip in g4 || ip in g6 {
    }
  }
}
