/** First-match rules for how many synchronisation tasks may run at once (pkg/cc/types.go). */
module SyncConcurrency {
  import opened Text

  const WILDCARD := "*"

  /** A rule's text is configured; vendor, resource and region are filled in from it. */
  datatype Rule = Rule(rule: string, vendor: string, resource: string, region: string,
                       syncConcurrent: nat, listConcurrent: nat) {

    predicate Match(q: Query) {
      && (vendor == WILDCARD || vendor == q.vendor)
      && (resource == WILDCARD || resource == q.resource)
      && (region == WILDCARD || region == q.region)
    }

    /** The pieces of the text, as far as there are any, over the fields. */
    function WithDefaults(): Rule {
      if rule == "" then this
      else
        var parts := Split(rule, '/');
        this.(vendor := parts[0],
              resource := if |parts| > 1 then parts[1] else resource,
              region := if |parts| > 2 then parts[2] else region)
    }

    predicate Valid() {
      rule != "" && vendor != "" && resource != "" && region != "" && listConcurrent != 0 && syncConcurrent != 0
    }
  }

  datatype Query = Query(vendor: string, resource: string, region: string)

  /** How many tasks may list, and how many may synchronise. */
  datatype Answer = Answer(listing: nat, syncing: nat)

  datatype Verdict = Fine | Error(reason: string)

  function ListDefaulted(r: Rule): Rule {
    if r.listConcurrent == 0 then r.(listConcurrent := r.syncConcurrent) else r
  }

  function DefaultedRule(r: Rule): Rule {
    ListDefaulted(r.WithDefaults())
  }

  function DefaultedRules(rules: seq<Rule>): (defaulted: seq<Rule>)
    ensures |defaulted| == |rules| && forall i | 0 <= i < |rules| :: defaulted[i] == DefaultedRule(rules[i])
  {
    seq(|rules|, i requires 0 <= i < |rules| => DefaultedRule(rules[i]))
  }

  /** The answer of the first rule that matches, or the default for both. */
  function FirstMatch(rules: seq<Rule>, q: Query, default: nat): Answer {
    if rules == [] then Answer(default, default)
    else if rules[0].Match(q) then Answer(rules[0].listConcurrent, rules[0].syncConcurrent)
    else FirstMatch(rules[1..], q, default)
  }

  class SyncConfig {
    var defaultConcurrent: nat
    var concurrentRules: seq<Rule>

    constructor (default: nat, rules: seq<Rule>)
      ensures defaultConcurrent == default && concurrentRules == rules
    {
      defaultConcurrent, concurrentRules := default, rules;
    }

    method TrySetDefault()
      modifies this
      ensures defaultConcurrent == if old(defaultConcurrent) == 0 then 1 else old(defaultConcurrent)
      ensures concurrentRules == DefaultedRules(old(concurrentRules))
    {
      if defaultConcurrent == 0 {
        defaultConcurrent := 1;
      }
      for i := 0 to |concurrentRules|
        invariant |concurrentRules| == |old(concurrentRules)|
        invariant defaultConcurrent == if old(defaultConcurrent) == 0 then 1 else old(defaultConcurrent)
        invariant forall k | 0 <= k < i :: concurrentRules[k] == DefaultedRule(old(concurrentRules)[k])
        invariant forall k | i <= k < |concurrentRules| :: concurrentRules[k] == old(concurrentRules)[k]
      {
        var r := concurrentRules[i];
        if r.rule != "" {
          var parts := Split(r.rule, '/');
          r := r.(vendor := parts[0]);
          if |parts| > 1 {
            r := r.(resource := parts[1]);
          }
          if |parts| > 2 {
            r := r.(region := parts[2]);
          }
        }
        if r.listConcurrent == 0 {
          r := r.(listConcurrent := r.syncConcurrent);
        }
        concurrentRules := concurrentRules[i := r];
      }
    }

    method Validate() returns (v: Verdict)
      ensures v.Fine? <==> defaultConcurrent != 0 && forall r | r in concurrentRules :: r.Valid()
    {
      if defaultConcurrent == 0 {
        return Error("defaultConcurrent is not set");
      }
      for i := 0 to |concurrentRules|
        invariant forall k | 0 <= k < i :: concurrentRules[k].Valid()
      {
        v := ValidateRule(concurrentRules[i]);
        if v.Error? {
          return v;
        }
      }
      return Fine;
    }

    method GetSyncConcurrent(q: Query) returns (a: Answer)
      ensures a == FirstMatch(concurrentRules, q, defaultConcurrent)
    {
      for i := 0 to |concurrentRules|
        invariant FirstMatch(concurrentRules, q, defaultConcurrent) ==
                  FirstMatch(concurrentRules[i..], q, defaultConcurrent)
      {
        var c := concurrentRules[i];
        assert concurrentRules[i..][1..] == concurrentRules[i + 1..];
        if c.Match(q) {
          return Answer(c.listConcurrent, c.syncConcurrent);
        }
      }
      return Answer(defaultConcurrent, defaultConcurrent);
    }
  }

  /** The first thing wrong with a rule. */
  method ValidateRule(r: Rule) returns (v: Verdict)
    ensures v.Fine? <==> r.Valid()
    ensures r.rule == "" ==> v == Error("empty sync concurrent rule")
    ensures v.Error? && v.reason == "invalid sync concurrent number" ==> r.(syncConcurrent := 1).Valid()
  {
    if |r.rule| == 0 {
      return Error("empty sync concurrent rule");
    }
    if r.vendor == "" {
      return Error("invalid sync concurrent rule: empty vendor");
    }
    if r.resource == "" {
      return Error("invalid sync concurrent rule: empty resource");
    }
    if r.region == "" {
      return Error("invalid sync concurrent rule: empty region");
    }
    if r.listConcurrent == 0 {
      return Error("invalid list concurrent number");
    }
    if r.syncConcurrent == 0 {
      return Error("invalid sync concurrent number");
    }
    return Fine;
  }

  // ----- what a configuration that passes promises -----

  /** The answer is the default, or that of a matching rule with no matching rule before it. */
  lemma {:induction false} FirstMatchDecides(rules: seq<Rule>, q: Query, default: nat)
    ensures (forall i | 0 <= i < |rules| :: !rules[i].Match(q)) ==>
              FirstMatch(rules, q, default) == Answer(default, default)
    ensures forall i | 0 <= i < |rules| && rules[i].Match(q) && (forall k | 0 <= k < i :: !rules[k].Match(q)) ::
              FirstMatch(rules, q, default) == Answer(rules[i].listConcurrent, rules[i].syncConcurrent)
  {
    if rules != [] {
      var rest := rules[1..];
      FirstMatchDecides(rest, q, default);
      assert forall i | 1 <= i < |rules| :: rules[i] == rest[i - 1];
      assert forall i | 0 <= i < |rest| :: rest[i] == rules[i + 1];
    }
  }

  lemma {:induction false} AnswersArePositive(rules: seq<Rule>, q: Query, default: nat)
    requires default > 0 && forall r | r in rules :: r.Valid()
    ensures var a := FirstMatch(rules, q, default); a.listing > 0 && a.syncing > 0
  {
    if rules != [] {
      var r := rules[0];
      assert r in rules && forall s | s in rules[1..] :: s in rules;
      AnswersArePositive(rules[1..], q, default);
    }
  }

  /** A rule as it is read from a file: only the text and the numbers can be given. */
  predicate AsConfigured(r: Rule) {
    r.vendor == "" && r.resource == "" && r.region == ""
  }

  /** The text has three non-empty pieces in front, and a number of synchronising tasks is given. */
  predicate Complete(r: Rule) {
    var parts := Split(r.rule, '/');
    |parts| >= 3 && parts[0] != "" && parts[1] != "" && parts[2] != "" && r.syncConcurrent != 0
  }

  lemma {:induction false} ConfiguredRulePassesIff(r: Rule)
    requires AsConfigured(r)
    ensures DefaultedRule(r).Valid() <==> Complete(r)
  {
    if r.rule == "" {
      assert Split("", '/') == [""];
    }
  }

  /** What a file must contain: once the defaults are set, exactly the configurations whose rules are all complete
      pass, and these give every query positive numbers. */
  lemma {:induction false} ConfigurationPassesIff(rules: seq<Rule>, default: nat)
    requires forall r | r in rules :: AsConfigured(r)
    ensures (forall r | r in DefaultedRules(rules) :: r.Valid()) <==> forall r | r in rules :: Complete(r)
    ensures default > 0 && (forall r | r in rules :: Complete(r)) ==>
              forall q :: var a := FirstMatch(DefaultedRules(rules), q, default); a.listing > 0 && a.syncing > 0
  {
    var defaulted := DefaultedRules(rules);
    forall i | 0 <= i < |rules|
      ensures defaulted[i].Valid() <==> Complete(rules[i])
    {
      ConfiguredRulePassesIff(rules[i]);
    }
    assert forall i | 0 <= i < |rules| :: rules[i] in rules && defaulted[i] in defaulted;
    if default > 0 && forall r | r in rules :: Complete(r) {
      forall q
        ensures var a := FirstMatch(defaulted, q, default); a.listing > 0 && a.syncing > 0
      {
        AnswersArePositive(defaulted, q, default);
      }
    }
  }

  /** A text stands for its first three pieces, whatever follows; a piece is matched by itself, and `*` by anything. */
  lemma RuleTextMeans(vendor: string, resource: string, region: string, more: string, r: Rule, q: Query)
    requires '/' !in vendor && '/' !in resource && '/' !in region && (more == "" || more[0] == '/')
    requires r.rule == vendor + "/" + resource + "/" + region + more
    ensures DefaultedRule(r).Match(q) <==>
            && (vendor == "*" || vendor == q.vendor) && (resource == "*" || resource == q.resource)
            && (region == "*" || region == q.region)
  {
    var rest := region + more;
    assert r.rule == vendor + ['/'] + (resource + ['/'] + rest);
    SplitAtFirst(vendor, '/', resource + ['/'] + rest, c => c == '/');
    SplitAtFirst(resource, '/', rest, c => c == '/');
    FirstPieceOf(region, more);
  }

  lemma FirstPieceOf(piece: string, more: string)
    requires '/' !in piece && (more == "" || more[0] == '/')
    ensures Split(piece + more, '/')[0] == piece
  {
    if more == "" {
      assert piece + more == piece;
      SplitWithout(piece, c => c == '/');
    } else {
      assert piece + more == piece + ['/'] + more[1..];
      SplitAtFirst(piece, '/', more[1..], c => c == '/');
    }
  }

  /** What a configured file answers: the numbers of the first rule that matches, a listing number that is not given
      being the number of synchronising tasks. */
  lemma FirstMatchAnswersAsConfigured(rules: seq<Rule>, i: nat, q: Query, default: nat)
    requires i < |rules| && DefaultedRule(rules[i]).Match(q)
    requires forall k | 0 <= k < i :: !DefaultedRule(rules[k]).Match(q)
    ensures FirstMatch(DefaultedRules(rules), q, default) ==
            Answer(if rules[i].listConcurrent == 0 then rules[i].syncConcurrent else rules[i].listConcurrent,
                   rules[i].syncConcurrent)
  {
    FirstMatchDecides(DefaultedRules(rules), q, default);
    assert DefaultedRules(rules)[i].Match(q);
  }

  // ----- rules that an earlier rule covers -----

  predicate CoversPiece(a: string, b: string) {
    a == WILDCARD || a == b
  }

  predicate Covers(a: Rule, b: Rule) {
    CoversPiece(a.vendor, b.vendor) && CoversPiece(a.resource, b.resource) && CoversPiece(a.region, b.region)
  }

  lemma {:induction false} DeletingStep(rules: seq<Rule>, j: nat, q: Query, default: nat)
    requires j < |rules|
    requires rules[j].Match(q) ==> exists i | 0 <= i < j :: rules[i].Match(q)
    ensures FirstMatch(rules[..j] + rules[j + 1..], q, default) == FirstMatch(rules, q, default)
  {
    var left := rules[..j] + rules[j + 1..];
    if j == 0 {
      assert left == rules[1..];
    } else if !rules[0].Match(q) {
      var rest := rules[1..];
      assert rest[j - 1] == rules[j] && left[1..] == rest[..j - 1] + rest[j..];
      if rules[j].Match(q) {
        var i :| 0 <= i < j && rules[i].Match(q);
        assert rest[i - 1] == rules[i];
      }
      DeletingStep(rest, j - 1, q, default);
    }
  }

  /** Deleting a rule that an earlier rule covers changes no answer. */
  lemma DeletingACoveredRule(rules: seq<Rule>, i: nat, j: nat, q: Query, default: nat)
    requires i < j < |rules| && Covers(rules[i], rules[j])
    ensures FirstMatch(rules[..j] + rules[j + 1..], q, default) == FirstMatch(rules, q, default)
  {
    assert rules[j].Match(q) ==> rules[i].Match(q);
    DeletingStep(rules, j, q, default);
  }

  /** Longer than every piece of every rule. */
  function UnusedLength(rules: seq<Rule>): (n: nat)
    ensures n >= 2
    ensures forall r | r in rules :: |r.vendor| < n && |r.resource| < n && |r.region| < n
  {
    if rules == [] then 2
    else
      var r := rules[0];
      assert rules == [r] + rules[1..];
      UnusedLength(rules[1..]) + |r.vendor| + |r.resource| + |r.region| + 1
  }

  function Unused(rules: seq<Rule>): string {
    seq(UnusedLength(rules), _ => 'x')
  }

  /** What only rules at least as wide as `r` match: its own pieces, and names nobody uses in place of `*`. */
  function Probe(rules: seq<Rule>, r: Rule): Query {
    var other := Unused(rules);
    Query(if r.vendor == WILDCARD then other else r.vendor,
          if r.resource == WILDCARD then other else r.resource,
          if r.region == WILDCARD then other else r.region)
  }

  lemma {:induction false} ProbeFindsTheCovering(rules: seq<Rule>, r: Rule, s: Rule)
    requires s in rules
    ensures r.Match(Probe(rules, r))
    ensures s.Match(Probe(rules, r)) ==> Covers(s, r)
  {
    assert |Unused(rules)| > |s.vendor| && |Unused(rules)| > |s.resource| && |Unused(rules)| > |s.region|;
  }

  /** Rules before `j` take every query that rule `j` matches. */
  ghost predicate NeverDecides(rules: seq<Rule>, j: nat)
    requires j < |rules|
  {
    forall q: Query | rules[j].Match(q) :: exists i | 0 <= i < j :: rules[i].Match(q)
  }

  /** A rule is never the one that decides exactly when a single earlier rule covers it: several narrower ones never
      suffice, since there is always a name none of them mentions. */
  lemma NeverDecidesIffCovered(rules: seq<Rule>, j: nat)
    requires j < |rules|
    ensures NeverDecides(rules, j) <==> exists i | 0 <= i < j :: Covers(rules[i], rules[j])
  {
    if NeverDecides(rules, j) {
      var r, q := rules[j], Probe(rules, rules[j]);
      assert r in rules;
      ProbeFindsTheCovering(rules, r, r);
      var i :| 0 <= i < j && rules[i].Match(q);
      var s := rules[i];
      assert s in rules;
      ProbeFindsTheCovering(rules, r, s);
    }
  }
}
