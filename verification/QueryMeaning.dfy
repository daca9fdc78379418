/** What the query built from a search condition asks for (front/src/utils/search.ts). */
module QueryMeaning {
  import opened Collections
  import opened SearchQuery

  type Record = string -> Val

  /** How the server compares: equality of two values, and its answer for every other operator. */
  datatype Backend = Backend(same: (Val, Val) -> bool, test: (Op, Val, Val) -> bool) {

    /** `in` is equality with some listed value, `json_overlaps` a common element. */
    predicate Holds(op: Op, x: Val, v: Val) {
      if op == EQ then same(x, v)
      else if op == IN && v.Arr? then exists i | 0 <= i < |v.items| :: same(x, v.items[i])
      else if op == JsonOverlaps && x.Arr? && v.Arr? then
        exists i, j | 0 <= i < |x.items| && 0 <= j < |v.items| :: same(x.items[i], v.items[j])
      else test(op, x, v)
    }

    predicate Matches(rule: Rule, record: Record) {
      match rule
      case Leaf(_, field, op, value) => Holds(op, record(field), value)
      case Group(_, op, rules) =>
        if op == OR then exists i | 0 <= i < |rules| :: Matches(rules[i], record)
        else forall i | 0 <= i < |rules| :: Matches(rules[i], record)
    }
  }

  // ----- what a field is meant to ask for -----

  /** One of the values typed for a field, as the server sees it. */
  function Shown(v: Val, p: Property, num: ToNumber): Val {
    if p.kind == Number || p.kind == Business then num(v) else v
  }

  function Typed(value: Val): seq<Val> {
    if value.Arr? then value.items else [value]
  }

  /** All the values typed for a field, as the server sees them. */
  function ShownList(value: Val, p: Property, num: ToNumber): (v: Val)
    ensures v.Arr? && |v.items| == |Typed(value)|
    ensures forall i | 0 <= i < |v.items| :: v.items[i] == Shown(Typed(value)[i], p, num)
  {
    Arr(MapItems(Typed(value), v => Shown(v, p, num)))
  }

  predicate HasNoFormatter(p: Property) {
    p.format.None? && p.metaFormat.None?
  }

  /** A property's own formatter comes before the one in its search options. */
  function Formatted(v: Val, p: Property): Val
    requires !HasNoFormatter(p)
  {
    if p.format.Some? then p.format.value(v) else p.metaFormat.value(v)
  }

  /** A bound of a date range; a bound that is itself a blank list counts as absent. */
  function Bound(v: Val, p: Property): Val {
    if !HasNoFormatter(p) then Formatted(v, p)
    else if v.Arr? && AllFalsy(v.items) then Undefined
    else v
  }

  ghost predicate RangeTest(p: Property, value: Val, x: Val, b: Backend)
    requires value.Arr?
  {
    b.Holds(GTE, x, Bound(At(value.items, 0), p)) && b.Holds(LTE, x, Bound(At(value.items, 1), p))
  }

  /** Equality with one of the typed values, for a record that holds one value. */
  ghost predicate OneOf(p: Property, value: Val, x: Val, num: ToNumber, b: Backend) {
    exists i | 0 <= i < |Typed(value)| :: b.same(x, Shown(Typed(value)[i], p, num))
  }

  /** Equality of some element with one of the typed values, for a record that holds a list. */
  ghost predicate SomeOf(p: Property, value: Val, x: Val, num: ToNumber, b: Backend) {
    x.Arr? && exists k | 0 <= k < |x.items| :: OneOf(p, value, x.items[k], num, b)
  }

  /** The comparison of one operator with what was typed. */
  ghost predicate Compared(op: Op, p: Property, value: Val, x: Val, num: ToNumber, b: Backend) {
    if !HasNoFormatter(p) then b.Holds(op, x, Formatted(value, p))
    else if op == IN then OneOf(p, value, x, num, b)
    else if op == JsonOverlaps && x.Arr? then SomeOf(p, value, x, num, b)
    else if op == JsonOverlaps || value.Arr? then b.Holds(op, x, ShownList(value, p, num))
    else b.Holds(op, x, Shown(value, p, num))
  }

  /** The operator a property is meant to be searched with: its own, then that of its search options, then the one of
      its kind. */
  function MeantOp(p: Property, ofKind: Op): Op {
    if p.op.Some? then p.op.value else if p.metaOp.Some? then p.metaOp.value else ofKind
  }

  /** Texts, numbers, flags and certificate authorities are compared, lists of choices offer alternatives. */
  ghost predicate OperatorTest(p: Property, value: Val, x: Val, num: ToNumber, b: Backend) {
    match p.kind
    case Datetime => Compared(AND, p, value, x, num, b)
    case Json => Compared(MeantOp(p, JsonEQ), p, value, x, num, b)
    case String => Compared(MeantOp(p, EQ), p, value, x, num, b)
    case Number => Compared(MeantOp(p, EQ), p, value, x, num, b)
    case Boolean => Compared(MeantOp(p, EQ), p, value, x, num, b)
    case CA => Compared(MeantOp(p, EQ), p, value, x, num, b)
    case _ => Compared(MeantOp(p, IN), p, value, x, num, b)
  }

  ghost predicate CustomTest(c: Custom, record: Record, b: Backend) {
    c.Built? && !(c.rule.Group? && c.rule.rules == []) ==> b.Matches(c.rule, record)
  }

  ghost predicate FieldTest(p: Property, field: (string, Val), record: Record, num: ToNumber, b: Backend) {
    if p.filterRules.Some? then CustomTest(p.filterRules.value(field.1), record, b)
    else if p.kind == Datetime && field.1.Arr? then RangeTest(p, field.1, record(field.0), b)
    else OperatorTest(p, field.1, record(field.0), num, b)
  }

  // ----- one field -----

  lemma ConvertedIsTyped(p: Property, value: Val, op: Op, num: ToNumber)
    requires HasNoFormatter(p) && (p.kind != Datetime || !value.Arr?)
    requires IsArrayOperator(op) || value.Arr?
    ensures ConvertValue(value, p, op, num) == ShownList(value, p, num)
  {
    assert ConvertValue(value, p, op, num).items == ShownList(value, p, num).items;
  }

  lemma ConvertedIsOneOf(p: Property, value: Val, x: Val, num: ToNumber, b: Backend)
    requires HasNoFormatter(p) && p.kind != Datetime
    ensures b.Holds(IN, x, ConvertValue(value, p, IN, num)) <==> OneOf(p, value, x, num, b)
    ensures x.Arr? ==>
              (b.Holds(JsonOverlaps, x, ConvertValue(value, p, JsonOverlaps, num)) <==> SomeOf(p, value, x, num, b))
  {
    var v := ConvertValue(value, p, IN, num);
    assert v == ConvertValue(value, p, JsonOverlaps, num);
    ConvertedIsTyped(p, value, IN, num);
  }

  /** One value under `in` means equality with it. */
  lemma ScalarUnderInIsEquality(p: Property, value: Val, x: Val, num: ToNumber, b: Backend)
    requires HasNoFormatter(p) && p.kind != Datetime && !value.Arr?
    ensures b.Holds(IN, x, ConvertValue(value, p, IN, num)) <==> b.same(x, Shown(value, p, num))
  {
    ConvertedIsOneOf(p, value, x, num, b);
    assert Typed(value)[0] == value;
  }

  lemma FieldRuleMeans(field: (string, Val), properties: seq<Property>, legacy: bool, num: ToNumber,
                       record: Record, b: Backend)
    requires Searched(field, properties)
    ensures var p, added := FindProperty(field.0, properties).value, AddField(field, properties, legacy, num);
            match added
            case Push(rule) => b.Matches(rule, record) <==> FieldTest(p, field, record, num, b)
            case Skip => FieldTest(p, field, record, num, b)
            case Throw => true
  {
    var p, value := FindProperty(field.0, properties).value, field.1;
    if p.filterRules.None? {
      if p.kind == Datetime && value.Arr? {
        RangeRuleMeans(field.0, value, p, num, record, b);
      } else {
        OperatorRuleMeans(p, value, record(field.0), num, b);
      }
    }
  }

  lemma RangeRuleMeans(id: string, value: Val, p: Property, num: ToNumber, record: Record, b: Backend)
    requires p.kind == Datetime && value.Arr?
    ensures var low := CreateRuleItem(id, At(value.items, 0), p, GTE, false, num);
            var high := CreateRuleItem(id, At(value.items, 1), p, LTE, false, num);
            b.Matches(Group(false, AND, [low, high]), record) <==> RangeTest(p, value, record(id), b)
  {
    var low := CreateRuleItem(id, At(value.items, 0), p, GTE, false, num);
    var high := CreateRuleItem(id, At(value.items, 1), p, LTE, false, num);
    BothMatch(low, high, record, b);
  }

  lemma OperatorRuleMeans(p: Property, value: Val, x: Val, num: ToNumber, b: Backend)
    requires p.kind != Datetime || !value.Arr?
    ensures b.Holds(DefaultOp(p), x, ConvertValue(value, p, DefaultOp(p), num)) <==> OperatorTest(p, value, x, num, b)
  {
    if p.kind != Datetime {
      ConversionMeans(DefaultOp(p), p, value, x, num, b);
    }
  }

  lemma ConversionMeans(op: Op, p: Property, value: Val, x: Val, num: ToNumber, b: Backend)
    requires p.kind != Datetime
    ensures b.Holds(op, x, ConvertValue(value, p, op, num)) <==> Compared(op, p, value, x, num, b)
  {
    hide Compared, ConvertValue, Backend.Holds, HasNoFormatter;
    if !HasNoFormatter(p) {
      FormattedMeans(op, p, value, x, num, b);
    } else if op == IN || (op == JsonOverlaps && x.Arr?) {
      AlternativesAreTyped(op, p, value, x, num, b);
    } else if op == JsonOverlaps || value.Arr? {
      OtherListsAreTyped(op, p, value, x, num, b);
    } else {
      OneValueIsShown(op, p, value, x, num, b);
    }
  }

  lemma FormattedMeans(op: Op, p: Property, value: Val, x: Val, num: ToNumber, b: Backend)
    requires !HasNoFormatter(p)
    ensures b.Holds(op, x, ConvertValue(value, p, op, num)) <==> Compared(op, p, value, x, num, b)
  {
    hide Backend.Holds;
  }

  lemma AlternativesAreTyped(op: Op, p: Property, value: Val, x: Val, num: ToNumber, b: Backend)
    requires p.kind != Datetime && HasNoFormatter(p) && (op == IN || (op == JsonOverlaps && x.Arr?))
    ensures b.Holds(op, x, ConvertValue(value, p, op, num)) <==> Compared(op, p, value, x, num, b)
  {
    hide Backend.Holds, ConvertValue, OneOf, SomeOf;
    ConvertedIsOneOf(p, value, x, num, b);
  }

  lemma OneValueIsShown(op: Op, p: Property, value: Val, x: Val, num: ToNumber, b: Backend)
    requires p.kind != Datetime && HasNoFormatter(p) && !IsArrayOperator(op) && !value.Arr?
    ensures b.Holds(op, x, ConvertValue(value, p, op, num)) <==> Compared(op, p, value, x, num, b)
  {
    hide Backend.Holds;
  }

  lemma OtherListsAreTyped(op: Op, p: Property, value: Val, x: Val, num: ToNumber, b: Backend)
    requires p.kind != Datetime && HasNoFormatter(p) && op != IN && !(op == JsonOverlaps && x.Arr?)
    requires op == JsonOverlaps || value.Arr?
    ensures b.Holds(op, x, ConvertValue(value, p, op, num)) <==> Compared(op, p, value, x, num, b)
  {
    hide Backend.Holds, ShownList, ConvertValue;
    ConvertedIsTyped(p, value, op, num);
  }

  lemma BothMatch(low: Rule, high: Rule, record: Record, b: Backend)
    ensures b.Matches(Group(false, AND, [low, high]), record) <==> b.Matches(low, record) && b.Matches(high, record)
  {
    var rules := [low, high];
    assert rules[0] == low && rules[1] == high;
  }

  // ----- what a field of each kind asks for -----

  /** A field's property has no rules, formatter or operator of its own. */
  predicate Plain(p: Property) {
    p.filterRules.None? && HasNoFormatter(p) && p.op.None? && p.metaOp.None?
  }

  predicate Blank(value: Val) {
    value == Undefined || value == Null || value == Str("") || value == Arr([])
  }

  /** A field whose property has no rules of its own adds nothing exactly when its property is unknown, or its value is
      blank and the property is not searched when empty. */
  lemma LeftOutIff(id: string, value: Val, properties: seq<Property>, legacy: bool, num: ToNumber)
    requires var p := FindProperty(id, properties); p.Some? ==> p.value.filterRules.None?
    ensures var p := FindProperty(id, properties);
            && (AddField((id, value), properties, legacy, num).Skip? <==>
                  p.None? || (Blank(value) && !p.value.enableEmpty))
            && !AddField((id, value), properties, legacy, num).Throw?
  {
  }

  /** One value of any kind but a date or JSON asks for equality with it. */
  lemma OneValueAsksEquality(id: string, value: Val, properties: seq<Property>, legacy: bool, num: ToNumber,
                             record: Record, b: Backend)
    requires FindProperty(id, properties).Some? && !value.Arr? && !Blank(value)
    requires var p := FindProperty(id, properties).value; Plain(p) && p.kind != Datetime && p.kind != Json
    ensures var p, added := FindProperty(id, properties).value, AddField((id, value), properties, legacy, num);
            added.Push? && (b.Matches(added.rule, record) <==> b.same(record(id), Shown(value, p, num)))
  {
    var p := FindProperty(id, properties).value;
    ScalarUnderInIsEquality(p, value, record(id), num, b);
  }

  /** Several values ask for equality with one of them, where the kind has alternatives; texts, numbers, flags and
      certificate authorities are compared with the list as a whole. */
  lemma SeveralValuesAsk(id: string, items: seq<Val>, properties: seq<Property>, legacy: bool, num: ToNumber,
                         record: Record, b: Backend)
    requires FindProperty(id, properties).Some? && items != []
    requires var p := FindProperty(id, properties).value; Plain(p) && p.kind != Datetime && p.kind != Json
    ensures var p, added := FindProperty(id, properties).value, AddField((id, Arr(items)), properties, legacy, num);
            && added.Push?
            && (b.Matches(added.rule, record) <==>
                  if p.kind == String || p.kind == Number || p.kind == Boolean || p.kind == CA then
                    b.same(record(id), ShownList(Arr(items), p, num))
                  else exists i | 0 <= i < |items| :: b.same(record(id), Shown(items[i], p, num)))
  {
    var p := FindProperty(id, properties).value;
    assert AddField((id, Arr(items)), properties, legacy, num)
           == Push(CreateRuleItem(id, Arr(items), p, DefaultOp(p), legacy, num));
    hide AddField, FindProperty, ConvertValue, ShownList, Shown;
    if p.kind == String || p.kind == Number || p.kind == Boolean || p.kind == CA {
      ConvertedIsTyped(p, Arr(items), EQ, num);
    } else {
      AlternativesMean(p, items, record(id), num, b);
    }
  }

  lemma AlternativesMean(p: Property, items: seq<Val>, x: Val, num: ToNumber, b: Backend)
    requires HasNoFormatter(p) && p.kind != Datetime
    ensures b.Holds(IN, x, ConvertValue(Arr(items), p, IN, num)) <==>
              exists i | 0 <= i < |items| :: b.same(x, Shown(items[i], p, num))
  {
    ConvertedIsOneOf(p, Arr(items), x, num, b);
  }

  /** JSON is compared as JSON. A single date is not compared at all: its operator is the one that joins rules. */
  lemma JsonAndSingleDatesAsk(id: string, value: Val, properties: seq<Property>, legacy: bool, num: ToNumber,
                              record: Record, b: Backend)
    requires FindProperty(id, properties).Some? && !Blank(value)
    requires var p := FindProperty(id, properties).value;
             Plain(p) && (p.kind == Json || (p.kind == Datetime && !value.Arr?))
    ensures var p, added := FindProperty(id, properties).value, AddField((id, value), properties, legacy, num);
            && added.Push?
            && (b.Matches(added.rule, record) <==>
                  b.test(if p.kind == Json then JsonEQ else AND, record(id), value))
  {
  }

  /** A configured operator is used whatever the kind, except for dates: the property's own before that of its search
      options. */
  lemma ConfiguredOperatorsDecide(id: string, value: Val, properties: seq<Property>, legacy: bool, num: ToNumber)
    requires Searched((id, value), properties)
    requires var p := FindProperty(id, properties).value; p.filterRules.None? && p.kind != Datetime
    ensures var p, added := FindProperty(id, properties).value, AddField((id, value), properties, legacy, num);
            && added.Push? && added.rule.Leaf? && added.rule.field == id
            && (p.op.Some? ==> added.rule.op == p.op.value)
            && (p.op.None? && p.metaOp.Some? ==> added.rule.op == p.metaOp.value)
  {
  }

  /** Two dates ask for dates from the first to the second. */
  lemma TwoDatesAskTheRange(id: string, low: Val, high: Val, properties: seq<Property>, legacy: bool, num: ToNumber,
                            record: Record, b: Backend)
    requires FindProperty(id, properties).Some? && !low.Arr? && !high.Arr?
    requires var p := FindProperty(id, properties).value; Plain(p) && p.kind == Datetime
    ensures var added := AddField((id, Arr([low, high])), properties, legacy, num);
            added.Push? &&
            (b.Matches(added.rule, record) <==> b.test(GTE, record(id), low) && b.test(LTE, record(id), high))
  {
    RangeRuleMeans(id, Arr([low, high]), FindProperty(id, properties).value, num, record, b);
  }

  /** Of several properties with one id the first counts. */
  lemma {:induction false} TheFirstPropertyCounts(properties: seq<Property>, i: nat)
    requires i < |properties| && forall j | 0 <= j < i :: properties[j].id != properties[i].id
    ensures FindProperty(properties[i].id, properties) == Some(properties[i])
  {
    if i > 0 {
      assert properties[0].id != properties[i].id;
      TheFirstPropertyCounts(properties[1..], i - 1);
    }
  }

  // ----- the whole query -----

  ghost predicate AllTests(condition: Condition, properties: seq<Property>, num: ToNumber, record: Record, b: Backend) {
    forall i | 0 <= i < |condition| && Searched(condition[i], properties) ::
      FieldTest(FindProperty(condition[i].0, properties).value, condition[i], record, num, b)
  }

  ghost predicate AllMatch(rules: seq<Rule>, record: Record, b: Backend) {
    forall i | 0 <= i < |rules| :: b.Matches(rules[i], record)
  }

  lemma {:induction false} RulesMeanTests(condition: Condition, properties: seq<Property>, legacy: bool, num: ToNumber,
                                          record: Record, b: Backend)
    requires Rules(condition, properties, legacy, num).Some?
    ensures AllMatch(Rules(condition, properties, legacy, num).value, record, b)
            <==> AllTests(condition, properties, num, record, b)
  {
    if condition != [] {
      var init, last := condition[..|condition| - 1], condition[|condition| - 1];
      RulesMeanTests(init, properties, legacy, num, record, b);
      if Searched(last, properties) {
        FieldRuleMeans(last, properties, legacy, num, record, b);
      }
      TestsStep(init, last, properties, num, record, b);
      assert condition == init + [last];
      var added := AddField(last, properties, legacy, num);
      if added.Push? {
        MatchStep(Rules(init, properties, legacy, num).value, added.rule, record, b);
      }
    }
  }

  lemma TestsStep(init: Condition, last: (string, Val), properties: seq<Property>, num: ToNumber,
                  record: Record, b: Backend)
    ensures AllTests(init + [last], properties, num, record, b) <==>
            AllTests(init, properties, num, record, b) &&
            (Searched(last, properties) ==> FieldTest(FindProperty(last.0, properties).value, last, record, num, b))
  {
    var all := init + [last];
    assert all[|init|] == last && forall i | 0 <= i < |init| :: all[i] == init[i];
  }

  lemma MatchStep(rules: seq<Rule>, rule: Rule, record: Record, b: Backend)
    ensures AllMatch(rules + [rule], record, b) <==> AllMatch(rules, record, b) && b.Matches(rule, record)
  {
    var all := rules + [rule];
    assert all[|rules|] == rule && forall i | 0 <= i < |rules| :: all[i] == rules[i];
  }

  /** On every record the query answers the conjunction of the intended tests of its known, filled-in fields. */
  lemma QueryMeansConjunction(condition: Condition, properties: seq<Property>, legacy: bool, num: ToNumber,
                              record: Record, b: Backend)
    requires Rules(condition, properties, legacy, num).Some?
    ensures b.Matches(Group(legacy, AND, Rules(condition, properties, legacy, num).value), record)
            <==> AllTests(condition, properties, num, record, b)
  {
    RulesMeanTests(condition, properties, legacy, num, record, b);
  }

  /** The rules stand in the order of their fields: those of the first part of a condition come first. */
  lemma {:induction false} RulesFollowTheFields(c: Condition, d: Condition, properties: seq<Property>, legacy: bool,
                                                num: ToNumber)
    requires Rules(c, properties, legacy, num).Some? && Rules(d, properties, legacy, num).Some?
    ensures Rules(c + d, properties, legacy, num) ==
            Some(Rules(c, properties, legacy, num).value + Rules(d, properties, legacy, num).value)
  {
    if d == [] {
      var rules := Rules(c, properties, legacy, num).value;
      assert c + d == c && rules + [] == rules;
    } else {
      var init, last := d[..|d| - 1], d[|d| - 1];
      RulesFollowTheFields(c, init, properties, legacy, num);
      assert (c + d)[..|c + d| - 1] == c + init && (c + d)[|c + d| - 1] == last;
      var added := AddField(last, properties, legacy, num);
      var first, more := Rules(c, properties, legacy, num).value, Rules(init, properties, legacy, num).value;
      if added.Push? {
        assert (first + more) + [added.rule] == first + (more + [added.rule]);
      }
    }
  }

  /** The order of the fields, and fields given twice, make no difference to what is asked. */
  lemma FieldOrderIsIrrelevant(c: Condition, d: Condition, properties: seq<Property>, legacy: bool, num: ToNumber,
                               record: Record, b: Backend)
    requires Rules(c, properties, legacy, num).Some? && Rules(d, properties, legacy, num).Some?
    requires forall field :: field in c <==> field in d
    ensures b.Matches(Group(legacy, AND, Rules(c, properties, legacy, num).value), record)
            <==> b.Matches(Group(legacy, AND, Rules(d, properties, legacy, num).value), record)
  {
    QueryMeansConjunction(c, properties, legacy, num, record, b);
    QueryMeansConjunction(d, properties, legacy, num, record, b);
    MoreFieldsAskMore(c, d, properties, num, record, b);
    MoreFieldsAskMore(d, c, properties, num, record, b);
  }

  lemma MoreFieldsAskMore(c: Condition, d: Condition, properties: seq<Property>, num: ToNumber, record: Record,
                          b: Backend)
    requires forall field | field in c :: field in d
    ensures AllTests(d, properties, num, record, b) ==> AllTests(c, properties, num, record, b)
  {
    if AllTests(d, properties, num, record, b) {
      forall i | 0 <= i < |c| && Searched(c[i], properties)
        ensures FieldTest(FindProperty(c[i].0, properties).value, c[i], record, num, b)
      {
        var field := c[i];
        assert field in c;
        var j :| 0 <= j < |d| && d[j] == field;
      }
    }
  }

  // ----- when building fails -----

  /** A field whose own rules come back as an object with neither a value nor a list of rules. */
  predicate LacksRules(field: (string, Val), properties: seq<Property>) {
    Searched(field, properties) &&
    var custom := FindProperty(field.0, properties).value.filterRules;
    custom.Some? && custom.value(field.1).Built? && custom.value(field.1).rule.Leaf?
    && (match custom.value(field.1).rule.value
        case Undefined => true
        case Null => true
        case NaN => true
        case Bool(b) => !b
        case Num(n) => n == 0.0
        case Str(s) => s == ""
        case Arr(_) => false)
  }

  /** Building the query fails exactly when some searched field's own rules have neither a value nor a list. */
  lemma {:induction false} FailsExactlyWithoutRules(condition: Condition, properties: seq<Property>, legacy: bool,
                                                    num: ToNumber)
    ensures Rules(condition, properties, legacy, num).None? <==>
              exists field | field in condition :: LacksRules(field, properties)
  {
    if condition != [] {
      var init, last := condition[..|condition| - 1], condition[|condition| - 1];
      FailsExactlyWithoutRules(init, properties, legacy, num);
      assert condition == init + [last];
      assert AddField(last, properties, legacy, num).Throw? <==> LacksRules(last, properties);
    }
  }

  // ----- two places where the code and its comments part -----

  /** Converted as a whole a blank date range is dropped, but the range branch converts the bounds one by one, so a
      blank range still asks for dates on both sides of the empty string. */
  lemma BlankDateRangeStillConstrains(id: string, properties: seq<Property>, legacy: bool, num: ToNumber,
                                      record: Record, b: Backend)
    requires FindProperty(id, properties).Some?
    requires var p := FindProperty(id, properties).value;
             p.kind == Datetime && p.filterRules.None? && HasNoFormatter(p)
    ensures var blank, p := Arr([Str(""), Str("")]), FindProperty(id, properties).value;
            && ConvertValue(blank, p, AND, num) == Undefined
            && var added := AddField((id, blank), properties, legacy, num);
               added.Push? &&
               (b.Matches(added.rule, record)
                <==> b.test(GTE, record(id), Str("")) && b.test(LTE, record(id), Str("")))
  {
    RangeRuleMeans(id, Arr([Str(""), Str("")]), FindProperty(id, properties).value, num, record, b);
  }

  /** What a field adds lets every record through, however the server compares. */
  ghost predicate AsksNothing(added: Added) {
    forall record: Record, b: Backend :: added.Push? ==> b.Matches(added.rule, record)
  }

  /** Of the blank date ranges exactly the empty list asks for nothing, and only of a property that is not searched
      when empty: every other blank range becomes a rule that some records fail. */
  lemma BlankDateRangeAsksNothingIff(id: string, items: seq<Val>, properties: seq<Property>, legacy: bool,
                                     num: ToNumber)
    requires FindProperty(id, properties).Some? && AllFalsy(items)
    requires var p := FindProperty(id, properties).value; p.kind == Datetime && p.filterRules.None?
    ensures var added := AddField((id, Arr(items)), properties, legacy, num);
            && (AsksNothing(added) <==> items == [] && !FindProperty(id, properties).value.enableEmpty)
            && (AsksNothing(added) <==> added.Skip?)
  {
    hide ConvertValue, FindProperty;
    var added := AddField((id, Arr(items)), properties, legacy, num);
    if added.Push? {
      var record: Record := _ => Undefined;
      var b := Backend((x, y) => false, (op, x, v) => false);
      NothingPasses(added.rule.rules[0], added.rule.rules[1], record, b);
    }
  }

  lemma NothingPasses(low: Rule, high: Rule, record: Record, b: Backend)
    requires low.Leaf? && low.op == GTE && !b.test(GTE, record(low.field), low.value)
    ensures !b.Matches(Group(false, AND, [low, high]), record)
  {
    BothMatch(low, high, record, b);
  }

  predicate DateRange(field: (string, Val), properties: seq<Property>) {
    Searched(field, properties) &&
    var p := FindProperty(field.0, properties).value;
    p.filterRules.None? && p.kind == Datetime && field.1.Arr?
  }

  predicate OwnRuleModern(field: (string, Val), properties: seq<Property>) {
    Searched(field, properties) &&
    var p := FindProperty(field.0, properties).value;
    p.filterRules.Some? && AddField(field, properties, true, x => x).Push? && !p.filterRules.value(field.1).rule.legacy
  }

  /** An old-style query is old-style throughout exactly when it has no date range and no modern rule of a field's own:
      the style is not passed on to date ranges. */
  lemma {:induction false} LegacyStyleIff(condition: Condition, properties: seq<Property>, num: ToNumber)
    requires Rules(condition, properties, true, num).Some?
    ensures (forall rule | rule in Rules(condition, properties, true, num).value :: rule.legacy)
       <==> (forall field | field in condition :: !DateRange(field, properties) && !OwnRuleModern(field, properties))
  {
    if condition != [] {
      var init, last := condition[..|condition| - 1], condition[|condition| - 1];
      LegacyStyleIff(init, properties, num);
      assert condition == init + [last];
      var added := AddField(last, properties, true, num);
      assert added.Push? && !added.rule.legacy <==> DateRange(last, properties) || OwnRuleModern(last, properties);
    }
  }
}
