/** From search conditions to query trees, and what the trees ask for (front/src/utils/search.ts). */
module SearchQuery {
  import opened Collections

  /** The values a condition, a rule or a record can hold. */
  datatype Val = Undefined | Null | Bool(b: bool) | Num(n: real) | NaN | Str(s: string) | Arr(items: seq<Val>)

  datatype Op = EQ | NEQ | GT | GTE | LT | LTE | IN | NIN | CS | CIS | JsonEQ | JsonNEQ | JsonOverlaps | JsonContains
              | AND | OR

  /** Rules are written with the key `op`, or `operator` in the older style. */
  datatype Rule = Leaf(legacy: bool, field: string, op: Op, value: Val)
                | Group(legacy: bool, op: Op, rules: seq<Rule>)

  datatype Kind = String | Number | Enum | ListOf | Datetime | User | Account | ArrayOf | Boolean | Cert | CA | Region
                | Business | Json | CloudArea

  /** What a property's own `filterRules` may return. */
  datatype Custom = Nothing | Built(rule: Rule)

  datatype Property = Property(id: string, kind: Kind, op: Option<Op>, metaOp: Option<Op>,
                               format: Option<Val -> Val>, metaFormat: Option<Val -> Val>,
                               enableEmpty: bool, filterRules: Option<Val -> Custom>)

  type Condition = seq<(string, Val)>

  /** The runtime's `Number(value)`. */
  type ToNumber = Val -> Val

  predicate Truthy(v: Val) {
    match v
    case Undefined => false
    case Null => false
    case NaN => false
    case Bool(b) => b
    case Num(n) => n != 0.0
    case Str(s) => s != ""
    case Arr(_) => true
  }

  predicate IsValueEmpty(v: Val) {
    v == Null || v == Undefined || v == Str("") || v == Arr([])
  }

  function FindProperty(id: string, properties: seq<Property>): (p: Option<Property>)
    ensures p.Some? ==> p.value.id == id
    ensures p.None? <==> forall i | 0 <= i < |properties| :: properties[i].id != id
  {
    if properties == [] then None
    else if properties[0].id == id then Some(properties[0])
    else FindProperty(id, properties[1..])
  }

  function OrElse<T>(a: Option<T>, b: Option<T>): Option<T> {
    if a.Some? then a else b
  }

  /** The operator a property is searched with. */
  function DefaultOp(p: Property): Op {
    var searchOp := OrElse(p.op, p.metaOp);
    if p.kind == Datetime then AND
    else if searchOp.Some? then searchOp.value
    else match p.kind
      case String => EQ
      case Number => EQ
      case Boolean => EQ
      case CA => EQ
      case Json => JsonEQ
      case _ => IN
  }

  predicate IsArrayOperator(op: Op) {
    op == IN || op == JsonOverlaps
  }

  function MapItems(items: seq<Val>, f: Val -> Val): (r: seq<Val>)
    ensures |r| == |items| && forall i | 0 <= i < |items| :: r[i] == f(items[i])
  {
    seq(|items|, i requires 0 <= i < |items| => f(items[i]))
  }

  predicate AllFalsy(items: seq<Val>) {
    forall i | 0 <= i < |items| :: !Truthy(items[i])
  }

  function ConvertValue(value: Val, p: Property, op: Op, num: ToNumber): Val {
    var formatter := OrElse(p.format, p.metaFormat);
    if formatter.Some? then formatter.value(value)
    else if p.kind == Number || p.kind == Business then
      if value.Arr? then Arr(MapItems(value.items, num))
      else if IsArrayOperator(op) then Arr([num(value)])
      else num(value)
    else if p.kind == Datetime && value.Arr? && AllFalsy(value.items) then Undefined
    else if IsArrayOperator(op) && !value.Arr? then Arr([value])
    else value
  }

  function CreateRuleItem(field: string, value: Val, p: Property, op: Op, legacy: bool, num: ToNumber): Rule {
    Leaf(legacy, field, op, ConvertValue(value, p, op, num))
  }

  /** `items[i]`, which is undefined past the end. */
  function At(items: seq<Val>, i: nat): Val {
    if i < |items| then items[i] else Undefined
  }

  /** What one field adds to the query: nothing, a rule, or the error of asking an object for rules it lacks. */
  datatype Added = Skip | Push(rule: Rule) | Throw

  predicate Searched(field: (string, Val), properties: seq<Property>) {
    var p := FindProperty(field.0, properties);
    p.Some? && (p.value.enableEmpty || !IsValueEmpty(field.1))
  }

  function AddCustom(c: Custom): Added {
    match c
    case Nothing => Skip
    case Built(Leaf(_, _, _, value)) => if Truthy(value) then Push(c.rule) else Throw
    case Built(Group(_, _, rules)) => if |rules| > 0 then Push(c.rule) else Skip
  }

  function AddField(field: (string, Val), properties: seq<Property>, legacy: bool, num: ToNumber): Added {
    if !Searched(field, properties) then Skip
    else
      var p, value := FindProperty(field.0, properties).value, field.1;
      if p.filterRules.Some? then AddCustom(p.filterRules.value(value))
      else if p.kind == Datetime && value.Arr? then
        Push(Group(false, AND, [CreateRuleItem(field.0, At(value.items, 0), p, GTE, false, num),
                                CreateRuleItem(field.0, At(value.items, 1), p, LTE, false, num)]))
      else Push(CreateRuleItem(field.0, value, p, DefaultOp(p), legacy, num))
  }

  datatype Query = Query(rule: Rule) | TypeError

  function Rules(condition: Condition, properties: seq<Property>, legacy: bool, num: ToNumber): Option<seq<Rule>> {
    if condition == [] then Some([])
    else
      var init := Rules(condition[..|condition| - 1], properties, legacy, num);
      var last := AddField(condition[|condition| - 1], properties, legacy, num);
      if init.None? || last.Throw? then None
      else Some(if last.Push? then init.value + [last.rule] else init.value)
  }

  lemma {:induction false} ErrorsStay(condition: Condition, n: nat, properties: seq<Property>, legacy: bool,
                                      num: ToNumber)
    requires n <= |condition| && Rules(condition[..n], properties, legacy, num).None?
    ensures Rules(condition, properties, legacy, num).None?
  {
    if n == |condition| {
      assert condition[..n] == condition;
    } else {
      var init := condition[..|condition| - 1];
      assert init[..n] == condition[..n];
      ErrorsStay(init, n, properties, legacy, num);
    }
  }

  method TransformSimpleCondition(condition: Condition, properties: seq<Property>, legacy: bool, num: ToNumber)
    returns (query: Query)
    ensures var rules := Rules(condition, properties, legacy, num);
            query == if rules.None? then TypeError else Query(Group(legacy, AND, rules.value))
  {
    var pushed := [];
    for i := 0 to |condition|
      invariant Rules(condition[..i], properties, legacy, num) == Some(pushed)
    {
      assert condition[..i + 1][..i] == condition[..i];
      var (id, value) := condition[i];
      var found := FindProperty(id, properties);
      if found.None? || (!found.value.enableEmpty && IsValueEmpty(value)) {
        continue;
      }
      var p := found.value;
      if p.filterRules.Some? {
        match p.filterRules.value(value) {
          case Nothing =>
          case Built(Leaf(l, f, o, v)) =>
            if !Truthy(v) {
              ErrorsStay(condition, i + 1, properties, legacy, num);
              return TypeError;
            }
            pushed := pushed + [Leaf(l, f, o, v)];
          case Built(Group(l, o, rules)) =>
            if |rules| > 0 {
              pushed := pushed + [Group(l, o, rules)];
            }
        }
        continue;
      }
      if p.kind == Datetime && value.Arr? {
        pushed := pushed + [Group(false, AND, [CreateRuleItem(id, At(value.items, 0), p, GTE, false, num),
                                               CreateRuleItem(id, At(value.items, 1), p, LTE, false, num)])];
        continue;
      }
      pushed := pushed + [CreateRuleItem(id, value, p, DefaultOp(p), legacy, num)];
    }
    assert condition[..|condition|] == condition;
    return Query(Group(legacy, AND, pushed));
  }
}
