/** `GenericDB.builtInRules` and `mergeRules`: a collection's schema. */
module Schema {
  import opened Wrappers
  import opened Props
  import opened Json

  /** The field types a rule can name; `TOther` is a name that `builtInRules` only finds on `Object.prototype`. */
  datatype FieldType = TString | TNumber | TBoolean | TOther(name: string)

  /** `length: { min, max }`; a bound left out constrains nothing. */
  datatype Bounds = Bounds(min: Option<int>, max: Option<int>)

  /** A field's rule as the schema's author writes it; `None` is an attribute left out. */
  datatype FieldSpec = FieldSpec(typeName: Option<string>, required: bool, default: Option<Value>,
                                 regex: Option<string>, length: Option<Bounds>, unique: bool)

  /** A merged rule: the built-in rule of its type overridden by the author's attributes. */
  datatype Rule = Rule(kind: FieldType, required: bool, default: Option<Value>,
                       regex: Option<string>, length: Bounds, unique: bool)

  /** The most fields a schema may have (error `E016`). */
  const MaxFields := 10

  /**
   * `GenericDB.builtInRules` as a property read `builtInRules[type]` sees it:
   * the three own rules, then the names every object inherits from
   * `Object.prototype`, whose values are truthy but add no attributes when spread.
   */
  const BuiltInRules: Props<Rule> :=
    [("string", Rule(TString, false, Some(Str("")), None, Bounds(Some(0), Some(255)), false)),
     ("number", Rule(TNumber, false, Some(Num(0)), None, Bounds(None, None), false)),
     ("boolean", Rule(TBoolean, false, Some(Bool(false)), None, Bounds(None, None), false)),
     Inherited("constructor"), Inherited("hasOwnProperty"), Inherited("isPrototypeOf"),
     Inherited("propertyIsEnumerable"), Inherited("toLocaleString"), Inherited("toString"),
     Inherited("valueOf"), Inherited("__proto__"), Inherited("__defineGetter__"),
     Inherited("__defineSetter__"), Inherited("__lookupGetter__"), Inherited("__lookupSetter__")]

  /** An inherited name as a rule: the name is the type, and only the author's attributes count. */
  function Inherited(name: string): (string, Rule) {
    (name, Rule(TOther(name), false, None, None, Bounds(None, None), false))
  }

  /** The type a field spec names: `'string'` when it names none. */
  function TypeNameOf(s: FieldSpec): string {
    s.typeName.GetOr("string")
  }

  /** `{ ...builtInRule, ...fieldConfig }`: every attribute the author gave wins. */
  function Merge(b: Rule, s: FieldSpec): (r: Rule)
    ensures r.kind == b.kind && r.required == s.required && r.unique == s.unique
    ensures r.default == if s.default.Some? then s.default else b.default
    ensures r.regex == if s.regex.Some? then s.regex else b.regex
    ensures r.length == if s.length.Some? then s.length.value else b.length
  {
    Rule(b.kind, s.required,
         if s.default.Some? then s.default else b.default,
         if s.regex.Some? then s.regex else b.regex,
         if s.length.Some? then s.length.value else b.length,
         s.unique)
  }

  /** The value of one attribute of a rule object. */
  datatype Attr = AFlag(b: bool) | ADefault(v: Value) | APattern(p: string) | ALength(bounds: Bounds)

  /** An object literal holding, in order, each attribute whose value is given. */
  function Build(slots: seq<(string, Option<Attr>)>): Props<Attr>
    decreases |slots|
  {
    if slots == [] then []
    else (if slots[0].1.Some? then [(slots[0].0, slots[0].1.value)] else []) + Build(slots[1..])
  }

  /** No two slots name the same attribute. */
  predicate DistinctSlots(slots: seq<(string, Option<Attr>)>) {
    forall a, b :: 0 <= a < b < |slots| ==> slots[a].0 != slots[b].0
  }

  /** An attribute no slot names is absent from the built object. */
  lemma {:induction false} BuildOmits(slots: seq<(string, Option<Attr>)>, k: string)
    requires forall j :: 0 <= j < |slots| ==> slots[j].0 != k
    ensures !Has(Build(slots), k)
    decreases |slots|
  {
    if slots != [] {
      var head: Props<Attr> := if slots[0].1.Some? then [(slots[0].0, slots[0].1.value)] else [];
      var rest := Build(slots[1..]);
      BuildOmits(slots[1..], k);
      assert Build(slots) == head + rest;
      forall p | 0 <= p < |head + rest|
        ensures (head + rest)[p].0 != k
      {
        if p >= |head| {
          assert (head + rest)[p] == rest[p - |head|];
        }
      }
    }
  }

  /** The first slot's attribute is named by no later slot. */
  lemma RestOmitsFirst(slots: seq<(string, Option<Attr>)>)
    requires DistinctSlots(slots) && slots != []
    ensures !Has(Build(slots[1..]), slots[0].0)
  {
    forall j | 0 <= j < |slots[1..]|
      ensures slots[1..][j].0 != slots[0].0
    {
      assert slots[1..][j] == slots[j + 1];
    }
    BuildOmits(slots[1..], slots[0].0);
  }

  /** Each attribute of the built object reads as its slot's value. */
  lemma {:induction false} BuildLookup(slots: seq<(string, Option<Attr>)>, i: nat)
    requires DistinctSlots(slots) && i < |slots|
    ensures Lookup(Build(slots), slots[i].0) == slots[i].1
    decreases |slots|
  {
    var k := slots[i].0;
    var head: Props<Attr> := if slots[0].1.Some? then [(slots[0].0, slots[0].1.value)] else [];
    var rest := Build(slots[1..]);
    var o := Build(slots);
    assert o == head + rest;
    if i == 0 {
      RestOmitsFirst(slots);
      if head == [] {
        assert o == rest;
      } else {
        assert IndexOf(o, k) == Some(0);
      }
    } else {
      assert DistinctSlots(slots[1..]);
      assert slots[1..][i - 1] == slots[i];
      BuildLookup(slots[1..], i - 1);
      if head != [] {
        assert head[0].0 != k;
        assert o[1..] == rest;
        assert IndexOf(o, k) == (match IndexOf(rest, k) case None => None case Some(j) => Some(j + 1));
      } else {
        assert o == rest;
      }
    }
  }

  /** The keys of the built object are distinct. */
  lemma {:induction false} BuildDistinct(slots: seq<(string, Option<Attr>)>)
    requires DistinctSlots(slots)
    ensures DistinctKeys(Build(slots))
    decreases |slots|
  {
    if slots != [] {
      var head: Props<Attr> := if slots[0].1.Some? then [(slots[0].0, slots[0].1.value)] else [];
      var rest := Build(slots[1..]);
      assert DistinctSlots(slots[1..]);
      BuildDistinct(slots[1..]);
      RestOmitsFirst(slots);
      assert Build(slots) == head + rest;
    }
  }

  /** The attributes of a rule object, in the order the built-in rules list them. */
  function Slots(required: bool, default: Option<Value>, regex: Option<string>, length: Option<Bounds>,
                 unique: bool): (slots: seq<(string, Option<Attr>)>)
    ensures DistinctSlots(slots)
    ensures |slots| == 5 && slots[0].0 == "required" && slots[1].0 == "default" && slots[2].0 == "regex"
    ensures slots[3].0 == "length" && slots[4].0 == "unique"
  {
    [("required", if required then Some(AFlag(true)) else None),
     ("default", if default.Some? then Some(ADefault(default.value)) else None),
     ("regex", if regex.Some? then Some(APattern(regex.value)) else None),
     ("length", if length.Some? then Some(ALength(length.value)) else None),
     ("unique", if unique then Some(AFlag(true)) else None)]
  }

  /** A merged rule as an object; an unbounded length is one the rule leaves out. */
  function RuleSlots(b: Rule): seq<(string, Option<Attr>)> {
    Slots(b.required, b.default, b.regex, if b.length == Bounds(None, None) then None else Some(b.length), b.unique)
  }

  /** A field spec as the object the author writes: only the attributes given. */
  function SpecSlots(s: FieldSpec): seq<(string, Option<Attr>)> {
    Slots(s.required, s.default, s.regex, s.length, s.unique)
  }

  /** The rule `validate` reads from a rule object: `required` and `unique` truthy, the other attributes when present. */
  function ReadRule(kind: FieldType, o: Props<Attr>): Rule {
    var d: Option<Attr> := Lookup(o, "default");
    var p: Option<Attr> := Lookup(o, "regex");
    var l: Option<Attr> := Lookup(o, "length");
    Rule(kind,
         Lookup(o, "required") == Some(AFlag(true)),
         if d.Some? && d.value.ADefault? then Some(d.value.v) else None,
         if p.Some? && p.value.APattern? then Some(p.value.p) else None,
         if l.Some? && l.value.ALength? then l.value.bounds else Bounds(None, None),
         Lookup(o, "unique") == Some(AFlag(true)))
  }

  /**
   * For a rule from the built-in table, `Merge` is the spread `{ ...builtInRule,
   * ...fieldConfig }` read as a rule: the author's attributes override, and
   * since a built-in rule is never required or unique, those two come from the
   * author alone.
   */
  lemma MergeIsSpread(b: Rule, s: FieldSpec)
    requires StockRule(b)
    ensures Merge(b, s) == ReadRule(b.kind, Spread(Build(RuleSlots(b)), Build(SpecSlots(s))))
  {
    var bs, ss := RuleSlots(b), SpecSlots(s);
    BuildDistinct(ss);
    forall i | 0 <= i < 5
      ensures Lookup(Spread(Build(bs), Build(ss)), ss[i].0) == if ss[i].1.Some? then ss[i].1 else bs[i].1
    {
      BuildLookup(bs, i);
      BuildLookup(ss, i);
      SpreadLookup(Build(bs), Build(ss), ss[i].0);
    }
  }

  /** `mergeRules`'s result: the merged schema, or the error it throws for the first field of unknown type. */
  datatype MergeResult = Merged(rules: Props<Rule>) | InvalidType(field: string, typeName: string)

  /** `builtInRules[name]`: the first rule listed under `name`, `None` being `undefined`. */
  function RuleFor(builtIns: Props<Rule>, name: string): Option<Rule> {
    if builtIns == [] then None
    else if builtIns[0].0 == name then Some(builtIns[0].1)
    else RuleFor(builtIns[1..], name)
  }

  /** `builtInRules[type]` is truthy for the type `s` names. */
  predicate KnownType(builtIns: Props<Rule>, s: FieldSpec) {
    RuleFor(builtIns, TypeNameOf(s)).Some?
  }

  /** The rule `mergeRules` gives a field whose type `builtIns` knows. */
  function MergedRule(builtIns: Props<Rule>, s: FieldSpec): Rule
    requires KnownType(builtIns, s)
  {
    Merge(RuleFor(builtIns, TypeNameOf(s)).value, s)
  }

  /**
   * `mergeRules(schema)` against the table `builtIns` (which is `BuiltInRules`).
   * A schema is an object, so its field names are distinct and each assignment
   * `mergedSchema[field] = …` adds a new property after the previous ones.
   */
  function MergeRules(builtIns: Props<Rule>, schema: Props<FieldSpec>): (r: MergeResult)
    requires DistinctKeys(schema)
    ensures r.Merged? <==> forall i :: 0 <= i < |schema| ==> KnownType(builtIns, schema[i].1)
    ensures r.InvalidType? ==>
      exists i :: 0 <= i < |schema| && schema[i].0 == r.field && !KnownType(builtIns, schema[i].1) &&
        r.typeName == TypeNameOf(schema[i].1) && forall j :: 0 <= j < i ==> KnownType(builtIns, schema[j].1)
    ensures r.Merged? ==> |r.rules| == |schema| && Keys(r.rules) == Keys(schema) && DistinctKeys(r.rules)
    ensures r.Merged? ==> forall i :: 0 <= i < |schema| ==> r.rules[i].1 == MergedRule(builtIns, schema[i].1)
  {
    var r := MergeFrom(builtIns, schema, 0, []);
    assert r.Merged? ==> Keys(r.rules) == Keys(schema);
    r
  }

  /** The `for … in` loop of `mergeRules` from field `i` on, `acc` holding the rules merged so far. */
  function MergeFrom(builtIns: Props<Rule>, schema: Props<FieldSpec>, i: nat, acc: Props<Rule>): (r: MergeResult)
    requires i <= |schema| && |acc| == i
    ensures r.Merged? <==> forall j :: i <= j < |schema| ==> KnownType(builtIns, schema[j].1)
    ensures r.InvalidType? ==>
      exists j :: i <= j < |schema| && schema[j].0 == r.field && !KnownType(builtIns, schema[j].1) &&
        r.typeName == TypeNameOf(schema[j].1) && forall l :: i <= l < j ==> KnownType(builtIns, schema[l].1)
    ensures r.Merged? ==> |r.rules| == |schema| && r.rules[..i] == acc
    ensures r.Merged? ==> forall j :: i <= j < |schema| ==>
      r.rules[j] == (schema[j].0, MergedRule(builtIns, schema[j].1))
    decreases |schema| - i
  {
    if i == |schema| then Merged(acc)
    else
      var (f, s) := schema[i];
      if !KnownType(builtIns, s) then InvalidType(f, TypeNameOf(s))
      else
        var r := MergeFrom(builtIns, schema, i + 1, acc + [(f, MergedRule(builtIns, s))]);
        assert r.Merged? ==> r.rules[..i] == r.rules[..i + 1][..i];
        r
  }

  // ---------------------------------------------------------------- lemmas

  /** A rule as the built-in table lists it: optional, not unique, no pattern, and the default of its kind. */
  predicate StockRule(b: Rule) {
    && !b.required && !b.unique && b.regex.None?
    && b.default == match b.kind
                    case TString => Some(Str(""))
                    case TNumber => Some(Num(0))
                    case TBoolean => Some(Bool(false))
                    case TOther(_) => None
  }

  /** Whatever a property read finds in a table of stock rules is a stock rule. */
  lemma {:induction false} RuleForStock(table: Props<Rule>, name: string)
    requires forall i :: 0 <= i < |table| ==> StockRule(table[i].1)
    ensures RuleFor(table, name).Some? ==> StockRule(RuleFor(table, name).value)
  {
    if table != [] && table[0].0 != name {
      RuleForStock(table[1..], name);
    }
  }

  /** Every rule `builtInRules[type]` finds is a stock rule: only the author's attributes make a field required, unique or patterned. */
  lemma BuiltInDefaults(name: string)
    ensures RuleFor(BuiltInRules, name).Some? ==> StockRule(RuleFor(BuiltInRules, name).value)
  {
    assert forall i :: 0 <= i < |BuiltInRules| ==> StockRule(BuiltInRules[i].1);
    RuleForStock(BuiltInRules, name);
  }

  /**
   * After merging, a field that names no type is a string field, and a field
   * of a built-in type always has a default: the author's, or else `''`, `0`
   * or `false`.
   */
  lemma MergedDefaults(schema: Props<FieldSpec>, i: nat)
    requires DistinctKeys(schema) && i < |schema|
    requires MergeRules(BuiltInRules, schema).Merged?
    ensures var r := MergeRules(BuiltInRules, schema).rules[i].1;
      && (schema[i].1.typeName.None? ==> r.kind == TString)
      && (!r.kind.TOther? ==> r.default.Some?)
      && (schema[i].1.default.None? ==>
            r.default == match r.kind
                         case TString => Some(Str(""))
                         case TNumber => Some(Num(0))
                         case TBoolean => Some(Bool(false))
                         case TOther(_) => None)
  {
    BuiltInDefaults(TypeNameOf(schema[i].1));
    if schema[i].1.typeName.None? {
      assert RuleFor(BuiltInRules, "string") == Some(BuiltInRules[0].1);
    }
  }
}
