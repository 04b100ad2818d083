/** `GenericDB.validate`: checking a record against the merged schema. */
module Validation {
  import opened Wrappers
  import opened Props
  import opened Text
  import opened Json
  import opened Schema

  /** `new RegExp(pattern).test(s)`, foreign to the model. */
  type Matcher = (string, string) -> bool

  /** `validate`'s answer: `{ valid: true, data }`, or `{ valid: false, message: 'E015' }`. */
  datatype Validated = Valid(data: Fields) | Invalid

  /** `min <= len <= max` for the bounds that are given (a comparison with `undefined` is false). */
  predicate InBounds(len: nat, b: Bounds) {
    !(b.min.Some? && len < b.min.value) && !(b.max.Some? && len > b.max.value)
  }

  /** A pattern is applied only when it is truthy: given and not the empty string. */
  predicate HasPattern(rule: Rule) {
    rule.regex.Some? && rule.regex.value != ""
  }

  function Abs(n: int): nat {
    if n < 0 then -n else n
  }

  /** The `switch (fieldType)` of `validate`: the value's type and the type's own limits. */
  predicate TypeOk(rule: Rule, v: Value, re: Matcher) {
    match rule.kind
    case TString =>
      && v.Str?
      && (v.s != "" && HasPattern(rule) ==> re(rule.regex.value, v.s))
      && InBounds(|v.s|, rule.length)
    case TNumber => v.Num? && |NatToString(Abs(v.n))| <= 64
    case TBoolean => v.Bool?
    case TOther(_) => false
  }

  /** `allRecords.some(record => record[field] === value && record.id !== id)`. */
  predicate Duplicate(all: seq<Value>, field: string, v: Value, id: Option<Value>) {
    exists j :: 0 <= j < |all| && Prop(all[j], field) == Some(v) && Prop(all[j], "id") != id
  }

  /** `validate(data, allRecords)` with the merged schema `rules`. */
  function Validate(rules: Props<Rule>, data: Fields, all: seq<Value>, re: Matcher): (r: Validated)
    ensures r.Valid? ==> KeyCount(data) <= MaxFields
    ensures r.Valid? ==> forall k :: Has(data, k) ==> Lookup(r.data, k) == Lookup(data, k)
  {
    if KeyCount(data) > MaxFields then Invalid
    else
      CheckFromKeeps(rules, 0, data, all, re);
      CheckFrom(rules, 0, data, all, re)
  }

  /** The loop over the schema's fields from field `i` on, `nd` being `newData` so far. */
  function CheckFrom(rules: Props<Rule>, i: nat, nd: Fields, all: seq<Value>, re: Matcher): Validated
    requires i <= |rules|
    decreases |rules| - i
  {
    if i == |rules| then Valid(nd)
    else
      var (field, rule) := rules[i];
      var value := Lookup(nd, field);
      if value.None? && rule.default.None? && rule.required then Invalid
      else
        var nd' := if value.None? && rule.default.Some? then nd + [(field, rule.default.value)] else nd;
        var value' := if value.None? then rule.default else value;
        if !rule.required && (value'.None? || value' == Some(Null) || value' == Some(Str(""))) then
          CheckFrom(rules, i + 1, nd', all, re)
        else if rule.required && (value'.None? || value' == Some(Null)) then Invalid
        else if !TypeOk(rule, value'.value, re) then Invalid
        else if rule.unique && Duplicate(all, field, value'.value, Lookup(nd', "id")) then Invalid
        else CheckFrom(rules, i + 1, nd', all, re)
  }

  /**
   * `validate(data, allRecords)` when `allRecords` is not an array: the loop
   * runs as usual until it reaches a unique field with a value to check, where
   * `allRecords.some` throws (`None`).  Until then the records play no part,
   * so a verdict reached is the one any records would give.
   */
  function CheckUnlisted(rules: Props<Rule>, i: nat, nd: Fields, re: Matcher): (r: Option<Validated>)
    requires i <= |rules|
    ensures forall all :: r.Some? ==> CheckFrom(rules, i, nd, all, re) == r.value
    ensures r.None? ==> exists j :: i <= j < |rules| && rules[j].1.unique
    decreases |rules| - i
  {
    if i == |rules| then Some(Valid(nd))
    else
      var (field, rule) := rules[i];
      var value := Lookup(nd, field);
      if value.None? && rule.default.None? && rule.required then Some(Invalid)
      else
        var nd' := if value.None? && rule.default.Some? then nd + [(field, rule.default.value)] else nd;
        var value' := if value.None? then rule.default else value;
        if !rule.required && (value'.None? || value' == Some(Null) || value' == Some(Str(""))) then
          CheckUnlisted(rules, i + 1, nd', re)
        else if rule.required && (value'.None? || value' == Some(Null)) then Some(Invalid)
        else if !TypeOk(rule, value'.value, re) then Some(Invalid)
        else if rule.unique then None
        else CheckUnlisted(rules, i + 1, nd', re)
  }

  /** `validate` against records that are not an array: `None` is the exception. */
  function ValidateUnlisted(rules: Props<Rule>, data: Fields, re: Matcher): (r: Option<Validated>)
    ensures forall all :: r.Some? ==> Validate(rules, data, all, re) == r.value
    ensures r.None? ==> KeyCount(data) <= MaxFields && exists j :: 0 <= j < |rules| && rules[j].1.unique
  {
    if KeyCount(data) > MaxFields then Some(Invalid) else CheckUnlisted(rules, 0, data, re)
  }

  // ---------------------------------------------------------------- specification

  /** `newData` after the first `n` fields: each absent field that has a default gets it, appended. */
  function FilledUpTo(rules: Props<Rule>, n: nat, data: Fields): Fields
    requires n <= |rules|
  {
    if n == 0 then data
    else
      WithDefault(rules[n - 1], FilledUpTo(rules, n - 1, data))
  }

  /** `newData[field] = fieldConfig.default` for a field the data lacks and whose rule has a default. */
  function WithDefault(entry: (string, Rule), nd: Fields): Fields {
    var (field, rule) := entry;
    if !Has(nd, field) && rule.default.Some? then nd + [(field, rule.default.value)] else nd
  }

  /** The record a successful validation returns: the data with the schema's defaults filled in. */
  function Filled(rules: Props<Rule>, data: Fields): Fields {
    FilledUpTo(rules, |rules|, data)
  }

  /**
   * When a field's value passes: an optional field may be missing, `null` or
   * `''`; any other value must not be `null`, must have the rule's type and
   * limits and, for a unique field, must not be another record's.
   */
  predicate Accepted(rule: Rule, field: string, v: Option<Value>, id: Option<Value>, all: seq<Value>, re: Matcher) {
    || (!rule.required && (v.None? || v == Some(Null) || v == Some(Str(""))))
    || (v.Some? && v.value != Null && TypeOk(rule, v.value, re) && !(rule.unique && Duplicate(all, field, v.value, id)))
  }

  /** Field `i` passes, read in `newData` as it stands once its default is in place. */
  predicate FieldAccepted(rules: Props<Rule>, i: nat, data: Fields, all: seq<Value>, re: Matcher)
    requires i < |rules|
  {
    var nd := FilledUpTo(rules, i + 1, data);
    Accepted(rules[i].1, rules[i].0, Lookup(nd, rules[i].0), Lookup(nd, "id"), all, re)
  }

  // ---------------------------------------------------------------- lemmas

  /**
   * Validation succeeds exactly when the data has at most ten keys and every
   * field is accepted, and the record it returns is the data with the
   * defaults filled in.
   */
  lemma ValidateMeaning(rules: Props<Rule>, data: Fields, all: seq<Value>, re: Matcher)
    ensures Validate(rules, data, all, re) ==
      if KeyCount(data) > MaxFields then Invalid
      else if false !in Verdicts(rules, data, all, re) then Valid(Filled(rules, data))
      else Invalid
  {
    if KeyCount(data) <= MaxFields {
      var verdicts := Verdicts(rules, data, all, re);
      forall j | 0 <= j < |rules|
        ensures StepHolds(rules, j, data, all, re, verdicts[j])
      {
        FilledStep(rules, j, data, all, re);
      }
      CheckFromMeaning(rules, 0, data, all, re, verdicts);
      AllFromAll(verdicts, 0);
      assert verdicts[0..] == verdicts;
    }
  }

  /** The verdict on each field, in schema order: `true` where `FieldAccepted` holds. */
  function Verdicts(rules: Props<Rule>, data: Fields, all: seq<Value>, re: Matcher): seq<bool> {
    seq(|rules|, j requires 0 <= j < |rules| => FieldAccepted(rules, j, data, all, re))
  }

  /** Every verdict from the `i`-th on is a pass. */
  predicate AllFrom(flags: seq<bool>, i: nat)
    requires i <= |flags|
    decreases |flags| - i
  {
    i == |flags| || (flags[i] && AllFrom(flags, i + 1))
  }

  lemma {:induction false} AllFromAll(flags: seq<bool>, i: nat)
    requires i <= |flags|
    ensures AllFrom(flags, i) <==> false !in flags[i..]
    decreases |flags| - i
  {
    if i < |flags| {
      AllFromAll(flags, i + 1);
      assert flags[i..] == [flags[i]] + flags[i + 1..];
    }
  }

  /** Turn `j` of the loop passes `newData` on to turn `j + 1` exactly when `pass`. */
  predicate StepHolds(rules: Props<Rule>, j: nat, data: Fields, all: seq<Value>, re: Matcher, pass: bool)
    requires j < |rules|
  {
    CheckFrom(rules, j, FilledUpTo(rules, j, data), all, re) ==
      if pass then CheckFrom(rules, j + 1, FilledUpTo(rules, j + 1, data), all, re) else Invalid
  }

  /** The field-by-field steps of the loop chain up into its final answer. */
  lemma {:induction false} CheckFromMeaning(rules: Props<Rule>, i: nat, data: Fields, all: seq<Value>, re: Matcher,
                                            verdicts: seq<bool>)
    requires i <= |rules| == |verdicts|
    requires forall j :: i <= j < |rules| ==> StepHolds(rules, j, data, all, re, verdicts[j])
    ensures CheckFrom(rules, i, FilledUpTo(rules, i, data), all, re) ==
      if AllFrom(verdicts, i) then Valid(Filled(rules, data)) else Invalid
    decreases |rules| - i
  {
    if i < |rules| {
      CheckFromMeaning(rules, i + 1, data, all, re, verdicts);
    }
  }

  /** One turn of the loop, with `newData` as the defaults of the earlier fields leave it. */
  lemma FilledStep(rules: Props<Rule>, i: nat, data: Fields, all: seq<Value>, re: Matcher)
    requires i < |rules|
    ensures CheckFrom(rules, i, FilledUpTo(rules, i, data), all, re) ==
      if Verdicts(rules, data, all, re)[i] then CheckFrom(rules, i + 1, FilledUpTo(rules, i + 1, data), all, re) else Invalid
  {
    var nd := FilledUpTo(rules, i, data);
    assert FilledUpTo(rules, i + 1, data) == WithDefault(rules[i], nd);
    CheckStep(rules, i, nd, all, re);
    assert Verdicts(rules, data, all, re)[i] == FieldAccepted(rules, i, data, all, re);
  }

  /** The loop only adds keys: every value `newData` already holds survives into the result. */
  lemma {:induction false} CheckFromKeeps(rules: Props<Rule>, i: nat, nd: Fields, all: seq<Value>, re: Matcher)
    requires i <= |rules|
    ensures var r := CheckFrom(rules, i, nd, all, re);
      r.Valid? ==> forall k :: Has(nd, k) ==> Lookup(r.data, k) == Lookup(nd, k)
    decreases |rules| - i
  {
    if i < |rules| {
      var nd' := WithDefault(rules[i], nd);
      CheckStep(rules, i, nd, all, re);
      CheckFromKeeps(rules, i + 1, nd', all, re);
      forall k | Has(nd, k)
        ensures Has(nd', k) && Lookup(nd', k) == Lookup(nd, k)
      {
        if nd' != nd {
          LookupAppend(nd, rules[i].0, rules[i].1.default.value, k);
        }
      }
    }
  }

  /** One turn of the loop: field `i` is read after its default is in place and either passes or ends the loop. */
  lemma CheckStep(rules: Props<Rule>, i: nat, nd: Fields, all: seq<Value>, re: Matcher)
    requires i < |rules|
    ensures var nd' := WithDefault(rules[i], nd);
      CheckFrom(rules, i, nd, all, re) ==
        if Accepted(rules[i].1, rules[i].0, Lookup(nd', rules[i].0), Lookup(nd', "id"), all, re)
        then CheckFrom(rules, i + 1, nd', all, re) else Invalid
  {
    var (field, rule) := rules[i];
    var value := Lookup(nd, field);
    if value.None? && rule.default.Some? {
      LookupAppend(nd, field, rule.default.value, field);
    }
  }

  /**
   * Filling in defaults keeps every value the data gives, gives a schema field
   * the data lacks its default, and adds nothing else.
   */
  lemma {:induction false} FilledExtends(rules: Props<Rule>, n: nat, data: Fields, k: string)
    requires n <= |rules| && DistinctKeys(rules)
    ensures Has(data, k) ==> Lookup(FilledUpTo(rules, n, data), k) == Lookup(data, k)
    ensures forall i :: 0 <= i < n && rules[i].0 == k && !Has(data, k) ==>
      Lookup(FilledUpTo(rules, n, data), k) == rules[i].1.default
    ensures (forall i :: 0 <= i < n ==> rules[i].0 != k) ==> Lookup(FilledUpTo(rules, n, data), k) == Lookup(data, k)
  {
    if n > 0 {
      FilledExtends(rules, n - 1, data, k);
      var nd := FilledUpTo(rules, n - 1, data);
      var (field, rule) := rules[n - 1];
      if !Has(nd, field) && rule.default.Some? {
        LookupAppend(nd, field, rule.default.value, k);
        if k == field && !Has(data, k) {
          assert forall i :: 0 <= i < n - 1 ==> rules[i].0 != k;
        }
      }
    }
  }

  /** A field that is not the schema's keeps the data's value (or stays absent). */
  lemma OtherKeysUntouched(rules: Props<Rule>, data: Fields, k: string)
    requires DistinctKeys(rules) && !Has(rules, k)
    ensures Lookup(Filled(rules, data), k) == Lookup(data, k)
  {
    assert forall i :: 0 <= i < |rules| ==> rules[i].0 != k by {
      forall i | 0 <= i < |rules| ensures rules[i].0 != k {
        assert Keys(rules)[i] == rules[i].0;
      }
    }
    FilledExtends(rules, |rules|, data, k);
  }

  /**
   * Once a record with an id passes, no other record (one with another id)
   * holds the same value in a unique field; a required field always holds a
   * value other than `null`.
   */
  lemma UniqueFieldExclusive(rules: Props<Rule>, data: Fields, all: seq<Value>, re: Matcher, i: nat)
    requires DistinctKeys(rules) && i < |rules| && Has(data, "id")
    requires Validate(rules, data, all, re).Valid?
    ensures var nd := Validate(rules, data, all, re).data;
      var v := Lookup(nd, rules[i].0);
      && (rules[i].1.required ==> v.Some? && v.value != Null)
      && (rules[i].1.unique && v.Some? && v.value != Null && v.value != Str("") ==>
            forall j :: 0 <= j < |all| && Prop(all[j], rules[i].0) == v ==> Prop(all[j], "id") == Lookup(data, "id"))
  {
    ValidateMeaning(rules, data, all, re);
    assert Verdicts(rules, data, all, re)[i];
    var (field, rule) := rules[i];
    FilledExtends(rules, i + 1, data, field);
    FilledExtends(rules, |rules|, data, field);
    FilledExtends(rules, i + 1, data, "id");
    FilledExtends(rules, |rules|, data, "id");
    if rule.unique {
      var v := Lookup(Filled(rules, data), field);
      if v.Some? && v.value != Null && v.value != Str("") {
        assert Lookup(FilledUpTo(rules, i + 1, data), field) == v;
      }
    }
  }

  /**
   * With a merged schema, a field of a built-in type that the data lacks
   * always receives a default, so validation never meets a required field
   * that is absent and has no default.
   */
  lemma AbsentFieldGetsDefault(schema: Props<FieldSpec>, data: Fields, i: nat)
    requires DistinctKeys(schema) && i < |schema|
    requires MergeRules(BuiltInRules, schema).Merged?
    requires !Has(data, schema[i].0)
    ensures var rules := MergeRules(BuiltInRules, schema).rules;
      !rules[i].1.kind.TOther? ==>
        rules[i].1.default.Some? && Lookup(Filled(rules, data), schema[i].0) == rules[i].1.default
  {
    var rules := MergeRules(BuiltInRules, schema).rules;
    MergedDefaults(schema, i);
    FilledExtends(rules, |rules|, data, schema[i].0);
  }
}
