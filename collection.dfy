/**
 * `GenericDB`: a collection of records kept in one `JsonDB` file, with a
 * merged schema, generated ids and the read-modify-write operations
 * `create`, `findById`, `update`, `delete` and `getAll`.
 */
module Collection {
  import opened Wrappers
  import opened Props
  import opened Text
  import opened Json
  import opened Cipher
  import opened FieldCodec
  import opened Files
  import opened KeyConfig
  import opened Store
  import opened Schema
  import opened Validation
  import Ini

  /** What an operation gives its caller: a return value, or an exception. */
  datatype Answer<T> = Returned(value: T) | Throws

  /** `String(record.id)`, the form in which every operation compares ids. */
  function IdOf(v: Value): string {
    ToJsString(Prop(v, "id"))
  }

  /** `parseInt(record.id)`: `None` is `NaN`. */
  function NumericId(v: Value): Option<int> {
    ParseInt(IdOf(v), true)
  }

  /** `parseInt(record.id)` of every record, in order. */
  function NumericIds(all: seq<Value>): (ids: seq<Option<int>>)
    ensures |ids| == |all|
  {
    seq(|all|, j requires 0 <= j < |all| => NumericId(all[j]))
  }

  /** The `reduce` in `create` over the first `n` parsed ids: the largest number above 0, or 0. */
  function MaxIdUpTo(ids: seq<Option<int>>, n: nat): (m: nat)
    requires n <= |ids|
    ensures forall j :: 0 <= j < n && ids[j].Some? ==> ids[j].value <= m
    ensures m == 0 || exists j :: 0 <= j < n && ids[j] == Some(m)
  {
    if n == 0 then 0
    else
      var m := MaxIdUpTo(ids, n - 1);
      var c := ids[n - 1];
      if c.Some? && c.value > m then c.value else m
  }

  /** The id `create` gives a record that has none: one more than the largest numeric id. */
  function NextId(all: seq<Value>): string {
    var ids := NumericIds(all);
    NatToString(MaxIdUpTo(ids, |ids|) + 1)
  }

  /** `findIndex(item => String(item.id) === id)`. */
  function FindIndex(all: seq<Value>, id: string): (r: Option<nat>)
    ensures r.None? <==> forall j :: 0 <= j < |all| ==> IdOf(all[j]) != id
    ensures r.Some? ==> r.value < |all| && IdOf(all[r.value]) == id
    ensures r.Some? ==> forall j :: 0 <= j < r.value ==> IdOf(all[j]) != id
  {
    if all == [] then None
    else if IdOf(all[0]) == id then Some(0)
    else match FindIndex(all[1..], id)
      case None => None
      case Some(i) => Some(i + 1)
  }

  /** `find(item => String(item.id) === id)`: the first record with that id. */
  function FindIn(all: seq<Value>, id: string): (r: Option<Value>)
    ensures r.Some? <==> exists j :: 0 <= j < |all| && IdOf(all[j]) == id
    ensures r.Some? ==> IdOf(r.value) == id && r.value in all
    ensures r.Some? ==> exists i :: (0 <= i < |all| && all[i] == r.value
      && forall j :: 0 <= j < i ==> IdOf(all[j]) != id)
  {
    match FindIndex(all, id)
    case None => None
    case Some(i) => Some(all[i])
  }

  // ---------------------------------------------------------------- create

  /** The record after `create` assigned an id when it had no truthy one. */
  function WithId(all: seq<Value>, record: Fields): Fields {
    if Truthy(Lookup(record, "id")) then record else Set(record, "id", Str(NextId(all)))
  }

  /** The record after `create`'s loop over the first `n` schema fields: absent optional fields get their default. */
  function PreFilled(rules: Props<Rule>, n: nat, record: Fields): Fields
    requires n <= |rules|
  {
    if n == 0 then record
    else
      var r := PreFilled(rules, n - 1, record);
      var (field, rule) := rules[n - 1];
      if !Has(r, field) && !rule.required && rule.default.Some? then r + [(field, rule.default.value)] else r
  }

  /** The caller's record as `create` leaves it: with an id and the optional fields' defaults. */
  function Prepare(rules: Props<Rule>, all: seq<Value>, record: Fields): Fields {
    PreFilled(rules, |rules|, WithId(all, record))
  }

  datatype CreateOutcome =
    | Rejected                                  // validation failed: `null`
    | DuplicateId                               // E009: `null`
    | PushFailed                                // `this.db.data` is not an array
    | Created(record: Fields, data: seq<Value>) // the new record and the new `this.db.data`

  /**
   * `create(record)` given the loaded records `all` and the in-memory array
   * `mem` it pushes onto.  The new record is never already present, and it
   * is added at the end of `mem`.
   */
  function CreateIn(rules: Props<Rule>, all: seq<Value>, mem: Value, record: Fields, re: Matcher): (r: CreateOutcome)
    ensures r.Created? ==> mem.Arr? && r.data == mem.items + [Obj(r.record)]
    ensures r.Created? ==> forall j :: 0 <= j < |all| ==> IdOf(all[j]) != IdOf(Obj(r.record))
    ensures r.Created? ==> Validate(rules, Prepare(rules, all, record), all, re) == Valid(r.record)
    ensures r.Rejected? <==> Validate(rules, Prepare(rules, all, record), all, re).Invalid?
    ensures r.DuplicateId? <==> var v := Validate(rules, Prepare(rules, all, record), all, re);
      v.Valid? && exists j :: 0 <= j < |all| && IdOf(all[j]) == IdOf(Obj(v.data))
    ensures r.Created? <==> var v := Validate(rules, Prepare(rules, all, record), all, re);
      v.Valid? && mem.Arr? && forall j :: 0 <= j < |all| ==> IdOf(all[j]) != IdOf(Obj(v.data))
  {
    match Validate(rules, Prepare(rules, all, record), all, re)
    case Invalid => Rejected
    case Valid(nd) =>
      if FindIndex(all, IdOf(Obj(nd))).Some? then DuplicateId
      else if !mem.Arr? then PushFailed
      else Created(nd, mem.items + [Obj(nd)])
  }

  // ---------------------------------------------------------------- update and delete

  datatype UpdateOutcome = NotFound | Invalidated | Updated(data: seq<Value>)

  /** `{ ...oldRecord }` for a stored record: an object's properties, nothing for a primitive. */
  function OwnFields(v: Value): Fields {
    if v.Obj? then v.fields else []
  }

  /**
   * `update(id, updatedData)` on the loaded records: the first record with the
   * id is replaced by the validated merge of it and the update.
   */
  function UpdateIn(rules: Props<Rule>, all: seq<Value>, id: string, updated: Fields, re: Matcher): (r: UpdateOutcome)
    ensures r.NotFound? <==> forall j :: 0 <= j < |all| ==> IdOf(all[j]) != id
    ensures r.Updated? ==> |r.data| == |all|
    ensures r.Invalidated? <==> (FindIndex(all, id).Some? &&
      Validate(rules, Spread(OwnFields(all[FindIndex(all, id).value]), updated), all, re).Invalid?)
    ensures r.Updated? ==> exists i :: (0 <= i < |all| && IdOf(all[i]) == id
      && (forall j :: 0 <= j < i ==> IdOf(all[j]) != id)
      && Validate(rules, Spread(OwnFields(all[i]), updated), all, re).Valid?
      && r.data == all[i := Obj(Validate(rules, Spread(OwnFields(all[i]), updated), all, re).data)])
  {
    match FindIndex(all, id)
    case None => NotFound
    case Some(i) =>
      match Validate(rules, Spread(OwnFields(all[i]), updated), all, re)
      case Invalid => Invalidated
      case Valid(nd) => Updated(all[i := Obj(nd)])
  }

  /** `delete(id)` on the loaded records: the array without its first record with the id, or `None`. */
  function DeleteIn(all: seq<Value>, id: string): (r: Option<seq<Value>>)
    ensures r.None? <==> forall j :: 0 <= j < |all| ==> IdOf(all[j]) != id
    ensures r.Some? ==> |r.value| == |all| - 1
    ensures r.Some? ==> exists i :: (0 <= i < |all| && IdOf(all[i]) == id && (forall j :: 0 <= j < i ==> IdOf(all[j]) != id)
      && r.value[..i] == all[..i] && r.value[i..] == all[i + 1..])
  {
    match FindIndex(all, id)
    case None => None
    case Some(i) =>
      var rest := all[..i] + all[i + 1..];
      assert rest[..i] == all[..i] && rest[i..] == all[i + 1..];
      Some(rest)
  }

  // ---------------------------------------------------------------- lemmas

  /** No record's id reads as the generated id: every numeric id is at most the maximum, and the new one is above it. */
  lemma GeneratedIdIsFresh(all: seq<Value>)
    ensures forall j :: 0 <= j < |all| ==> IdOf(all[j]) != NextId(all)
  {
    var ids := NumericIds(all);
    var m := MaxIdUpTo(ids, |ids|);
    ParseIntOfDecimal(m + 1, true);
    forall j | 0 <= j < |all|
      ensures IdOf(all[j]) != NextId(all)
    {
      assert ids[j] == NumericId(all[j]);
    }
  }

  /** `create`'s loop only adds keys: every key the record had keeps its value. */
  lemma {:induction false} PreFilledKeeps(rules: Props<Rule>, n: nat, record: Fields, k: string)
    requires n <= |rules| && Has(record, k)
    ensures Lookup(PreFilled(rules, n, record), k) == Lookup(record, k)
  {
    if n > 0 {
      PreFilledKeeps(rules, n - 1, record, k);
      var r := PreFilled(rules, n - 1, record);
      var (field, rule) := rules[n - 1];
      if !Has(r, field) && !rule.required && rule.default.Some? {
        LookupAppend(r, field, rule.default.value, k);
      }
    }
  }

  /**
   * A created record keeps a truthy id it was given and otherwise carries the
   * generated id; a record created without an id is never refused as a
   * duplicate.
   */
  lemma CreateAssignsId(rules: Props<Rule>, all: seq<Value>, mem: Value, record: Fields, re: Matcher)
    ensures var c := CreateIn(rules, all, mem, record, re);
      c.Created? ==> Lookup(c.record, "id") == (if Truthy(Lookup(record, "id")) then Lookup(record, "id") else Some(Str(NextId(all))))
    ensures !Truthy(Lookup(record, "id")) ==> CreateIn(rules, all, mem, record, re) != DuplicateId
  {
    var w := WithId(all, record);
    assert Has(w, "id");
    PreFilledKeeps(rules, |rules|, w, "id");
    var v := Validate(rules, Prepare(rules, all, record), all, re);
    if v.Valid? && !Truthy(Lookup(record, "id")) {
      assert Lookup(v.data, "id") == Some(Str(NextId(all)));
      GeneratedIdIsFresh(all);
      assert IdOf(Obj(v.data)) == NextId(all);
    }
  }

  /**
   * When the in-memory array matches the file, a created record is appended
   * after all the others, which stay as they were, and looking its id up
   * finds it.
   */
  lemma CreateThenFind(rules: Props<Rule>, all: seq<Value>, record: Fields, re: Matcher)
    requires CreateIn(rules, all, Arr(all), record, re).Created?
    ensures var c := CreateIn(rules, all, Arr(all), record, re);
      && |c.data| == |all| + 1 && c.data[..|all|] == all
      && FindIn(c.data, IdOf(Obj(c.record))) == Some(Obj(c.record))
  {
    var c := CreateIn(rules, all, Arr(all), record, re);
    var id := IdOf(Obj(c.record));
    assert c.data[..|all|] == all;
    assert c.data[|all|] == Obj(c.record);
  }

  /**
   * A successful update leaves the number of records and every other record
   * alone; the updated record holds the update's value for each key the
   * update gives, and its old value for every other key it had.
   */
  lemma UpdateFrame(rules: Props<Rule>, all: seq<Value>, id: string, updated: Fields, re: Matcher, k: string)
    requires DistinctKeys(updated)
    requires UpdateIn(rules, all, id, updated, re).Updated?
    ensures var data := UpdateIn(rules, all, id, updated, re).data;
      var i := FindIndex(all, id).value;
      && |data| == |all|
      && (forall j :: 0 <= j < |all| && j != i ==> data[j] == all[j])
      && data[i].Obj?
      && (Has(updated, k) ==> Prop(data[i], k) == Lookup(updated, k))
      && (!Has(updated, k) && Has(OwnFields(all[i]), k) ==> Prop(data[i], k) == Prop(all[i], k))
  {
    var i := FindIndex(all, id).value;
    var merged := Spread(OwnFields(all[i]), updated);
    SpreadLookup(OwnFields(all[i]), updated, k);
  }

  /** Deleting the only record with an id leaves no record with that id. */
  lemma DeleteThenFind(all: seq<Value>, id: string, i: nat)
    requires i < |all| && IdOf(all[i]) == id
    requires forall j :: 0 <= j < |all| && j != i ==> IdOf(all[j]) != id
    ensures DeleteIn(all, id).Some? && FindIn(DeleteIn(all, id).value, id).None?
  {
    var rest := DeleteIn(all, id).value;
    assert FindIndex(all, id) == Some(i);
    assert rest == all[..i] + all[i + 1..];
    forall j | 0 <= j < |rest|
      ensures IdOf(rest[j]) != id
    {
      if j < i { assert rest[j] == all[j]; } else { assert rest[j] == all[j + 1]; }
    }
  }

  /**
   * `update` does not check ids against the other records: giving record `"1"`
   * the id `"2"` leaves two records with id `"2"`.
   */
  lemma UpdateCanDuplicateId(re: Matcher)
    ensures var all := [Obj([("id", Str("1"))]), Obj([("id", Str("2"))])];
      var u := UpdateIn([], all, "1", [("id", Str("2"))], re);
      && u.Updated? && IdOf(u.data[0]) == "2" && IdOf(u.data[1]) == "2"
  {
    var all := [Obj([("id", Str("1"))]), Obj([("id", Str("2"))])];
    assert IdOf(all[0]) == "1";
    assert FindIndex(all, "1") == Some(0);
    var merged := Spread(OwnFields(all[0]), [("id", Str("2"))]);
    assert merged == [("id", Str("2"))];
    assert Validate([], merged, all, re) == Valid(merged);
  }

  // ---------------------------------------------------------------- the class

  /** A record object the caller hands to `create`, which writes its `id` and defaults into it. */
  class Draft {
    var fields: Fields

    constructor (fields: Fields)
      ensures this.fields == fields
    {
      this.fields := fields;
    }
  }

  class GenericDB {
    const store: JsonDB
    const rules: Props<Rule>
    const re: Matcher

    constructor (store: JsonDB, rules: Props<Rule>, re: Matcher)
      ensures this.store == store && this.rules == rules && this.re == re
    {
      this.store := store;
      this.rules := rules;
      this.re := re;
    }

    /**
     * `create(record)`.  A load that throws makes it throw before it touches
     * `record`.  Loaded records that are not an array make `reduce` throw when
     * the record has no truthy id; with one, `record` gets its defaults and is
     * validated, and the call ends in `null` when validation fails or throws
     * once `some` or `find` is called on the records.  Otherwise `record` gets
     * its id and defaults, and only a created record is pushed and saved.
     */
    method Create(record: Draft, loadIvs: Entropy, saveIvs: Entropy) returns (r: Answer<Option<Fields>>)
      modifies store, store.file, record
      ensures
        var loaded := old(store.LoadOutcome(loadIvs));
        var after := old(store.ContentAfterLoad(loadIvs));
        if loaded.Threw? || (!loaded.v.Arr? && !Truthy(Lookup(old(record.fields), "id"))) then
          && r == Throws && record.fields == old(record.fields)
          && store.data == old(store.data) && store.file.content == after
        else if !loaded.v.Arr? then
          && record.fields == PreFilled(rules, |rules|, old(record.fields))
          && r == (if ValidateUnlisted(rules, record.fields, re) == Some(Invalid) then Returned(None) else Throws)
          && store.data == old(store.data) && store.file.content == after
        else
          var all := loaded.v.items;
          var c := CreateIn(rules, all, old(store.data), old(record.fields), re);
          && record.fields == Prepare(rules, all, old(record.fields))
          && r == (if c.Created? then Returned(Some(c.record)) else if c.PushFailed? then Throws else Returned(None))
          && store.data == (if c.Created? then Arr(c.data) else old(store.data))
          && store.file.content == (if c.Created? then store.SavedContent(store.data, saveIvs, after) else after)
      ensures store.file.readFails == old(store.file.readFails) && store.file.writeFails == old(store.file.writeFails)
    {
      var loaded := store.LoadData(loadIvs);
      if loaded.Threw? {
        return Throws;
      }
      if !loaded.v.Arr? {
        if !Truthy(Lookup(record.fields, "id")) {
          return Throws;
        }
        FillDefaults(record);
        if ValidateUnlisted(rules, record.fields, re) == Some(Invalid) {
          return Returned(None);
        }
        return Throws;
      }
      var all := loaded.v.items;
      if !Truthy(Lookup(record.fields, "id")) {
        record.fields := Set(record.fields, "id", Str(NextId(all)));
      }
      FillDefaults(record);
      var v := Validate(rules, record.fields, all, re);
      if v.Invalid? {
        return Returned(None);
      }
      var nd := v.data;
      if FindIndex(all, IdOf(Obj(nd))).Some? {
        return Returned(None);
      }
      if !store.data.Arr? {
        return Throws;
      }
      store.data := Arr(store.data.items + [Obj(nd)]);
      store.SaveData(saveIvs);
      return Returned(Some(nd));
    }

    /** The loop of `create` that gives every absent optional field its default, in place. */
    method FillDefaults(record: Draft)
      modifies record
      ensures record.fields == PreFilled(rules, |rules|, old(record.fields))
    {
      var i := 0;
      while i < |rules|
        invariant 0 <= i <= |rules|
        invariant record.fields == PreFilled(rules, i, old(record.fields))
      {
        var (field, rule) := rules[i];
        if !Has(record.fields, field) && !rule.required && rule.default.Some? {
          record.fields := Set(record.fields, field, rule.default.value);
        }
        i := i + 1;
      }
    }

    /** `findById(id)`: the first loaded record whose id reads as `id`; `None` is `undefined`. */
    method FindById(id: string, loadIvs: Entropy) returns (r: Answer<Option<Value>>)
      modifies store.file
      ensures
        var loaded := old(store.LoadOutcome(loadIvs));
        && r == (if loaded.Threw? || !loaded.v.Arr? then Throws else Returned(FindIn(loaded.v.items, id)))
        && store.file.content == old(store.ContentAfterLoad(loadIvs))
      ensures store.file.readFails == old(store.file.readFails) && store.file.writeFails == old(store.file.writeFails)
    {
      var loaded := store.LoadData(loadIvs);
      if loaded.Threw? || !loaded.v.Arr? {
        return Throws;
      }
      return Returned(FindIn(loaded.v.items, id));
    }

    /**
     * `update(id, updatedData)`: `false` when no record has the id or the merged
     * record fails validation, and then nothing is saved; otherwise the loaded
     * array with that one record replaced becomes `this.db.data` and is saved.
     */
    method Update(id: string, updated: Fields, loadIvs: Entropy, saveIvs: Entropy) returns (r: Answer<bool>)
      modifies store, store.file
      ensures
        var loaded := old(store.LoadOutcome(loadIvs));
        var after := old(store.ContentAfterLoad(loadIvs));
        if loaded.Threw? || !loaded.v.Arr? then
          r == Throws && store.data == old(store.data) && store.file.content == after
        else
          var u := UpdateIn(rules, loaded.v.items, id, updated, re);
          && r == Returned(u.Updated?)
          && store.data == (if u.Updated? then Arr(u.data) else old(store.data))
          && store.file.content == (if u.Updated? then store.SavedContent(store.data, saveIvs, after) else after)
      ensures store.file.readFails == old(store.file.readFails) && store.file.writeFails == old(store.file.writeFails)
    {
      var loaded := store.LoadData(loadIvs);
      if loaded.Threw? || !loaded.v.Arr? {
        return Throws;
      }
      var all := loaded.v.items;
      var index := FindIndex(all, id);
      if index.None? {
        return Returned(false);
      }
      var newRecord := Spread(OwnFields(all[index.value]), updated);
      var v := Validate(rules, newRecord, all, re);
      if v.Invalid? {
        return Returned(false);
      }
      all := all[index.value := Obj(v.data)];
      store.data := Arr(all);
      store.SaveData(saveIvs);
      return Returned(true);
    }

    /** `delete(id)`: removes the first record with the id and saves; `false`, saving nothing, when there is none. */
    method Delete(id: string, loadIvs: Entropy, saveIvs: Entropy) returns (r: Answer<bool>)
      modifies store, store.file
      ensures
        var loaded := old(store.LoadOutcome(loadIvs));
        var after := old(store.ContentAfterLoad(loadIvs));
        if loaded.Threw? || !loaded.v.Arr? then
          r == Throws && store.data == old(store.data) && store.file.content == after
        else
          var d := DeleteIn(loaded.v.items, id);
          && r == Returned(d.Some?)
          && store.data == (if d.Some? then Arr(d.value) else old(store.data))
          && store.file.content == (if d.Some? then store.SavedContent(store.data, saveIvs, after) else after)
      ensures store.file.readFails == old(store.file.readFails) && store.file.writeFails == old(store.file.writeFails)
    {
      var loaded := store.LoadData(loadIvs);
      if loaded.Threw? || !loaded.v.Arr? {
        return Throws;
      }
      var all := loaded.v.items;
      var index := FindIndex(all, id);
      if index.None? {
        return Returned(false);
      }
      all := all[..index.value] + all[index.value + 1..];
      store.data := Arr(all);
      store.SaveData(saveIvs);
      return Returned(true);
    }

    /** `getAll()`: whatever `loadData` returns. */
    method GetAll(loadIvs: Entropy) returns (r: Answer<Value>)
      modifies store.file
      ensures
        var loaded := old(store.LoadOutcome(loadIvs));
        && r == (if loaded.Threw? then Throws else Returned(loaded.v))
        && store.file.content == old(store.ContentAfterLoad(loadIvs))
      ensures store.file.readFails == old(store.file.readFails) && store.file.writeFails == old(store.file.writeFails)
    {
      var loaded := store.LoadData(loadIvs);
      if loaded.Threw? {
        return Throws;
      }
      return Returned(loaded.v);
    }
  }

  /** The `GenericDB` constructor's outcome: the collection, or the error it throws. */
  datatype Opened = Ready(db: GenericDB) | TooManyFields | BadType(field: string, typeName: string)

  /**
   * `new GenericDB(schema, secretKey)`: a schema of more than ten fields is
   * refused (E016) before any file is touched; otherwise the store is opened
   * (which may write both files) and only then are the rules merged, so an
   * invalid type is reported after the store was opened.
   */
  method Open(schema: Props<FieldSpec>, cfg: Config, cfgFile: File, file: File, explicitKey: string,
              random: KeyBytes, codecs: Codecs, ini: Ini.IniCodec, ivs: Entropy, re: Matcher)
    returns (r: Opened)
    requires DistinctKeys(schema) && cfgFile != file
    modifies cfgFile, file
    ensures |schema| > MaxFields <==> r == TooManyFields
    ensures r == TooManyFields ==> cfgFile.content == old(cfgFile.content) && file.content == old(file.content)
    ensures r.BadType? <==> |schema| <= MaxFields && MergeRules(BuiltInRules, schema).InvalidType?
    ensures r.BadType? ==> r == BadType(MergeRules(BuiltInRules, schema).field, MergeRules(BuiltInRules, schema).typeName)
    ensures r.Ready? ==> && r.db.rules == MergeRules(BuiltInRules, schema).rules && r.db.re == re
                         && r.db.store.file == file && r.db.store.mode == ModeOf(cfg)
    ensures r != TooManyFields ==>
      var key := ResolvedKey(cfg, explicitKey, old(cfgFile.content), old(cfgFile.readFails), old(cfgFile.writeFails),
                             ini, random);
      var d := Decide(ModeOf(cfg), key, codecs, old(file.Read()));
      var init := InitialText(ModeOf(cfg), key, codecs, ivs);
      && cfgFile.content == ConfigAfter(cfg, explicitKey, old(cfgFile.content), old(cfgFile.readFails),
                                        old(cfgFile.writeFails), ini, random)
      && file.content == (if Reinitialises(d) && init.Some? && !old(file.writeFails) then init else old(file.content))
      && (r.Ready? ==> r.db.store.secretKey == key && r.db.store.data == (if d.Parsed? then d.v else Arr([])))
  {
    if |schema| > MaxFields {
      return TooManyFields;
    }
    var store := new JsonDB(cfg, cfgFile, file, explicitKey, random, codecs, ini, ivs);
    var merged := MergeRules(BuiltInRules, schema);
    if merged.InvalidType? {
      return BadType(merged.field, merged.typeName);
    }
    var db := new GenericDB(store, merged.rules, re);
    return Ready(db);
  }
}
