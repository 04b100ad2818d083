/**
 * `JsonDB`: one data file holding a JSON array of records, plain, encrypted as
 * a whole, or with every string field encrypted, and the recovery rules that
 * `loadData` applies to a missing, blank or damaged file.
 */
module Store {
  import opened Wrappers
  import opened Text
  import opened Json
  import opened Cipher
  import opened FieldCodec
  import opened Files
  import opened KeyConfig
  import Ini

  /** The foreign code the store calls: the JSON text codec and the cipher. */
  datatype Codecs = Codecs(json: JsonCodec, aes: Aes)

  ghost predicate Lawful(c: Codecs) {
    Json.Lawful(c.json) && Cipher.Lawful(c.aes)
  }

  /**
   * The text `createInitialFile` writes: `'[]'` encoded for the mode, or `None`
   * when `encryptData` throws because the key is unusable.  Whole-file mode
   * draws its IV at the empty path.
   */
  function InitialText(mode: Mode, key: string, c: Codecs, ivs: Entropy): (r: Option<string>)
    ensures r.None? <==> mode == Whole && !ValidKey(key)
    ensures mode == Plain ==> r == Some("[]")
  {
    match mode
    case Plain => Some("[]")
    case Whole => EncryptData("[]", key, c.aes, ivs([]))
    case PerField =>
      var e := EncryptFields(Arr([]), key, c.aes, ivs);
      if e.None? then None else Some(c.json.stringify(e.value, false))
  }

  /**
   * The text `saveData` writes for `data`, or `None` when encrypting throws (which
   * `saveData` logs and swallows).
   */
  function SaveText(mode: Mode, key: string, c: Codecs, data: Value, ivs: Entropy): (r: Option<string>)
    ensures r.None? <==> !ValidKey(key) && (mode == Whole || (mode == PerField && HasCipherLeaf(data)))
  {
    match mode
    case Plain => Some(c.json.stringify(data, true))
    case Whole => EncryptData(c.json.stringify(data, true), key, c.aes, ivs([]))
    case PerField =>
      var e := EncryptFields(data, key, c.aes, ivs);
      if e.None? then None else Some(c.json.stringify(e.value, false))
  }

  /** Where `loadData` ends up, by the log code it writes. */
  datatype Verdict =
    | Missing          // E001: the file does not exist
    | Blank            // E002: the (decrypted) text is only white space
    | Corrupt          // E003: `JSON.parse` threw a `SyntaxError`
    | Failed           // E004: any other error: unreadable file, decryption failure
    | Parsed(v: Value) // the file's records

  /** The path through `loadData`'s `try` block for what reading the file gave. */
  function Decide(mode: Mode, key: string, c: Codecs, r: Reading): (d: Verdict)
    ensures d == Missing <==> r.NoEntry?
    ensures r.Unreadable? ==> d == Failed
    ensures mode == Plain && r.Text? ==> (d == Blank <==> IsBlank(r.s))
    ensures mode == Whole && r.Text? && |r.s| < 32 ==> d == Failed
    ensures mode == PerField ==> d != Blank
    ensures mode == Plain && r.Text? ==> (d == Corrupt <==> !IsBlank(r.s) && c.json.parse(r.s).None?)
    ensures mode == Whole && r.Text? && DecryptData(r.s, key, c.aes).None? ==> d == Failed
    ensures mode == Whole && r.Text? ==>
      (d == Corrupt <==> var t := DecryptData(r.s, key, c.aes);
                         t.Some? && !IsBlank(t.value) && c.json.parse(t.value).None?)
    ensures mode == PerField && r.Text? ==> (d == Corrupt <==> c.json.parse(r.s).None?)
    ensures mode == PerField && r.Text? && c.json.parse(r.s).Some? ==>
      (DecryptFields(c.json.parse(r.s).value, key, c.aes).None? ==> d == Failed)
    ensures mode == Whole && r.Text? ==>
      (d == Blank <==> var t := DecryptData(r.s, key, c.aes); t.Some? && IsBlank(t.value))
    ensures mode == Plain && r.Text? && !IsBlank(r.s) && c.json.parse(r.s).Some? ==>
      d == Parsed(c.json.parse(r.s).value)
    ensures mode == Whole && r.Text? ==>
      (var t := DecryptData(r.s, key, c.aes);
       t.Some? && !IsBlank(t.value) && c.json.parse(t.value).Some? ==> d == Parsed(c.json.parse(t.value).value))
    ensures mode == PerField && r.Text? && c.json.parse(r.s).Some? ==>
      (var w := DecryptFields(c.json.parse(r.s).value, key, c.aes); w.Some? ==> d == Parsed(w.value))
    ensures d.Parsed? ==> r.Text?
  {
    match r
    case NoEntry => Missing
    case Unreadable => Failed
    case Text(s) =>
      match mode
      case Plain =>
        if IsBlank(s) then Blank
        else Interpret(c.json.parse(s))
      case Whole =>
        var t := DecryptData(s, key, c.aes);
        if t.None? then Failed
        else if IsBlank(t.value) then Blank
        else Interpret(c.json.parse(t.value))
      case PerField =>
        var p := c.json.parse(s);
        if p.None? then Corrupt
        else
          var w := DecryptFields(p.value, key, c.aes);
          if w.None? then Failed else Parsed(w.value)
  }

  /** `JSON.parse`'s outcome: its value, or the `SyntaxError` path. */
  function Interpret(p: Option<Value>): Verdict {
    if p.None? then Corrupt else Parsed(p.value)
  }

  /** The verdicts on which `loadData` calls `createInitialFile`. */
  predicate Reinitialises(d: Verdict) {
    d == Missing || d == Blank || d == Corrupt
  }

  /** What `loadData` returns, or that it rethrew. */
  datatype Loaded = Records(v: Value) | Threw

  /**
   * `loadData`'s result given the verdict and whether `createInitialFile` wrote
   * the file.  Only a failed re-initialisation after a `SyntaxError` escapes.
   */
  function LoadResult(d: Verdict, wrote: bool): (r: Loaded)
    ensures r.Threw? <==> d == Corrupt && !wrote
    ensures d.Parsed? ==> r == Records(d.v)
    ensures !d.Parsed? && r.Records? ==> r.v == Arr([])
  {
    match d
    case Parsed(v) => Records(v)
    case Corrupt => if wrote then Records(Arr([])) else Threw
    case _ => Records(Arr([]))
  }

  class JsonDB {
    const mode: Mode
    const codecs: Codecs
    const file: File
    const secretKey: string
    var data: Value

    /**
     * `new JsonDB(filePath, secretKey)`: resolves the key (which may write the
     * configuration file), then loads the records, falling back to `[]` when
     * `loadData` throws.
     */
    constructor (cfg: Config, cfgFile: File, file: File, explicitKey: string, random: KeyBytes,
                 codecs: Codecs, ini: Ini.IniCodec, ivs: Entropy)
      requires cfgFile != file
      modifies cfgFile, file
      ensures this.mode == ModeOf(cfg) && this.codecs == codecs && this.file == file
      ensures explicitKey != "" ==> secretKey == explicitKey
      ensures explicitKey == "" && cfg.secretKey != "" ==> secretKey == cfg.secretKey
      ensures explicitKey == "" && cfg.secretKey == "" ==> secretKey == "" || ValidKey(secretKey)
      ensures secretKey == ResolvedKey(cfg, explicitKey, old(cfgFile.content), old(cfgFile.readFails),
                                       old(cfgFile.writeFails), ini, random)
      ensures cfgFile.content == ConfigAfter(cfg, explicitKey, old(cfgFile.content), old(cfgFile.readFails),
                                             old(cfgFile.writeFails), ini, random)
      ensures cfgFile.readFails == old(cfgFile.readFails) && cfgFile.writeFails == old(cfgFile.writeFails)
      ensures
        var d := Decide(mode, secretKey, codecs, old(file.Read()));
        var init := InitialText(mode, secretKey, codecs, ivs);
        var wrote := Reinitialises(d) && init.Some? && !old(file.writeFails);
        && file.content == (if wrote then init else old(file.content))
        && data == (if d.Parsed? then d.v else Arr([]))
      ensures file.readFails == old(file.readFails) && file.writeFails == old(file.writeFails)
    {
      var key := EnsureSecretKey(cfg, explicitKey, cfgFile, random, ini);
      this.mode := ModeOf(cfg);
      this.codecs := codecs;
      this.file := file;
      this.secretKey := key;
      this.data := Arr([]);
      new;
      var r := LoadData(ivs);
      data := if r.Records? then r.v else Arr([]);
    }

    /** The path `loadData` would take through its `try` block now. */
    function CurrentVerdict(): Verdict
      reads file
    {
      Decide(mode, secretKey, codecs, file.Read())
    }

    /** `loadData` would now call `createInitialFile`, and that call would write the file. */
    predicate Reinitialising(ivs: Entropy)
      reads file
    {
      Reinitialises(CurrentVerdict()) && InitialText(mode, secretKey, codecs, ivs).Some? && !file.writeFails
    }

    /** What `loadData` would now return. */
    function LoadOutcome(ivs: Entropy): Loaded
      reads file
    {
      LoadResult(CurrentVerdict(), Reinitialising(ivs))
    }

    /** The file's content once `loadData` has run from the current state. */
    function ContentAfterLoad(ivs: Entropy): Option<string>
      reads file
    {
      if Reinitialising(ivs) then InitialText(mode, secretKey, codecs, ivs) else file.content
    }

    /** The file's content once `saveData` has written `d` over `before`. */
    function SavedContent(d: Value, ivs: Entropy, before: Option<string>): Option<string>
      reads file
    {
      var t := SaveText(mode, secretKey, codecs, d, ivs);
      if t.Some? && !file.writeFails then t else before
    }

    /** `loadData()`: reads the file and applies the recovery rules; `data` is left alone. */
    method LoadData(ivs: Entropy) returns (r: Loaded)
      modifies file
      ensures r == old(LoadOutcome(ivs)) && file.content == old(ContentAfterLoad(ivs))
      ensures file.readFails == old(file.readFails) && file.writeFails == old(file.writeFails)
    {
      var d := Decide(mode, secretKey, codecs, file.Read());
      var wrote := false;
      if Reinitialises(d) {
        wrote := CreateInitialFile(ivs);
      }
      r := LoadResult(d, wrote);
    }

    /** `createInitialFile()`: writes `'[]'` encoded for the mode; `false` when it throws. */
    method CreateInitialFile(ivs: Entropy) returns (ok: bool)
      modifies file
      ensures var init := InitialText(mode, secretKey, codecs, ivs);
        && (ok <==> init.Some? && !old(file.writeFails))
        && file.content == (if ok then init else old(file.content))
      ensures file.readFails == old(file.readFails) && file.writeFails == old(file.writeFails)
    {
      var init := InitialText(mode, secretKey, codecs, ivs);
      if init.None? {
        return false;
      }
      ok := file.Write(init.value);
    }

    /** `saveData()`: overwrites the file with `data` encoded for the mode; every error is swallowed. */
    method SaveData(ivs: Entropy)
      modifies file
      ensures file.content == SavedContent(data, ivs, old(file.content))
      ensures file.readFails == old(file.readFails) && file.writeFails == old(file.writeFails)
    {
      var t := SaveText(mode, secretKey, codecs, data, ivs);
      if t.Some? {
        var _ := file.Write(t.value);
      }
    }
  }

  // ---------------------------------------------------------------- lemmas

  /** Whatever `saveData` writes, the next `loadData` with the same key reads back as the same records. */
  lemma SaveThenLoad(mode: Mode, key: string, c: Codecs, data: Value, ivs: Entropy)
    requires Lawful(c)
    requires SaveText(mode, key, c, data, ivs).Some?
    ensures Decide(mode, key, c, Text(SaveText(mode, key, c, data, ivs).value)) == Parsed(data)
  {
    var text := c.json.stringify(data, true);
    match mode
    case Plain =>
    case Whole =>
      RoundTrip(text, key, c.aes, ivs([]));
    case PerField =>
      FieldsRoundTrip(data, key, c.aes, ivs);
  }

  /** The file `createInitialFile` writes loads as the empty collection. */
  lemma InitialThenLoad(mode: Mode, key: string, c: Codecs, ivs: Entropy)
    requires Lawful(c)
    requires InitialText(mode, key, c, ivs).Some?
    ensures Decide(mode, key, c, Text(InitialText(mode, key, c, ivs).value)) == Parsed(Arr([]))
  {
    var empty := c.json.stringify(Arr([]), false);
    assert c.json.parse(empty) == Some(Arr([]));
    match mode
    case Plain =>
    case Whole =>
      RoundTrip("[]", key, c.aes, ivs([]));
      assert !IsBlank(empty);
    case PerField =>
      var e := EncryptFields(Arr([]), key, c.aes, ivs).value;
      assert e == Arr([]);
      FieldsRoundTrip(Arr([]), key, c.aes, ivs);
  }

  /**
   * After `loadData` re-initialised the file (a missing, blank or unparsable
   * file), loading again yields `[]` without touching the file: the recovery
   * does not repeat.
   */
  lemma RecoveryIsStable(mode: Mode, key: string, c: Codecs, ivs: Entropy)
    requires Lawful(c)
    requires InitialText(mode, key, c, ivs).Some?
    ensures var d := Decide(mode, key, c, Text(InitialText(mode, key, c, ivs).value));
      !Reinitialises(d) && LoadResult(d, false) == Records(Arr([]))
  {
    InitialThenLoad(mode, key, c, ivs);
  }
}
