/**
 * The store's configuration (`config.ini`, section `[db]`): whether and how the
 * data file is encrypted, and the secret key, generated and saved when none is
 * configured.
 */
module KeyConfig {
  import opened Wrappers
  import opened Props
  import opened Hex
  import opened Cipher
  import opened Ini
  import opened Files

  /** How the data file is encoded. */
  datatype Mode = Plain | Whole | PerField

  /**
   * The `[db]` settings as `readConfig` returns them.  A secret key that is
   * `undefined`, `null` or any other falsy value is the empty string.
   */
  datatype Config = Config(encrypt: bool, encryptionMethod: IniVal, secretKey: string)

  /** `defaultConfig.db`: encrypted, whole-file, no key. */
  const DefaultConfig: Config := Config(true, IStr("whole"), "")

  /** A configured key as the code uses it: its text when truthy, no key otherwise. */
  function KeyText(v: Option<IniVal>): string {
    if IniTruthy(v) then IniString(v.value) else ""
  }

  /** The settings a parsed configuration file yields. */
  function ConfigOf(doc: Doc): (c: Config)
    ensures c.encrypt <==> Entry(doc, "db", "encrypt") == Some(IStr("yes"))
    ensures IniTruthy(Some(c.encryptionMethod))
    ensures !IniTruthy(Entry(doc, "db", "encryptionMethod")) ==> c.encryptionMethod == IStr("whole")
    ensures IniTruthy(Entry(doc, "db", "encryptionMethod")) ==> c.encryptionMethod == Entry(doc, "db", "encryptionMethod").value
    ensures forall s :: Entry(doc, "db", "secretKey") == Some(IStr(s)) ==> c.secretKey == s
    ensures !IniTruthy(Entry(doc, "db", "secretKey")) ==> c.secretKey == ""
  {
    var m := Entry(doc, "db", "encryptionMethod");
    Config(Entry(doc, "db", "encrypt") == Some(IStr("yes")),
           if IniTruthy(m) then m.value else IStr("whole"),
           KeyText(Entry(doc, "db", "secretKey")))
  }

  /** `readConfig()`: the parsed file's settings, or the defaults when the file cannot be read. */
  function ReadConfig(r: Reading, ini: IniCodec): (c: Config)
    ensures !r.Text? ==> c == DefaultConfig
    ensures r.Text? ==> c == ConfigOf(ini.parse(r.s))
  {
    if r.Text? then ConfigOf(ini.parse(r.s)) else DefaultConfig
  }

  /** The mode the module-level `isEncrypted` and `encryptionMethod` select. */
  function ModeOf(c: Config): (m: Mode)
    ensures m == Plain <==> !c.encrypt
    ensures m == Whole <==> c.encrypt && c.encryptionMethod == IStr("whole")
  {
    if !c.encrypt then Plain
    else if c.encryptionMethod == IStr("whole") then Whole
    else PerField
  }

  // ---------------------------------------------------------------- ensureSecretKey

  /** The configuration object `ensureSecretKey` starts from: the parsed file, or `{}` when there is none. */
  function ConfigDoc(content: Option<string>, ini: IniCodec): Doc {
    if content.None? then [] else ini.parse(content.value)
  }

  /** `db` is a truthy plain value, on which setting `secretKey` is silently ignored. */
  predicate ScalarDb(doc: Doc) {
    var n := Lookup(doc, "db");
    n.Some? && n.value.Leaf? && IniTruthy(Some(n.value.v))
  }

  /** `existingConfig.db = existingConfig.db || {}; existingConfig.db.secretKey = key`. */
  function WithSecretKey(doc: Doc, key: string): (r: Doc)
    ensures !ScalarDb(doc) ==> Entry(r, "db", "secretKey") == Some(IStr(key))
    ensures ScalarDb(doc) ==> r == doc
    ensures forall s :: s != "db" ==> Lookup(r, s) == Lookup(doc, s)
  {
    var n := Lookup(doc, "db");
    if n.Some? && n.value.Section? then Set(doc, "db", Section(Set(n.value.entries, "secretKey", IStr(key))))
    else if ScalarDb(doc) then doc
    else Set(doc, "db", Section([("secretKey", IStr(key))]))
  }

  /**
   * The text `ensureSecretKey` writes for a new key, or `None` when reading the
   * existing configuration throws first.
   */
  function KeyUpdate(content: Option<string>, readFails: bool, ini: IniCodec, key: string): Option<string> {
    if content.Some? && readFails then None
    else Some(ini.stringify(WithSecretKey(ConfigDoc(content, ini), key)))
  }

  /** The key `ensureSecretKey` settles on, given the configuration file as it stands before the call. */
  function ResolvedKey(cfg: Config, explicitKey: string, content: Option<string>, readFails: bool, writeFails: bool,
                       ini: IniCodec, random: KeyBytes): string {
    if explicitKey != "" then explicitKey
    else if cfg.secretKey != "" then cfg.secretKey
    else if KeyUpdate(content, readFails, ini, HexEncode(random)).Some? && !writeFails then HexEncode(random)
    else ""
  }

  /** The configuration file's content once `ensureSecretKey` has run. */
  function ConfigAfter(cfg: Config, explicitKey: string, content: Option<string>, readFails: bool, writeFails: bool,
                       ini: IniCodec, random: KeyBytes): Option<string> {
    var text := KeyUpdate(content, readFails, ini, HexEncode(random));
    if explicitKey == "" && cfg.secretKey == "" && text.Some? && !writeFails then text else content
  }

  /**
   * `ensureSecretKey(secretKey)` with the module-level settings `cfg` and the 32
   * random bytes it would draw.  An explicit or configured key is returned as it
   * is; otherwise a new key is saved to the configuration file and returned, or,
   * when reading or writing that file throws, no key is returned.
   */
  method EnsureSecretKey(cfg: Config, explicitKey: string, file: File, random: KeyBytes, ini: IniCodec)
    returns (key: string)
    modifies file
    ensures explicitKey != "" ==> key == explicitKey && file.content == old(file.content)
    ensures explicitKey == "" && cfg.secretKey != "" ==> key == cfg.secretKey && file.content == old(file.content)
    ensures explicitKey == "" && cfg.secretKey == "" ==>
      var text := KeyUpdate(old(file.content), old(file.readFails), ini, HexEncode(random));
      if text.Some? && !old(file.writeFails) then key == HexEncode(random) && file.content == text
      else key == "" && file.content == old(file.content)
    ensures explicitKey == "" && cfg.secretKey == "" ==> key == "" || ValidKey(key)
    ensures key == ResolvedKey(cfg, explicitKey, old(file.content), old(file.readFails), old(file.writeFails), ini, random)
    ensures file.content == ConfigAfter(cfg, explicitKey, old(file.content), old(file.readFails), old(file.writeFails), ini, random)
    ensures file.readFails == old(file.readFails) && file.writeFails == old(file.writeFails)
  {
    if explicitKey != "" {
      return explicitKey;
    }
    if cfg.secretKey != "" {
      return cfg.secretKey;
    }
    var newKey := HexEncode(random);
    GeneratedKeyIsValid(random);
    var doc: Doc := [];
    if file.Exists() {
      var r := file.Read();
      if !r.Text? {
        return "";
      }
      doc := ini.parse(r.s);
    }
    var ok := file.Write(ini.stringify(WithSecretKey(doc, newKey)));
    key := if ok then newKey else "";
  }

  /**
   * A generated key that `ensureSecretKey` saved is the key the next `readConfig`
   * of that file yields, and it is one AES-256 accepts.
   */
  lemma GeneratedKeyPersists(doc: Doc, random: KeyBytes, ini: IniCodec)
    requires Ini.Lawful(ini)
    requires !ScalarDb(doc)
    ensures ReadConfig(Text(ini.stringify(WithSecretKey(doc, HexEncode(random)))), ini).secretKey == HexEncode(random)
    ensures ValidKey(ReadConfig(Text(ini.stringify(WithSecretKey(doc, HexEncode(random)))), ini).secretKey)
  {
    var key := HexEncode(random);
    assert HexToken(key);
    GeneratedKeyIsValid(random);
  }
}
