# everywhere: the JSON record store and the two reverse proxies, in Dafny

This project models the server-side core of *everywhere*:

- **`JsonDB`** (`backend/db/db_core.js`) keeps one data file holding a JSON array of records. The file is plain, encrypted as a whole with AES-256-CBC, or has every string field encrypted on its own.
  - The settings come from the `[db]` section of `config.ini`.
  - A secret key is generated and saved there when none is given.
  - `loadData` recovers from a missing, blank or unparsable file by writing an initial `[]`.
- **`GenericDB`** (`backend/jsondb/db.js`) is a collection of records on top of one `JsonDB`.
  - It merges the author's schema with the built-in rules for `string`, `number` and `boolean`.
  - It validates records against the merged schema: defaults, `required`, type, pattern, length, the 64-digit number limit and `unique`.
  - It generates ids. It implements `create`, `findById`, `update`, `delete` and `getAll` as read-modify-write cycles over the file.
- **The path-prefix proxy** (`backend/proxy/main.js`) builds a path map from the sections of `config.ini` and checks the `[main]` section. It forwards each request to the local port of the first path the URL starts with, with that path removed.
- **The host proxy** (`backend/proxy/http.js`) spreads the `[server]`, `[proxy]` and `[https]` sections over their defaults. It listens on each configured host. It relays each request, URL unchanged, to the `protocol:host:port` target of the first matching source prefix.

Modules, one per file:

- **Support:**
  - `Wrappers` holds `Option`.
  - `Props` models JavaScript objects as ordered key/value lists: property read, assignment and spread.
  - `Text` models `indexOf`, `replace`, `split`, `String(n)` and `parseInt`.
  - `Hex` models `Buffer`'s hexadecimal form.
  - `Json` holds values, coercions and the JSON text codec.
  - `Ini` holds parsed `config.ini` documents and the `ini` codec.
  - `Files` is one file on disk.
- **The store:**
  - `Cipher` models `encryptData` and `decryptData`.
  - `FieldCodec` models `encryptFields` and `decryptFields`.
  - `KeyConfig` models `readConfig` and `ensureSecretKey`.
  - `Store` is the `JsonDB` class.
- **The collection:**
  - `Schema` models `builtInRules` and `mergeRules`.
  - `Validation` models `validate`.
  - `Collection` is the `GenericDB` class and its decision functions.
- **The proxies:** `ProxyMain` models `main.js`; `ProxyHttp` models `http.js`.

Foreign code is passed in as values whose laws are stated as ghost predicates:

- **The AES block cipher.** Deciphering with the same key and IV inverts enciphering.
- **`JSON.stringify`/`JSON.parse`.**
  - Parsing a value's text gives the value back. This is assumed for every value, including an object with a repeated key, which JavaScript never holds (see "## Left out").
  - That text is never blank.
  - `[]` prints as `[]`.
- **The `ini` package.** It is used as `parse`/`stringify`.
- **`RegExp.prototype.test`.**

Randomness is a parameter:

- the 32 key bytes;
- an `Entropy` function giving the IV for each enciphered string by its position in the data.

Files are `Files.File` objects. A file has a content (absent when the file does not exist) and flags that make reading or writing it fail.

Where the code and its description differ, the model follows the code:

- **Blank file, whole-file encryption.** An empty or blank data file with whole-file encryption is not re-initialised. Deciphering a blank text throws first, and `loadData` takes its generic error path, which returns `[]` and leaves the file alone (`Store.Decide`).
- **Failed key write.** When the new secret key cannot be written to `config.ini`, `ensureSecretKey` returns no key at all (`KeyConfig.EnsureSecretKey`), not the generated one.
- **Config file without `[db]`.** A configuration file that exists but has no `[db]` section turns encryption off. `encrypt` is only true for `yes`.
- **Stale in-memory array.** `create` pushes the new record onto the in-memory `this.db.data` (possibly stale), not onto the array it just loaded and checked for duplicates. `Collection.CreateThenFind` states the outcome when the two agree.
- **Duplicate ids on update.** `update` does not check the new id against the other records, so two records can end up sharing an id (`Collection.UpdateCanDuplicateId`).
- **Inherited type names.** A schema type is looked up as a property of `builtInRules`, so names inherited from `Object.prototype` (`toString`, `constructor`, …) are accepted. A field of such a type then fails validation whenever it holds a value (`Schema.FieldType.TOther`).

## Model

| member | source | states |
|---|---|---|
| `Props.Set` | backend/proxy/main.js:31-34 | after `o[k] = v`, `k` reads as `v`, every other key reads as before, an existing key keeps its place and a new key is appended; distinct keys stay distinct |
| `Props.Spread` | backend/jsondb/db.js:221 | `{...a, ...b}` keeps the keys of `a` distinct |
| `Props.SpreadLookup` | backend/proxy/http.js:23-36 | a read of `{...a, ...b}` gives `b`'s value when `b` has the key and `a`'s otherwise |
| `Text.Find` | backend/proxy/main.js:108 | `indexOf` gives a position where the pattern occurs and no earlier one; `None` only when it occurs nowhere |
| `Text.StripPrefix` | backend/proxy/main.js:108 | replacing a pattern the string starts with removes exactly that prefix |
| `Text.Split` | backend/proxy/http.js:43 | `split` gives at least one part, no part holds the separator, and a string without it is its own only part |
| `Text.JoinSplit` | backend/proxy/http.js:43 | joining the parts of a split with the separator gives the string back |
| `Text.SplitJoin` | backend/proxy/http.js:50 | splitting parts joined by a separator they do not contain gives the parts back |
| `Text.NatToString` | backend/jsondb/db.js:173 | `String(n)` is a non-empty run of decimal digits with no leading zero except for 0 itself |
| `Text.ParseIntOfDecimal` | backend/jsondb/db.js:170 | `parseInt` reads `String(n)` back as `n`, with or without a radix |
| `Hex.HexEncode` | backend/db/db_core.js:72 | `toString('hex')` has two hexadecimal digits per byte |
| `Hex.HexDecode` | backend/db/db_core.js:104 | `Buffer.from(s, 'hex')` gives at most one byte per two characters |
| `Hex.HexRoundTrip` | backend/db/db_core.js:107-113 | decoding the hexadecimal form of bytes gives the bytes back |
| `Cipher.EncryptData` | backend/db/db_core.js:102-108 | encryption succeeds exactly when the key decodes to 32 bytes, and its output starts with the IV's 32 hexadecimal digits |
| `Cipher.DecryptData` | backend/db/db_core.js:111-123 | decryption succeeds only with a 32-byte key and a blob whose first 32 characters decode to a 16-byte IV |
| `Cipher.RoundTrip` | backend/db/db_core.js:102-123 | with a usable key, `decryptData(encryptData(d))` is `d` |
| `Cipher.ShortBlobFails` | backend/db/db_core.js:113-117 | a blob shorter than 32 characters never decrypts |
| `Cipher.GeneratedKeyIsValid` | backend/db/db_core.js:71-73 | a key generated as 32 random bytes in hexadecimal is one AES-256 accepts |
| `FieldCodec.EncryptFields` | backend/db/db_core.js:126-145 | `encryptFields` throws exactly when the key is unusable and some string sits under a non-`id` key; otherwise the result has the input's shape, `id` values untouched |
| `FieldCodec.DecryptFields` | backend/db/db_core.js:148-167 | with an unusable key `decryptFields` succeeds exactly when there is nothing to decipher; a result always has the input's shape |
| `FieldCodec.FieldsRoundTrip` | backend/db/db_core.js:126-167 | per-field decryption undoes per-field encryption with the same key, for every value |
| `Files.File.Read` | backend/db/db_core.js:190 | a read gives the content, `ENOENT` exactly when the file is missing, and another error when reading fails |
| `Files.File.Write` | backend/db/db_core.js:251 | a write replaces the whole content, or throws and changes nothing |
| `KeyConfig.ConfigOf` | backend/db/db_core.js:50-54 | `encrypt` is true exactly for `yes`; `encryptionMethod` falls back to `whole` when falsy and is kept as given when truthy; a string key is taken as it is and a falsy one is no key |
| `KeyConfig.ReadConfig` | backend/db/db_core.js:46-63 | an unreadable or missing file gives the defaults (encrypted, whole, no key); a readable one its parsed settings |
| `KeyConfig.ModeOf` | backend/db/db_core.js:191-192 | plain exactly when `encrypt` is off; whole-file exactly when on and the method is `whole`; per-field otherwise |
| `KeyConfig.WithSecretKey` | backend/db/db_core.js:85-86 | the new key is stored under `[db]` unless `db` is a truthy plain value; no other section changes |
| `KeyConfig.EnsureSecretKey` | backend/db/db_core.js:76-94 | an explicit or configured key wins and leaves the file alone; otherwise the new key is written and returned, or, when reading or writing throws, no key is returned and the file is unchanged; the key and the file's new content are those `KeyConfig.ResolvedKey` and `KeyConfig.ConfigAfter` give for the file as it was |
| `KeyConfig.GeneratedKeyPersists` | backend/db/db_core.js:76-94 | a key `ensureSecretKey` saved is what the next `readConfig` yields, and AES-256 accepts it |
| `Store.InitialText` | backend/db/db_core.js:228-237 | the initial text is `[]` in plain mode, and producing it fails exactly in whole-file mode with an unusable key |
| `Store.SaveText` | backend/db/db_core.js:239-255 | saving fails exactly when the key is unusable and there is something to encipher |
| `Store.Decide` | backend/db/db_core.js:182-226 | the file counts as missing (E001) exactly when reading reports `ENOENT`; any other read error fails; in plain mode the file counts as blank (E002) exactly when its text is blank; in whole-file mode a text shorter than an IV fails to decipher; per-field mode never counts a file as blank; a text that deciphers (whole-file) or parses (per-field) but whose fields do not decipher fails; the file is corrupt exactly when its text (plain, per-field) or deciphered text (whole-file) is non-blank and does not parse as JSON; in whole-file mode it counts as blank (E002) exactly when it deciphers to blank text; a text that parses loads as its parsed value, deciphered first in whole-file mode and field by field in per-field mode; only a readable text loads |
| `Store.LoadResult` | backend/db/db_core.js:212-225 | `loadData` throws only when a `SyntaxError` could not be repaired; parsed records are returned as they are, every other path returns `[]` |
| `Store.JsonDB.constructor` | backend/db/db_core.js:171-180 | the key and `config.ini` end as `ensureSecretKey` leaves them, the data file is re-initialised exactly when `loadData` would, and `data` holds the parsed records or `[]` |
| `Store.JsonDB.LoadData` | backend/db/db_core.js:182-226 | the result and the file's new content are those of the recovery rules applied to the file as it was |
| `Store.JsonDB.CreateInitialFile` | backend/db/db_core.js:228-237 | the initial text is written exactly when it can be produced and the write succeeds |
| `Store.JsonDB.SaveData` | backend/db/db_core.js:239-255 | the file holds the encoded `data` when encoding and writing succeed, and is unchanged otherwise |
| `Store.SaveThenLoad` | backend/db/db_core.js:182-255 | whatever `saveData` wrote loads back, with the same key, as the same records, in every mode |
| `Store.InitialThenLoad` | backend/db/db_core.js:228-237 | the initial file loads as the empty collection in every mode |
| `Store.RecoveryIsStable` | backend/db/db_core.js:182-226 | after a re-initialisation the next load returns `[]` without re-initialising again |
| `Schema.MergeIsSpread` | backend/jsondb/db.js:83-86 | for a built-in rule, the merged rule is the spread `{ ...builtInRule, ...fieldConfig }` read back as a rule: every attribute the author gives overrides, the rest come from the built-in rule, and `required`/`unique` come from the author alone since no built-in rule has them |
| `Schema.MergeRules` | backend/jsondb/db.js:71-89 | merging succeeds exactly when every field's type is known; otherwise it names the first field of unknown type; a merged schema has the same keys in the same order, each with its merged rule |
| `Schema.MergeFrom` | backend/jsondb/db.js:73-87 | the loop from field `i` on appends one merged rule per field and stops at the first unknown type |
| `Schema.RuleForStock` | backend/jsondb/db.js:79 | a property read in a table of stock rules finds a stock rule |
| `Schema.BuiltInDefaults` | backend/jsondb/db.js:42-57 | every built-in rule is optional, not unique, unpatterned, with `''`, `0` or `false` as its default |
| `Schema.MergedDefaults` | backend/jsondb/db.js:76-86 | a field without a type is a string field; a field of a built-in type always has a default, the type's own when the author gives none |
| `Validation.Validate` | backend/jsondb/db.js:91-162 | a valid record came from data of at most ten distinct keys and keeps every value the data gave |
| `Props.KeyCount` | backend/jsondb/db.js:93 | `Object.keys({...data}).length` counts each key once: at most the number of entries, at least one for a non-empty object, and exactly the number of entries when the keys are distinct |
| `Validation.CheckUnlisted` | backend/jsondb/db.js:97-160 | with records that are not an array, the loop reaches the verdict any records would give, unless it gets to a unique field's duplicate check, where `some` throws; that needs a unique field |
| `Validation.ValidateUnlisted` | backend/jsondb/db.js:91-162 | `validate` against records that are not an array either agrees with `validate` against any records or throws, which needs at most ten keys and a unique field |
| `Validation.ValidateMeaning` | backend/jsondb/db.js:91-162 | validation succeeds exactly when the data has at most ten keys and every field is accepted (optional and empty, or non-null, well-typed, within its pattern and bounds, and not another record's unique value), and then returns the data with the defaults filled in |
| `Validation.CheckFromMeaning` | backend/jsondb/db.js:97-160 | the field-by-field steps of the loop chain into its answer: valid with the filled data exactly when every remaining step passes |
| `Validation.FilledStep` | backend/jsondb/db.js:98-159 | one turn of the loop passes on exactly when its field is accepted as read after its default is in place |
| `Validation.CheckStep` | backend/jsondb/db.js:99-159 | one turn of the loop: the field is read after its default is filled in, and either passes on or returns E015 |
| `Validation.CheckFromKeeps` | backend/jsondb/db.js:101-104 | the loop only adds keys: every value the record had survives into the result |
| `Validation.FilledExtends` | backend/jsondb/db.js:101-104 | filling keeps the data's values, gives an absent schema field its default, and leaves other keys alone |
| `Validation.OtherKeysUntouched` | backend/jsondb/db.js:92 | a key the schema does not name keeps the data's value |
| `Validation.UniqueFieldExclusive` | backend/jsondb/db.js:110-116 | in a valid record a required field holds a non-null value, and a unique field's value is held by no record with another id |
| `Validation.AbsentFieldGetsDefault` | backend/jsondb/db.js:101-104 | with a merged schema, a field of a built-in type that the data lacks receives its default |
| `Collection.MaxIdUpTo` | backend/jsondb/db.js:169-172 | the `reduce` gives a bound on every parsed id that is either 0 or one of the ids |
| `Collection.FindIndex` | backend/jsondb/db.js:214 | `findIndex` gives the first record whose `String(id)` is the id, or none when no record has it |
| `Collection.FindIn` | backend/jsondb/db.js:205 | `find` gives a record with the id exactly when one exists, and it is the first record with that id |
| `Collection.CreateIn` | backend/jsondb/db.js:164-201 | the record is rejected exactly when validation fails; refused as a duplicate (E009) exactly when it validates with an id a loaded record has; created exactly when it validates, its id is new and the in-memory data is an array, and then it is appended to that array |
| `Collection.UpdateIn` | backend/jsondb/db.js:212-234 | `update` finds nothing exactly when no record has the id; it is refused exactly when the first record with the id, merged with the update, fails validation; otherwise exactly that record is replaced by the validated merge |
| `Collection.DeleteIn` | backend/jsondb/db.js:236-249 | `delete` finds nothing exactly when no record has the id; otherwise exactly the first record with it is removed and the others keep their order |
| `Collection.GeneratedIdIsFresh` | backend/jsondb/db.js:168-174 | with unbounded integer ids, the generated id is no loaded record's id |
| `Collection.PreFilledKeeps` | backend/jsondb/db.js:176-181 | filling defaults in `create` keeps every value the record already had |
| `Collection.CreateAssignsId` | backend/jsondb/db.js:168-174 | a created record keeps a truthy id it was given and otherwise carries the generated id; with unbounded integer ids, a record created without an id is never refused as a duplicate |
| `Collection.CreateThenFind` | backend/jsondb/db.js:191-200 | when memory and file agree, the created record is appended after the unchanged others and finding its id returns it |
| `Collection.UpdateFrame` | backend/jsondb/db.js:220-229 | a successful update changes only the found record, which holds the update's values and otherwise its old ones |
| `Collection.DeleteThenFind` | backend/jsondb/db.js:236-249 | deleting the only record with an id leaves no record with that id |
| `Collection.UpdateCanDuplicateId` | backend/jsondb/db.js:212-234 | an update can give a record another record's id, leaving two records with the same id |
| `Collection.GenericDB.Create` | backend/jsondb/db.js:164-201 | `create` throws when loading throws; with records that are not an array it throws when the record has no truthy id, and otherwise fills the defaults in place and returns `null` when validation fails, throwing in every other case; with an array the record gets its id and defaults in place and the outcome is `CreateIn`'s; the file is saved only for a created record |
| `Collection.GenericDB.FillDefaults` | backend/jsondb/db.js:177-181 | the loop gives every absent optional field its default, in place |
| `Collection.GenericDB.FindById` | backend/jsondb/db.js:203-210 | `findById` returns the first loaded record with the id, or `undefined` |
| `Collection.GenericDB.Update` | backend/jsondb/db.js:212-234 | `update` returns whether `UpdateIn` updated; only then are `data` and the file replaced |
| `Collection.GenericDB.Delete` | backend/jsondb/db.js:236-249 | `delete` returns whether `DeleteIn` removed a record; only then are `data` and the file replaced |
| `Collection.GenericDB.GetAll` | backend/jsondb/db.js:251-255 | `getAll` returns what `loadData` returns |
| `Collection.Open` | backend/jsondb/db.js:59-68 | more than ten fields is refused before any file is touched; otherwise the store is opened, leaving `config.ini` as `ensureSecretKey` does and the data file re-initialised exactly when `loadData` would, then an unknown type is reported, else the collection holds the merged rules, the resolved key and the loaded records or `[]` |
| `ProxyMain.GeneratePathMap` | backend/proxy/main.js:26-38 | the loop builds the path map section by section |
| `ProxyMain.PathMapLookup` | backend/proxy/main.js:28-36 | the map holds a path exactly when a non-`main` section with a truthy port and entry has that entry, and holds the last such section's route |
| `ProxyMain.PathMapWellFormed` | backend/proxy/main.js:30-34 | the map's keys are distinct and every route is stored under its own entry |
| `ProxyMain.LastRouteEntry` | backend/proxy/main.js:30-33 | the route found for a path has that path as its entry |
| `ProxyMain.HandleRequest` | backend/proxy/main.js:75-108 | 404 `Not Found` exactly when no path prefixes the URL; otherwise the first such path's route, with its entry removed from the URL |
| `ProxyMain.ForwardStripsPrefix` | backend/proxy/main.js:108 | in a path map, the forwarded path is the URL without exactly the matched prefix |
| `ProxyMain.ValidateMainConfig` | backend/proxy/main.js:134-149 | E002 exactly without a truthy main section; E003 exactly without a protocol; E004 and E005 exactly for `https` without a certificate or key, in that order; other protocols need neither |
| `ProxyMain.ListenPort` | backend/proxy/main.js:194 | 443 exactly for `https`, 80 otherwise |
| `ProxyMain.Start` | backend/proxy/main.js:164-201 | an unreadable configuration is E001; then the main section's check; then E006 when the `https` certificates cannot be read; otherwise the server listens with the path map, on 443 exactly when secure |
| `ProxyHttp.IndexKeysDistinct` | backend/proxy/http.js:26 | the index keys spreading a string or list produces are distinct |
| `ProxyHttp.FinalizeLookup` | backend/proxy/http.js:23-36 | in every section of the final configuration a key the file gives takes the file's value and every other key keeps its default |
| `ProxyHttp.Hosts` | backend/proxy/http.js:41-43 | a list of hosts is kept; a non-empty string is split on `;` into parts that join back to it; a falsy value gives `localhost`; only `true` throws |
| `ProxyHttp.ParseTarget` | backend/proxy/http.js:50 | the protocol is the target text up to the first `:` (all of it when there is none); a text without `:` is a protocol with host `localhost` and no port |
| `ProxyHttp.ParseTargetOfParts` | backend/proxy/http.js:50 | `protocol:host:port` reads back as its three parts |
| `ProxyHttp.ParseTargetIgnoresRest` | backend/proxy/http.js:50 | segments after the third are ignored: `protocol:host:port:rest` reads as `protocol:host:port` |
| `Text.SplitCons` | backend/proxy/http.js:50 | a leading part without the separator comes off `split` as its first part |
| `ProxyHttp.ParseTargetWithoutPort` | backend/proxy/http.js:50 | `protocol:host` reads back with no port |
| `ProxyHttp.FindTarget` | backend/proxy/http.js:46-55 | no target exactly when no source prefixes the path; otherwise the first such source's target, which throws when it is not a string |
| `ProxyHttp.Serve` | backend/proxy/http.js:65-79 | 404 `No mapping found for this path` exactly when no source matches; a relayed request keeps its URL and goes to the target's host and port, over `https` exactly when its protocol is `https` |
| `ProxyHttp.ListenPort` | backend/proxy/http.js:97 | 443 exactly when the server protocol is `https`, 80 otherwise |
| `ProxyHttp.DefaultsWithoutServer` | backend/proxy/http.js:7-17 | without a `[server]` section the proxy listens on port 80 on `localhost` only |

## Left out

- Logging (`winston`, `console`), the message tables and the `status_codes` module are left out. Error codes stand for the messages the code throws or logs.
- The network is left out: sockets, piping request and response bodies, response headers, TLS options, and the 500 answer of a failed upstream request. A request is reduced to its URL, and a reply to where it would be sent.
- `http.js` reads `config.ini` and the certificate files with `fs`. The parsed configuration is a parameter, a missing file's exception is not modelled, and the certificate paths are not followed.
- `main.js` reads the certificate and key with `readCertAndKey`; the model reduces this to one flag, `certsReadable`.
- Data file paths are left out: `path.join(__dirname, …)` and the file name made from the class name. Each `JsonDB` has one `File`.
- AES, `JSON.stringify`/`JSON.parse`, the `ini` package and regular expressions are foreign. An invalid pattern, which makes `new RegExp` throw, is not modelled.
- `Json.Lawful` idealises the JSON codec. It asks that parsing gives back every value, including an object with a repeated key. `JSON.parse` keeps only the last of repeated keys, so no real codec meets it for such values. `Store.SaveThenLoad` therefore speaks only to records whose objects have distinct keys, the only ones a JavaScript program can hold.
- Integer-like keys come first in JavaScript's object iteration order. Objects in the model keep plain insertion order everywhere.
- Numbers are unbounded integers. Floating point is left out, and so are `NaN`, `Infinity`, exponent notation in `String(n)` and the 64-digit limit's interaction with them.
- Lengths are counted in characters, not UTF-16 code units.
- A stored element that is not an object is read as having no properties, and `null` records are not distinguished. A `null` record would make the JavaScript `find` callbacks throw.
- `Collection.UpdateIn`: when the found record is a string, JavaScript spreads its characters into the new record; the model spreads nothing.
- `Collection.PreFilled` skips a field without a default. JavaScript would assign it an `undefined` value, which JSON then drops.
- `mergeRules` writes `type = 'string'` back into the caller's schema object; the model does not.
- A secret key given as a `key[]` list in `config.ini` is not modelled.
- A JavaScript id of another type is compared through `String(id)`; the model takes the id as that string.
- `Collection.GeneratedIdIsFresh` holds for unbounded integers only. In JavaScript `maxId + 1` is a double, so once a stored id reaches 2^53 the generated id equals it; every create without an id is then refused (E009) and returns `null`.
- `Collection.CreateAssignsId` says a record created without an id is never refused as a duplicate. That also holds for unbounded integers only, for the reason above.
- Field names inherited from `Object.prototype` are not modelled. `Validation.CheckFrom` reads a field as absent when the data lacks it. In JavaScript a schema field named `constructor` reads the inherited function and fails the type check. `FieldCodec.WalkEntries` copies every entry. In JavaScript an entry named `__proto__` sets the prototype in `encryptFields`/`decryptFields`, and its key is lost.
