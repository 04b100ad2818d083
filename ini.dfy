/** INI documents as the `ini` package parses them. */
module Ini {
  import opened Wrappers
  import opened Props
  import opened Text

  /** A value: a string, `true`/`false` (which the parser turns into booleans), or a `key[]` list. */
  datatype IniVal = IStr(s: string) | IBool(b: bool) | IList(xs: seq<string>)

  /** A top-level entry: a `[section]` of key/value pairs, or a key/value pair outside any section. */
  datatype IniNode = Leaf(v: IniVal) | Section(entries: Props<IniVal>)

  /** A parsed document, in the order its keys were first met. */
  type Doc = Props<IniNode>

  /** JavaScript truthiness of a value read from a document; `None` is `undefined`. */
  predicate IniTruthy(v: Option<IniVal>) {
    match v
    case None => false
    case Some(IStr(s)) => s != ""
    case Some(IBool(b)) => b
    case Some(IList(_)) => true
  }

  /** `String(v)`: a list joins its items with commas. */
  function IniString(v: IniVal): string {
    match v
    case IStr(s) => s
    case IBool(b) => if b then "true" else "false"
    case IList(xs) => Join(xs, ',')
  }

  /** `doc[section][key]`: `undefined` unless `doc[section]` is a section holding `key`. */
  function Entry(doc: Doc, section: string, key: string): (r: Option<IniVal>)
    ensures r.Some? ==> exists es :: Lookup(doc, section) == Some(Section(es)) && Lookup(es, key) == r
  {
    var n := Lookup(doc, section);
    if n.Some? && n.value.Section? then Lookup(n.value.entries, key) else None
  }

  /** A non-empty run of hexadecimal digits: text that INI writes and reads back verbatim. */
  predicate HexToken(s: string) {
    |s| > 0 && forall i :: 0 <= i < |s| ==> IsDigitIn(s[i], 16)
  }

  /** The INI text codec: `ini.parse` (which never throws) and `ini.stringify`. */
  datatype IniCodec = IniCodec(parse: string -> Doc, stringify: Doc -> string)

  /**
   * What the model assumes of the codec: a section entry whose value is a
   * hexadecimal token survives writing the document out and parsing it back.
   */
  ghost predicate Lawful(c: IniCodec) {
    forall doc, section, key, s ::
      HexToken(s) && Entry(doc, section, key) == Some(IStr(s)) ==>
        Entry(c.parse(c.stringify(doc)), section, key) == Some(IStr(s))
  }
}
