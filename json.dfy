/**
 * JSON values as the store keeps them in memory, JavaScript's coercions on
 * them, and the JSON text codec (`JSON.stringify` / `JSON.parse`), which is
 * foreign to the model and is passed in as a pair of functions.
 */
module Json {
  import opened Wrappers
  import opened Props
  import opened Text

  /** A JSON value.  Numbers are integers in this model; objects keep insertion order. */
  datatype Value =
    | Str(s: string)
    | Num(n: int)
    | Bool(b: bool)
    | Null
    | Obj(fields: Props<Value>)
    | Arr(items: seq<Value>)

  /** The key/value list of a record (a JSON object). */
  type Fields = Props<Value>

  /** JavaScript truthiness of a property read; `None` is `undefined`. */
  predicate Truthy(v: Option<Value>) {
    match v
    case None => false
    case Some(Str(s)) => s != ""
    case Some(Num(n)) => n != 0
    case Some(Bool(b)) => b
    case Some(Null) => false
    case Some(Obj(_)) => true
    case Some(Arr(_)) => true
  }

  /** `String(x)` of a property read; `None` is `undefined`. */
  function ToJsString(v: Option<Value>): string {
    match v
    case None => "undefined"
    case Some(x) => ValueString(x)
  }

  function ValueString(v: Value): string
    decreases v, 1
  {
    match v
    case Str(s) => s
    case Num(n) => IntToString(n)
    case Bool(b) => if b then "true" else "false"
    case Null => "null"
    case Obj(_) => "[object Object]"
    case Arr(xs) => ElementsString(v, 0)
  }

  /** `String(array)`: the elements' strings joined by commas, `null` elements as empty. */
  function ElementsString(v: Value, i: nat): string
    requires v.Arr? && i <= |v.items|
    decreases v, 0, |v.items| - i
  {
    if i == |v.items| then ""
    else
      var e := if v.items[i] == Null then "" else ValueString(v.items[i]);
      if i + 1 == |v.items| then e else e + "," + ElementsString(v, i + 1)
  }

  /** `record[k]` on an element of a collection: an object's property, `undefined` otherwise. */
  function Prop(v: Value, k: string): (r: Option<Value>)
    ensures v.Obj? ==> r == Lookup(v.fields, k)
    ensures !v.Obj? ==> r.None?
  {
    match v
    case Obj(fs) => Lookup(fs, k)
    case _ => None
  }

  /**
   * The JSON text codec.  `stringify(v, pretty)` is `JSON.stringify(v)` or, when
   * `pretty`, `JSON.stringify(v, null, 2)`; `parse` is `JSON.parse`, `None` being
   * its `SyntaxError`.
   */
  datatype JsonCodec = JsonCodec(stringify: (Value, bool) -> string, parse: string -> Option<Value>)

  /**
   * What the model assumes of the codec: parsing the text of a value gives the
   * value back, that text is never blank, and the compact text of `[]` is `[]`.
   * The first is an idealisation for objects with a repeated key, which
   * `JSON.parse` cannot produce.
   */
  ghost predicate Lawful(c: JsonCodec) {
    && (forall v, pretty :: c.parse(c.stringify(v, pretty)) == Some(v))
    && (forall v, pretty :: !IsBlank(c.stringify(v, pretty)))
    && c.stringify(Arr([]), false) == "[]"
  }
}
