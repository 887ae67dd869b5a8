/** JSON values as `JSON.parse` returns them, property access and JavaScript truthiness. */
module JsonValues {

  datatype Option<+T> = None | Some(value: T)

  /** A JSON value. Numbers are kept as exact decimals. */
  datatype Value =
    | JNull
    | JBool(b: bool)
    | JNumber(n: real)
    | JString(s: string)
    | JArray(items: seq<Value>)
    | JObject(fields: map<string, Value>)

  /** One element of an import file: a JSON object. */
  type Record = map<string, Value>

  /** Property access `item.name`; `None` stands for `undefined`. */
  function Get(r: Record, name: string): Option<Value>
  {
    if name in r then Some(r[name]) else None
  }

  /** JavaScript ToBoolean of a property value: `undefined`, `null`, `false`, zero and "" are falsy. */
  predicate Truthy(v: Option<Value>)
  {
    match v
    case None => false
    case Some(JNull) => false
    case Some(JBool(b)) => b
    case Some(JNumber(n)) => n != 0.0
    case Some(JString(s)) => s != ""
    case Some(_) => true
  }
}
