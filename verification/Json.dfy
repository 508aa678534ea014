/** JSON documents. Objects are sorted maps without duplicate keys, so a map is what they are. */
module Json {
  import opened Wrappers

  datatype Value =
    | Null
    | Bool(b: bool)
    | Number(lexeme: string)
    | String(text: string)
    | Array(items: seq<Value>)
    | Object(fields: Fields)

  type Fields = map<string, Value>

  /** `value.get(key)` with a string key: only an object has one. */
  function Get(value: Value, key: string): Option<Value> {
    if value.Object? && key in value.fields then Some(value.fields[key]) else None
  }

  /** `value.get(key).and_then(Value::as_str)`. */
  function GetText(value: Value, key: string): Option<string> {
    match Get(value, key)
    case Some(String(text)) => Some(text)
    case _ => None
  }

  /** The array at `key` of an object (`None` when absent or something else). */
  function GetItems(value: Value, key: string): Option<seq<Value>> {
    match Get(value, key)
    case Some(Array(items)) => Some(items)
    case _ => None
  }

  /** The object at `key`, `{}` when absent or not an object. */
  function ObjectAt(fields: Fields, key: string): Fields {
    if key in fields && fields[key].Object? then fields[key].fields else map[]
  }

  /** The array at `key`, `[]` when absent or not an array. */
  function ItemsAt(fields: Fields, key: string): seq<Value> {
    if key in fields && fields[key].Array? then fields[key].items else []
  }
}
