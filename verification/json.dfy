/** The decoded page configuration as `json.loads` returns it, and the two
    Python operations the caption parser applies to such values: truthiness
    (`not x`) and membership (`key in x`). Decoding itself is not modelled. */
module Json {
  import opened Errors
  import opened Text

  datatype Value =
    | Null
    | Bool(b: bool)
    | Number(n: real)
    | String(s: string)
    | Array(items: seq<Value>)
    | Object(fields: map<string, Value>)

  /** Python truthiness of a decoded value: `None`, `False`, zero and the
      empty string, list and dict are false. */
  function Truthy(v: Value): (r: bool)
    ensures !r <==> v in {Null, Bool(false), Number(0.0), String(""), Array([]), Object(map[])}
  {
    match v
    case Null => false
    case Bool(b) => b
    case Number(n) => n != 0.0
    case String(s) => |s| > 0
    case Array(items) => |items| > 0
    case Object(fields) => |fields| > 0
  }

  /** `key in v`: a dict tests its keys, a list its elements, a string its
      substrings; any other value raises `TypeError`. */
  function HasKey(v: Value, key: string): (r: Result<bool>)
    ensures r.Err? <==> v.Null? || v.Bool? || v.Number?
    ensures r.Err? ==> r.error == UnexpectedResponseShape
    ensures v.Object? ==> r == Ok(key in v.fields)
  {
    match v
    case Object(fields) => Ok(key in fields)
    case Array(items) => Ok(String(key) in items)
    case String(s) => Ok(Contains(s, key))
    case _ => Err(UnexpectedResponseShape)
  }

  /** `v.get(key, default)` on a dict. */
  function Get(fields: map<string, Value>, key: string, default: Value): (r: Value)
    ensures key in fields ==> r == fields[key]
    ensures key !in fields ==> r == default
  {
    if key in fields then fields[key] else default
  }
}
