/** The JSON values that the generation backend returns and that the store
    receives as question records. Only integral numbers are represented. */
module Json {
  import opened Wrappers
  import Text

  datatype Value =
    | Null
    | Bool(b: bool)
    | Num(n: int)
    | Str(s: string)
    | Arr(items: seq<Value>)
    | Obj(fields: map<string, Value>)

  /** Python's `d.get(key)` on a dictionary: `None` when the key is absent. */
  function Get(fields: map<string, Value>, key: string): (r: Option<Value>)
    ensures r.Some? <==> key in fields
    ensures r.Some? ==> r.value == fields[key]
  {
    if key in fields then Some(fields[key]) else None
  }

  /** Python's `int(v)` on a decoded JSON value: numbers pass through,
      booleans become 0 or 1, strings are parsed as decimal integers, and
      `None` stands for the `TypeError` or `ValueError` raised otherwise. */
  function ToInt(v: Value): (r: Option<int>)
    ensures v.Num? ==> r == Some(v.n)
    ensures v.Bool? ==> r == Some(if v.b then 1 else 0)
    ensures v.Str? ==> r == Text.ParseInt(v.s)
    ensures v.Null? || v.Arr? || v.Obj? ==> r.None?
  {
    match v
    case Num(n) => Some(n)
    case Bool(b) => Some(if b then 1 else 0)
    case Str(s) => Text.ParseInt(s)
    case _ => None
  }
}
