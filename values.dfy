/** The JavaScript values the content code reads: what JSON.parse gives for
    a manifest and what the front-matter parser gives for an entry's
    fields. A property that is not there (undefined) is None where a property
    is read. Numbers are integers here. */
module Values {
  import opened Wrappers
  import opened Text

  datatype Value =
    | Null
    | Bool(b: bool)
    | Number(n: int)
    | Str(s: string)
    | Arr(items: seq<Value>)
    | Obj(fields: map<string, Value>)

  /** The values a condition treats as true: all but null, false, 0 and "". */
  predicate Truthy(v: Value) {
    !(v.Null? || v == Bool(false) || v == Number(0) || v == Str(""))
  }

  /** An optional value read as a condition; undefined is false. */
  predicate Present(v: Option<Value>) {
    v.Some? && Truthy(v.value)
  }

  /** v?.name: the property of an object, undefined for anything else. */
  function Property(v: Value, name: string): (r: Option<Value>)
    ensures r.Some? <==> v.Obj? && name in v.fields
    ensures r.Some? ==> r.value == v.fields[name]
  {
    if v.Obj? && name in v.fields then Some(v.fields[name]) else None
  }

  /** Lookup in an object's own field map (front-matter data). */
  function Get(data: map<string, Value>, name: string): Option<Value> {
    if name in data then Some(data[name]) else None
  }

  /** a ?? b: a unless it is null or undefined. */
  function Coalesce(a: Option<Value>, b: Option<Value>): (r: Option<Value>)
    ensures r == a || r == b
    ensures r == a <==> a == b || (a.Some? && !a.value.Null?)
  {
    if a.Some? && !a.value.Null? then a else b
  }

  /** a || b: a when it is truthy, b otherwise. */
  function Or(a: Option<Value>, b: Option<Value>): (r: Option<Value>)
    ensures Present(a) ==> r == a
    ensures !Present(a) ==> r == b
  {
    if Present(a) then a else b
  }

  /** String(v). An array prints its elements joined by commas, with null
      printed as the empty string; an object prints as "[object Object]". */
  function ToJsString(v: Value): string
    decreases v, 1
  {
    match v
    case Null => "null"
    case Bool(b) => if b then "true" else "false"
    case Number(n) => IntToString(n)
    case Str(s) => s
    case Arr(items) => Join(ElementStrings(items), ",")
    case Obj(_) => "[object Object]"
  }

  function ElementStrings(items: seq<Value>): (r: seq<string>)
    ensures |r| == |items|
    decreases items, 0
  {
    if items == [] then []
    else [if items[0].Null? then "" else ToJsString(items[0])] + ElementStrings(items[1..])
  }
}
