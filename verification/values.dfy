/** The untyped values a validator receives, as a tagged union, and their
    conversion to a string as JavaScript's `String(value)` performs it. */
module Values {
  import opened JsText

  /** A JavaScript value. Numbers are integral; `Obj` is a plain object. */
  datatype Value =
    | Null
    | Undefined
    | Str(s: string)
    | Num(n: int)
    | Bool(b: bool)
    | Arr(items: seq<Value>)
    | Obj(fields: seq<(string, Value)>)

  /** The declared semantic type of an attribute (`FieldType`). */
  datatype FieldType = StringType | NumberType | ArrayType

  /** The data under validation: attribute name to value. */
  type Data = map<string, Value>

  /** `data[attribute]`: a missing attribute reads as `undefined`. */
  function Lookup(data: Data, attribute: string): (v: Value)
    ensures attribute !in data ==> v == Undefined
    ensures attribute in data ==> v == data[attribute]
  {
    if attribute in data then data[attribute] else Undefined
  }

  /** `String(v)`. An array renders as its elements joined with commas, a
      `null` or `undefined` element rendering as the empty string; a plain
      object renders as `[object Object]`. */
  function ToStr(v: Value): (r: string)
    ensures v.Str? ==> r == v.s
    ensures v.Arr? && v.items == [] ==> r == ""
    ensures v.Arr? && |v.items| == 1 && v.items[0].Str? ==> r == v.items[0].s
    decreases v, 1
  {
    match v
    case Null => "null"
    case Undefined => "undefined"
    case Str(s) => s
    case Num(n) => IntToDecimal(n)
    case Bool(b) => if b then "true" else "false"
    case Arr(items) => Join(items)
    case Obj(_) => "[object Object]"
  }

  /** `items.join(',')`. */
  function Join(items: seq<Value>): string
    decreases items, 0
  {
    if items == [] then ""
    else
      var head := if items[0].Null? || items[0].Undefined? then "" else ToStr(items[0]);
      if |items| == 1 then head else head + "," + Join(items[1..])
  }
}
