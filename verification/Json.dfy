/** Parsed JSON documents, as json.loads returns them. */
module Json {
  datatype Value =
    | Null
    | Bool(flag: bool)
    | Int(n: int)
    | Float(r: real)
    | Str(s: string)
    | Arr(items: seq<Value>)
    | Obj(fields: map<string, Value>)

  type Fields = map<string, Value>

  /** dict.get: a missing key reads as null. */
  function Get(o: Fields, key: string): Value {
    if key in o then o[key] else Null
  }

  /** The members of an object, or no members when the value is not an object. */
  function FieldsOf(v: Value): Fields {
    if v.Obj? then v.fields else map[]
  }

  /** The text of a string value; every other value reads as the empty text, which no
      digest, media type or platform name equals. */
  function Text(v: Value): string {
    if v.Str? then v.s else ""
  }
}
