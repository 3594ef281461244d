/**
  JavaScript values as the Cloud Functions of the recipe backend see them:
  request bodies, Firestore documents and the fields inside them.
 */
module Values {

  datatype Option<T> = None | Some(value: T)

  /** A JSON-like JavaScript value. Numbers are modelled as integers only. */
  datatype Value =
    | Undefined
    | Null
    | Bool(b: bool)
    | Num(n: int)
    | Str(s: string)
    | Arr(items: seq<Value>)
    | Obj(fields: map<string, Value>)

  /** A Firestore document: its fields by name. */
  type Doc = map<string, Value>

  /** JavaScript truthiness, `Boolean(v)` (NaN and -0 are not modelled). */
  predicate Truthy(v: Value) {
    match v
    case Undefined => false
    case Null => false
    case Bool(b) => b
    case Num(n) => n != 0
    case Str(s) => s != ""
    case Arr(_) => true
    case Obj(_) => true
  }

  /** Property access `v[key]` on a value that is neither undefined nor null:
      an object's own field, the `length` of a string or an array, and
      `undefined` for everything else. */
  function Get(v: Value, key: string): Value {
    match v
    case Obj(m) => if key in m then m[key] else Undefined
    case Str(s) => if key == "length" then Num(|s|) else Undefined
    case Arr(a) => if key == "length" then Num(|a|) else Undefined
    case _ => Undefined
  }

  /** A document field, `undefined` when the document lacks it. */
  function Field(d: Doc, key: string): Value {
    if key in d then d[key] else Undefined
  }
}
