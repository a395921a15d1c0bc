/** The dynamically typed values that flow through the program (parsed JSON and Python literals). */
module Values {
  import opened Wrappers
  import opened Dicts
  import Text

  datatype Value =
    | Null
    | Bool(b: bool)
    | Int(i: int)
    | Float(r: real)
    | Str(s: string)
    | List(items: seq<Value>)
    | Object(fields: Dict<string, Value>)

  /** Python truthiness, `bool(v)`. */
  predicate Truthy(v: Value) {
    match v
    case Null => false
    case Bool(b) => b
    case Int(i) => i != 0
    case Float(r) => r != 0.0
    case Str(s) => |s| > 0
    case List(items) => |items| > 0
    case Object(fields) => |fields| > 0
  }

  predicate IsNumber(v: Value) {
    v.Bool? || v.Int? || v.Float?
  }

  /** The number a value stands for in a Python comparison (`bool` is a subclass of `int`). */
  function Num(v: Value): (n: Option<real>)
    ensures n.Some? <==> IsNumber(v)
  {
    match v
    case Bool(b) => Some(if b then 1.0 else 0.0)
    case Int(i) => Some(i as real)
    case Float(r) => Some(r)
    case _ => None
  }

  /**
   The text Python's `str()` gives a value. It is spelled out for `None`, booleans,
   integers and strings; for floats, lists and objects it is left as `PyStr(v)`,
   "whatever `str(v)` prints", because IEEE shortest-repr printing is not modelled.
   */
  datatype Rendered = Exact(text: string) | PyStr(v: Value)

  function Show(v: Value): (r: Rendered)
    ensures v.Str? ==> r == Exact(v.s)
    ensures r.PyStr? <==> v.Float? || v.List? || v.Object?
  {
    match v
    case Null => Exact("None")
    case Bool(b) => Exact(if b then "True" else "False")
    case Int(i) => Exact(Text.IntToString(i))
    case Str(s) => Exact(s)
    case _ => PyStr(v)
  }
}
