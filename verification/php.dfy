/** The few PHP built-ins the decoder relies on: the value a caller may pass,
    gettype() and empty() on a string. */
module Php {

  /** A PHP value, one variant per PHP type. Floating-point contents are not modelled. */
  datatype PhpValue =
    | Null
    | Bool(b: bool)
    | Int(i: int)
    | Float
    | Str(s: string)
    | Arr(elements: seq<PhpValue>)
    | Obj(className: string)
    | Resource(closed: bool)

  /** PHP's gettype(): the name of the value's type; "string" exactly for strings. */
  function GetType(v: PhpValue): (t: string)
    ensures t == "string" <==> v.Str?
    ensures t != ""
  {
    match v
    case Null => "NULL"
    case Bool(_) => "boolean"
    case Int(_) => "integer"
    case Float => "double"
    case Str(_) => "string"
    case Arr(_) => "array"
    case Obj(_) => "object"
    case Resource(closed) => if closed then "resource (closed)" else "resource"
  }

  /** PHP's empty() applied to a string: true for "" and also for "0". */
  predicate IsEmpty(s: string)
  {
    s == "" || s == "0"
  }
}
