/** The dynamically typed scalar values the modelled code passes around
    (record field values, configuration leaves, filter values), with Python's
    truthiness and `str()` rendering. */
module Values {

  import opened Text

  datatype Value = VNone | VBool(b: bool) | VInt(i: int) | VStr(s: string)

  /** Python truthiness: `None`, `False`, `0` and `""` are false. */
  predicate Truthy(v: Value)
  {
    match v
    case VNone => false
    case VBool(b) => b
    case VInt(i) => i != 0
    case VStr(s) => s != ""
  }

  /** Python's `str(v)`, which is also what `%s` renders. */
  function Show(v: Value): string
  {
    match v
    case VNone => "None"
    case VBool(b) => if b then "True" else "False"
    case VInt(i) => IntToString(i)
    case VStr(s) => s
  }
}
