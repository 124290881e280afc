/** The JavaScript values that flow through `transfer`: the literal
    descriptors, the values transform callbacks resolve to, and the values a
    persist callback resolves to. */
module Js {

  /** A JavaScript primitive as used by the engine: a string or a boolean. */
  datatype JsValue = Str(s: string) | Bool(b: bool)

  /** A thrown JavaScript `Error`, identified by its message. */
  datatype Error = Error(message: string)

  /** The string a template literal `${v}` produces for `v`. */
  function Stringify(v: JsValue): (s: string)
    ensures v.Str? ==> s == v.s
    ensures v.Bool? ==> (s == "true" <==> v.b)
    ensures v.Bool? ==> s == (if v.b then "true" else "false")
  {
    match v
    case Str(t) => t
    case Bool(true) => "true"
    case Bool(false) => "false"
  }
}
