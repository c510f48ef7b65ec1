/** The value json.loads returns, as far as the pipeline looks at it. */
module JsonValue {

  /** A parsed JSON document. A number is kept as mantissa * 10^exponent, enough
      to tell zero (falsy in Python) from every other number. */
  datatype Json =
    | JNull
    | JBool(b: bool)
    | JNum(mantissa: int, exponent: int)
    | JStr(str: string)
    | JArr(elems: seq<Json>)
    | JObj(fields: map<string, Json>)

  /** Python's truth value of the decoded document: None, False, zero and the
      empty string, list and dict are false, everything else is true. */
  predicate Truthy(j: Json) {
    match j
    case JNull => false
    case JBool(b) => b
    case JNum(m, _) => m != 0
    case JStr(s) => s != ""
    case JArr(a) => a != []
    case JObj(f) => f != map[]
  }
}
