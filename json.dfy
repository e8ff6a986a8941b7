/** The JSON values a request body carries, and the text JavaScript's
    String() gives them. Numbers are integers here; only safe integers
    (magnitude below 2^53) are written the way JavaScript writes them. */
module JsonValues {
  import opened Optional
  import opened Numerals

  datatype Json = Undefined | Null | Boolean(b: bool) | Number(n: int) | Text(s: string)

  /** String(v). */
  function JsString(v: Json): (r: string)
    ensures v.Text? ==> r == v.s
    ensures v.Number? && SafeInteger(v.n) ==> ParseInt(r) == Some(v.n)
  {
    match v
    case Undefined => "undefined"
    case Null => "null"
    case Boolean(b) => if b then "true" else "false"
    case Number(n) => ParseIntOfIntToString(n); IntToString(n)
    case Text(s) => s
  }
}
