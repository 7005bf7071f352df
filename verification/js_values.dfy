/**
 * Cell values as they arrive from the MySQL driver in JSON, and result rows as JavaScript
 * objects keyed by column name.
 */
module JsValues {
  import opened JsStrings

  /** The JSON values a result cell can hold; numbers are integral here. */
  datatype Value = Null | Undefined | Num(n: int) | Text(s: string) | Bool(b: bool)

  /** A result row: column name to value (`Object.values` order is immaterial to the model). */
  type Row = map<string, Value>

  /** `row[key]`, which is `undefined` for a missing key. */
  function Get(row: Row, key: string): Value {
    if key in row then row[key] else Undefined
  }

  /** `String(v)` */
  function ToString(v: Value): string {
    match v
    case Null => "null"
    case Undefined => "undefined"
    case Num(n) => IntToString(n)
    case Text(s) => s
    case Bool(b) => if b then "true" else "false"
  }
}
