/**
 * The JavaScript values the utility layer manipulates: a property that is
 * either `undefined` or a string, with JavaScript's truthiness and its two
 * different string conversions (template literal and `Array.prototype.join`).
 */
module JsValues {

  datatype Option<+T> = None | Some(value: T)

  /** A property read from a JavaScript object: absent (`undefined`) or a string. */
  datatype Value = Undefined | Str(s: string)

  /** JavaScript truthiness of such a property: a non-empty string. */
  predicate Truthy(v: Value)
  {
    v.Str? && v.s != ""
  }

  /** Conversion used by template literals and `String.prototype.replace`. */
  function ToText(v: Value): string
  {
    match v
    case Undefined => "undefined"
    case Str(s) => s
  }

  /** Conversion used by `Array.prototype.join`: `undefined` becomes the empty string. */
  function JoinText(v: Value): string
  {
    match v
    case Undefined => ""
    case Str(s) => s
  }
}
