/** Shared vocabulary of the backend model: optional values, the JavaScript
    values that arrive in request bodies, and their truthiness. */
module Common {

  datatype Option<T> = None | Some(value: T)

  /** A field of a JSON request body as the handlers see it: a number, NaN,
      a string, or missing (`null` / `undefined`). */
  datatype Value = Number(x: real) | NaN | Text(s: string) | Absent

  /** JavaScript truthiness, as used by the `!field` validations. */
  predicate Truthy(v: Value)
  {
    match v
    case Number(x) => x != 0.0
    case NaN => false
    case Text(s) => s != ""
    case Absent => false
  }

  /** Truthiness of an optional string field. */
  predicate Present(s: Option<string>)
  {
    s.Some? && s.value != ""
  }

  /** `s || fallback` for an optional string field. */
  function OrElse(s: Option<string>, fallback: string): (r: string)
    ensures Present(s) ==> r == s.value
    ensures !Present(s) ==> r == fallback
  {
    if Present(s) then s.value else fallback
  }

  /** User ids come from a SERIAL column, so they start at 1 and are truthy. */
  type UserId = n: int | n >= 1 witness 1
}
