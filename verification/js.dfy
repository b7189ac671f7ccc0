/** The few JavaScript value conventions the two webhook servers rely on. */
module Js {

  /** A value that may be `undefined`. */
  datatype Option<+T> = None | Some(value: T)

  /** The exception classes Node raises on the paths modelled here. */
  datatype JsError =
    | TypeError   // a value that is not a Buffer passed to `Hmac.update`
    | RangeError  // buffers of different byte length passed to `crypto.timingSafeEqual`

  /** How a call ended: it returned a value, or it threw. */
  datatype Outcome<+T> = Returned(value: T) | Threw(error: JsError)

  /** JavaScript truthiness of a string that may be `undefined`: both `undefined` and "" are falsy. */
  predicate Truthy(s: Option<string>)
  {
    s.Some? && s.value != ""
  }

  /** `s || ""` for a string that may be `undefined`. */
  function OrEmpty(s: Option<string>): string
  {
    if Truthy(s) then s.value else ""
  }
}
