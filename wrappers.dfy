/** The optional-value type used where the JavaScript code has `null`, `undefined`
    or a not-yet-set sentinel. */
module Wrappers {

  datatype Option<+T> = None | Some(value: T)
}
