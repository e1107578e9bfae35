/** The optional value used wherever the JavaScript code has `undefined`, a missing field or a failed request. */
module Wrappers {
  datatype Option<+T> = None | Some(value: T)
}
