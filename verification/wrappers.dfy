/** The optional value used for JavaScript's `null`/`undefined` results and for
    request fields that may be absent. */
module Wrappers {

  datatype Option<+T> = None | Some(value: T)
}
