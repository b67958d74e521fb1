/** A value that a database row or a lookup may not have: JavaScript's
    `null`/`undefined` next to a present value. */
module Wrappers {

  datatype Option<+T> = None | Some(value: T)
}
