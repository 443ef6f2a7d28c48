/** The absent-or-present value used wherever the source returns `undefined`/`null`. */
module Wrappers {
  datatype Option<+T> = None | Some(value: T)
}
