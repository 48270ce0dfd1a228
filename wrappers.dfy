/** The optional value the loopers' models share: a device call that can
    fail delivers `Some` result or `None`. */
module Wrappers {
  datatype Option<T> = None | Some(value: T)
}
