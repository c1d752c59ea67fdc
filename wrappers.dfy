/** The absent-or-present result the store's lookups return (`undefined` or a value). */
module Wrappers {
  datatype Option<+T> = None | Some(value: T)
}
