/** The absent-or-present wrapper used for every optional link and value. */
module Wrappers {
  datatype Option<+T> = None | Some(value: T)
}
