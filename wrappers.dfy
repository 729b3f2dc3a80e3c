// Optional values: a JSON key that is present or absent, a dialog that
// returned a path or was cancelled.

module Wrappers {

  datatype Option<T> = None | Some(value: T)
}
