/** Python's `None`-or-value results (a failed `strptime`, a regex that does not match). */
module Wrappers {
  datatype Option<T> = None | Some(value: T)
}
