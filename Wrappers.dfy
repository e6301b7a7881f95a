/** A value that may be missing: pandas' NaN for a baseline nobody learned yet. */
module Wrappers {
  datatype Option<+T> = None | Some(value: T)
}
