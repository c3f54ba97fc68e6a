/** A value that may be missing: a blank spreadsheet cell or a date that does not parse. */
module Wrappers {

  datatype Option<T> = None | Some(value: T)
}
