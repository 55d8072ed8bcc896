/** The optional value used for nullable columns and absent query parameters. */
module Wrappers {
  datatype Option<+T> = None | Some(value: T)
}
