/** The optional value used for Python's `None`, for `dict.get` and for "skip this record". */
module Wrappers {

  datatype Option<+T> = None | Some(value: T)
}
