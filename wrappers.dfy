/** The optional value used for the combiner's "skip this cell" outcomes. */
module Wrappers {
  datatype Option<T> = None | Some(value: T)
}
