/** The optional value used for pandas' missing markers (NaN, NaT, None). */
module Wrappers {
  datatype Option<+T> = None | Some(value: T)
}
