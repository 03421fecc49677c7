/** The optional value used wherever the source returns `npos` or may not produce a result. */
module Wrappers {

  datatype Option<+T> = None | Some(value: T)

}
