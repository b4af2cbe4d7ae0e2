/** The optional value that the codec returns where the source returns `Option`
    or stops with `unreachable!()`. */
module Wrappers {

  datatype Option<+T> = None | Some(value: T)
}
