/** The Option datatype used by the decoders and by payload lookup. */
module Wrappers {

  datatype Option<+T> = None | Some(value: T)
}
