/** The optional value used for the results of decoders that can fail. */
module Wrappers {
  datatype Option<+T> = None | Some(value: T)
}
