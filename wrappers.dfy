/** The optional value that stands for Java's nullable results and for decoders that may fail. */
module Wrappers {
  datatype Option<+T> = None | Some(value: T)
}
