/** The optional value that stands for a nullable pointer or a missing result. */
module Opt {
  datatype Option<T> = None | Some(value: T)
}
