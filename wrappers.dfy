/** A value that may be absent: the model of a Java reference that may be null,
    and of java.util.Optional. */
module Wrappers {
  datatype Option<+T> = None | Some(value: T)
}
