/** An optional value: the model's stand-in for a null pointer or a failed conversion. */
module Wrappers {

  datatype Option<+T> = None | Some(value: T)
}
