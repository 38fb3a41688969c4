/** The result of an operation of the reference models that may raise an exception or return nothing. */
module Options {
  datatype Option<+T> = None | Some(value: T)
}
