/** Values that may be missing. */
module Options {
  datatype Option<T> = None | Some(value: T)

  /** How a computation ends: with a value, with the code's own error, or where the C++
      standard leaves the behaviour undefined. */
  datatype Outcome<T> = Done(value: T) | Failed | Undefined
}
