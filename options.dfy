/** The optional value used where the source gets `None`, NaN or an exception-free "no value". */
module Options {
  datatype Option<T> = None | Some(value: T)
}
