/** The usual optional value, for the error returns of the modelled code. */
module Options {
  datatype Option<+T> = None | Some(value: T)
}
