/** The optional value returned by operations that can refuse. */
module Options {
  datatype Option<+T> = None | Some(value: T)
}
