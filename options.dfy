/** The usual optional-value wrapper, shared by the game models. */
module Options {
  datatype Option<T> = None | Some(value: T)
}
