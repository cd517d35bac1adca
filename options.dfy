/** The optional value used throughout the model for "no match" / "absent field". */
module Options {
  datatype Option<T> = None | Some(value: T)
}
