/** A value that may be missing: the model's form of a null pointer or an error return. */
module Options {
  datatype Option<+T> = None | Some(value: T)
}
