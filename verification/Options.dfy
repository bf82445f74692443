/** A value that may be missing: a null pointer, or a match that was not found. */
module Options {

  datatype Option<+T> = None | Some(value: T)
}
