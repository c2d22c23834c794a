/** A value that may be missing: the scripts' None, and the operations that fail. */
module Options {

  datatype Option<+T> = None | Some(value: T)
}
