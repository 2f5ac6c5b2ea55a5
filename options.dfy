/** The optional value used for a file that may fail to open. */
module Options {
  datatype Option<+T> = None | Some(value: T)
}
