/** The optional value used wherever the editor's JavaScript returns a match or null. */
module Options {
  datatype Option<+T> = None | Some(value: T)
}
