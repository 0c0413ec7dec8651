/** What a computation with no result in some cases gives. */
module Options {
  datatype Option<+T> = None | Some(value: T)
}
