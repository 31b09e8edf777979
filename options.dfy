/** An optional value: a search that may find nothing, a selection that may be empty. */
module Options {
  datatype Option<T> = None | Some(value: T)
}
