/** The result of a search. */
module Options {
  datatype Option<T> = None | Some(value: T)
}
