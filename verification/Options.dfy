/** An optional value, for the source's null results and error returns. */
module Options {
  datatype Option<T> = None | Some(value: T)
}
