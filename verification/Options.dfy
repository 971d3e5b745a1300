/** A value or its absence, for results that the source gives as NULL or None. */
module Options {
  datatype Option<T> = None | Some(value: T)
}
