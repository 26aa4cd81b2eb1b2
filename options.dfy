/** Python's `None`-or-value, as used for the sampling rate and for parses that may fail. */
module Options {
  datatype Option<T> = None | Some(value: T)
}
