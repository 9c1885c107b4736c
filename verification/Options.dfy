/** The usual optional value, standing for std::optional and for lookups that may miss. */
module Options {
  datatype Option<+T> = None | Some(value: T)
}
