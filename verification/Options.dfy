/** A value or its absence: what a NULL pointer or an error return carries in C. */
module Options {
  datatype Option<+T> = None | Some(value: T)
}
