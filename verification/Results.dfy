/** The value or its absence, for the source's (value, ok) and (value, error) returns. */
module Results {
  datatype Option<+T> = None | Some(value: T)
}
