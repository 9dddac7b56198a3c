/** The conventional None/Some datatype. */
module Optional {
  datatype Option<+T> = None | Some(value: T)
}
