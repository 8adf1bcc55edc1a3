/** The nullable values of the source (`null`, a missing key) as a datatype. */
module Optional {
  datatype Option<+T> = None | Some(value: T)
}
