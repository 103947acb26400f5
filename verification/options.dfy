/** The Some/None datatype used in place of a Java reference that may be null. */
module Options {

  datatype Option<+T> = None | Some(value: T)
}
