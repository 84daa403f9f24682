/** A value that may be missing: NULL pointers, undefined, and searches that find nothing. */
module Options {

  datatype Option<+T> = None | Some(value: T)
}
