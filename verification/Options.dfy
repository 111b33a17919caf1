/** A value that may be missing, as NULL pointers and failed calls stand for. */
module Options {
  datatype Option<+T> = None | Some(value: T)
}
