/** Values that may be missing: NULL pointers, absent elements and -1 results of the C code. */
module Options {
  datatype Option<T> = None | Some(value: T)
}
