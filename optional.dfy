/** An optional value: a C function pointer that may be NULL, or its result. */
module Optional {
  datatype Option<+T> = None | Some(value: T)
}
