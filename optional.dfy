/** The optional value used for the C code's nullable pointers. */
module Optional {

  datatype Option<+T> = None | Some(value: T)
}
