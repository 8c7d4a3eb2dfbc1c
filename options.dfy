/** The optional value that stands for the source's nullable pointers. */
module Options {
  datatype Option<+T> = None | Some(value: T)
}
