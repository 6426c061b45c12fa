/** The optional results used by the other modules. */
module Options {

  datatype Option<+T> = None | Some(value: T)
}
