/** The optional value the game uses for a buffered turn that may be absent. */
module Options {

  datatype Option<T> = None | Some(value: T)
}
