/** The optional value the client's helpers return where Python returns a value or `None`. */
module Options {

  datatype Option<+T> = None | Some(value: T)

}
