/** The optional value returned by the parsers of the store. */
module Options {

  datatype Option<+T> = None | Some(value: T)

}
