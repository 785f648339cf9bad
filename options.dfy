/** The optional result the scripts express with Python's `None`. */
module Options {

  datatype Option<+T> = None | Some(value: T)

}
