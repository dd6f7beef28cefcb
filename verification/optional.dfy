/** The optional value used for Python's `None` results and for raised exceptions. */
module Optional {

  datatype Option<+T> = None | Some(value: T)

}
