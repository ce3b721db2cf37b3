/** The "no value" result the controller uses in place of Python's None. */
module Optional {

  datatype Option<+T> = None | Some(value: T)
}
