/** The optional value returned for a component that may be absent. */
module Optional {

  datatype Option<T> = None | Some(value: T)
}
