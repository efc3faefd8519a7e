/** The optional value used for lookups that may find nothing and for the
    outcome of the description generator, which may fail. */
module Optional {

  datatype Option<+T> = None | Some(value: T)
}
