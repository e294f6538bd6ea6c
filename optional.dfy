/** Swift's Optional, for the manager's `String?` fields and lookups. */
module Optional {

  datatype Option<+T> = None | Some(value: T)
}
