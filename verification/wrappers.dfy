/** The optional value used for storage reads and scan results. */
module Wrappers {

  /** A value that may be absent, as a storage read or a search result may be. */
  datatype Option<+T> = None | Some(value: T)
}
