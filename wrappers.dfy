/** The optional value used for JSON fields that may be absent and for query results. */
module Wrappers {

  datatype Option<+T> = None | Some(value: T)
}
