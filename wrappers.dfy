/** The optional value used for JSON fields that a request body may omit
    and for lookups that may find nothing. */
module Wrappers {

  datatype Option<+T> = None | Some(value: T)
}
