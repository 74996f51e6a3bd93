/** The optional value used for Mongo lookups that may find nothing, for the
    optional reset-token field and for a bcrypt hash that may fail. */
module Wrappers {

  datatype Option<+T> = None | Some(value: T)
}
