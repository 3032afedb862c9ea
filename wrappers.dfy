/** The optional value used for absent JSON fields, absent metadata and failed host calls. */
module Wrappers {
  datatype Option<+T> = None | Some(value: T)
}
