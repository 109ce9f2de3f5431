/** The optional values of the source: a field of a record that may be
    absent (`description?: string`) and a DOM lookup that may find nothing. */
module Wrappers {

  datatype Option<+T> = None | Some(value: T)
}
