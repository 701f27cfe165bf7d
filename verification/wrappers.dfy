/** The optional value shared by every module: a missing database row, an
    absent form field, a day name that is not recognised. */
module Wrappers {

  datatype Option<T> = None | Some(value: T)
}
