/** The optional value used for every nullable cell of the catalog. */
module Wrappers {

  /** A cell that is either missing (pandas NaN / NaT) or holds a value. */
  datatype Option<+T> = None | Some(value: T)
}
