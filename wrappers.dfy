/** The optional value used for "no course from this line" and "the file could not be opened". */
module Wrappers {
  datatype Option<+T> = None | Some(value: T)
}
