/** The optional value used for spreadsheet cells that may be missing and
    for Python values that may be `None`. */
module Wrappers {

  datatype Option<+T> = None | Some(value: T)
}
