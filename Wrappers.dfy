/** The optional-value wrapper used for fields a spreadsheet row may lack. */
module Wrappers {
  datatype Option<+T> = None | Some(value: T)
}
