/** A missing value of a table cell (pandas' NaN / None). */
module Wrappers {
  datatype Option<+T> = None | Some(value: T)
}
