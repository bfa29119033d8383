/** The optional value of the ledger model: a column that may be NULL, a
    lookup that may find nothing. */
module Wrappers {
  datatype Option<+T> = None | Some(value: T)
}
