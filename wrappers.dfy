/**
 * Option value for a mean with no defined value: numpy's `masked` when cells exist
 * but none is valid, and `nan` when there is no cell at all.
 */
module Wrappers {
  datatype Option<+T> = None | Some(value: T)
}
