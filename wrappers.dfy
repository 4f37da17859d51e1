/** The optional value used for "no team chosen yet" in the greedy fill. */
module Wrappers {

  datatype Option<+T> = None | Some(value: T)
}
