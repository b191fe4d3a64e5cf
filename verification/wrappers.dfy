/** An optional value, for "the first record with this host, if any". */
module Wrappers {

  datatype Option<+T> = None | Some(value: T)
}
