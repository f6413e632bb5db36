/** The optional value used wherever the script gets "no match" or "no value". */
module Wrappers {

  datatype Option<+T> = None | Some(value: T)
}
