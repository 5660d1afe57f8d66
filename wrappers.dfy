/** Option, used for lookups that may miss and decodings that may fail. */
module Wrappers {

  datatype Option<+T> = None | Some(value: T)
}
