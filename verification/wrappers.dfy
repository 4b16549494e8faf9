/** Optional values, used for the result of a document-store lookup and for
    the outcome of decoding a signed token. */
module Wrappers {

  datatype Option<+T> = None | Some(value: T)
}
