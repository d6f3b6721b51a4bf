/** The optional value shared by the map lookup, the percent-decoder and the
    pages: `None` where JavaScript gives `undefined` or a decoder gives up. */
module Wrappers {
  datatype Option<T> = None | Some(value: T)
}
