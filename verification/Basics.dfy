/** The stock optional value. In the dispatch modules `None` is the default handler
    (or the `false` result of a type dispatch). */
module Options {
  datatype Option<+T> = None | Some(value: T)
}

module Bytes {
  newtype byte = b: int | 0 <= b < 256
}
