/** What the modules share: a value that may be absent (std::optional, a null pointer, npos), and the
    byte. */
module Wrappers {

  datatype Option<+T> = None | Some(value: T)

  type byte = x: int | 0 <= x < 256
}
