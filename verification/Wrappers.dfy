/** What several of the modules use: a value that may be absent (the source's NULL), and bytes. */
module Wrappers {
  datatype Option<+T> = None | Some(value: T)

  type Byte = x: nat | x < 256
}
