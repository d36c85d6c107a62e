/** The optional value TypeScript writes as `T | null`. */
module Wrappers {

  datatype Option<+T> = None | Some(value: T)
}
