/** The optional value returned by `Array.prototype.find` and carried by nullable fields. */
module Opt {
  datatype Option<T> = None | Some(value: T)
}
