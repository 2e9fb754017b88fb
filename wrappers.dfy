/** The optional value of Swift (`T?`): `None` stands for `nil`. */
module Wrappers {

  datatype Option<+T> = None | Some(value: T)
}
