/** The optional value used throughout the model: JavaScript's `null` or
    `undefined` is `None`, a present value is `Some`. */
module Wrappers {

  datatype Option<+T> = None | Some(value: T)
}
