/** An optional value: `None` stands for an absent one, such as JavaScript's `undefined` for a
    missing code point or a `number` that is not an integer. */
module Wrappers {

  datatype Option<+T> = None | Some(value: T)
}
