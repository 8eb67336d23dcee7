/** Small value types shared by the modules of the button driver model. */
module Wrappers {

  /** An optional value: JavaScript's `undefined` on one side, a value on the other. */
  datatype Option<+T> = None | Some(value: T)

  /** One octet of a USB transfer buffer (an element of a Node `Buffer`). */
  newtype byte = x: int | 0 <= x < 256
}
