/** Types that several models share. */
module Basics {

  datatype Option<T> = None | Some(value: T)

  type Byte = x: nat | x < 0x100
}
