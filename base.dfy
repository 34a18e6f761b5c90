// Fixed-width integer types shared by every part of the model, and the
// optional result used for the source's failable initialisers.
module Base {

  /** Swift's UInt8, UInt16 and UInt64: unsigned, with wrapping `&+`, `&<<`. */
  type UInt8 = bv8
  type UInt16 = bv16
  type UInt64 = bv64

  /** Swift's Int64 (the clock's seconds and nanoseconds components). */
  type Int64 = x: int | -0x8000_0000_0000_0000 <= x < 0x8000_0000_0000_0000

  /** The ASCII hyphen, the group separator of the text form. */
  const Hyphen: UInt8 := 0x2D

  /** A Swift optional: `nil` is None. */
  datatype Option<T> = None | Some(value: T)
}
