/** Octets and the C++ `std::string`, which is a sequence of octets. */
module Bytes {
  type Byte = b: int | 0 <= b < 256
  type ByteString = seq<Byte>

  const DIGIT_0: Byte := 0x30
  const DIGIT_9: Byte := 0x39
  const UPPER_A: Byte := 0x41
  const UPPER_Z: Byte := 0x5A
  const LOWER_A: Byte := 0x61
  const LOWER_F: Byte := 0x66
  const LOWER_Z: Byte := 0x7A
  const HYPHEN: Byte := 0x2D
  const DOT: Byte := 0x2E

  predicate IsDigit(b: Byte) { DIGIT_0 <= b <= DIGIT_9 }

  datatype Option<+T> = None | Some(value: T)
}
