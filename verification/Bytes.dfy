/** Bytes as the C code sees them through unsigned char. */
module Bytes {
  type Byte = bv8
}
