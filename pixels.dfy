/** Bytes of canvas pixel buffers (`Uint8ClampedArray`, four bytes per RGBA pixel). */
module Pixels {
  newtype byte = x: int | 0 <= x < 256
}
