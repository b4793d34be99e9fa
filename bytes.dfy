/** The element type of the typed arrays the generator writes:
    `Uint8Array` and the `Uint8ClampedArray` behind `ImageData.data`. */
module Bytes {

  type Byte = x: int | 0 <= x < 256
}
