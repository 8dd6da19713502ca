/** `unsigned char`, the byte type shared by the encoders and the image
    buffers. */
module Bytes {
  type Byte = x: int | 0 <= x < 256
}
