/** An unsigned char / uint8_t: the unit of files, images and the FPGA's pixel port. */
module Bytes {
  newtype byte = b: int | 0 <= b < 0x100
}
