/** Limits of the format, from jpeglib.h. */
module JpegLimits {
  const DCTSIZE2 := 64
  const NUM_HUFF_TBLS := 4
  const MAX_COMPS_IN_SCAN := 4
  const MAX_BLOCKS_IN_MCU := 10
  const MAX_COMPONENTS := 10

  /** The first of the eight restart markers. */
  const RST0 := 0xD0

  /** Codes below that of the first frame header are no markers. */
  const SOF0 := 0xC0
}
