/** The eight-bit values the driver, its devices and its callers exchange. */
module Bytes {
  type byte = bv8
}
