/** Octets, as produced by `atob` (a "binary string" whose code units are all below 256). */
module Bytes {

  type byte = b: int | 0 <= b < 256
}
