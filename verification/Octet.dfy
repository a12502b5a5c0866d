/** Bytes as numbers. */
module Octet {
  type octet = x: int | 0 <= x < 256
}
