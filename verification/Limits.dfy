/** Limits of the machine and of the C library that several parts share. */
module Limits {
  /** The size of a path buffer, terminator included. */
  const PATH_MAX: nat := 4096

  /** 64-bit words wrap around. */
  const WORD: nat := 0x1_0000_0000_0000_0000
}
