/** Kernel configuration constants used by the memory-management core. */
module Config {

  /** Bytes in one page. */
  const PAGE_SIZE: nat := 4096

  /** Bits of the in-page offset: PAGE_SIZE == 2^PAGE_SIZE_BITS. */
  const PAGE_SIZE_BITS: nat := 12
}
