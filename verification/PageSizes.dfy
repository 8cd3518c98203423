/** Page and block sizes of the page allocator (kernel/include/mm/page.h). */
module PageSizes {
  import opened Arithmetic

  const PAGE_SIZE: nat := 4096
  const PAGE_NSIZES: nat := 8
  const TOP: nat := 7

  /** The bytes of a block of order `k`. */
  function Size(k: nat): nat { PAGE_SIZE * Pow2(k) }
}
