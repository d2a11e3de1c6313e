/** What several parts of the kernel share: optional results, the machine word, the page. */
module Common {
  datatype Option<+T> = None | Some(value: T)

  const TWO64: nat := 0x1_0000_0000_0000_0000

  /** `uint64_t` and `size_t`. */
  type word = x: nat | x < TWO64

  const PAGE_SIZE: nat := 4096

  /** VFS_MAX_NAME_LEN. */
  const NAME_MAX: nat := 256
}
