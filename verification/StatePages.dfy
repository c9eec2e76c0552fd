/** Pages of the state file, and the constants that size the file and the mapped memory. */
module StatePages {
  import opened Basics

  const PAGE_SIZE: nat := 4096

  type Page = p: seq<byte> | |p| == PAGE_SIZE witness Zeros(PAGE_SIZE)

  /** What a page reads as before anything was written to it. */
  const ZERO_PAGE: Page := Zeros(PAGE_SIZE)

  const GB: nat := 1024 * 1024 * 1024

  const META_LEN: nat := 1
  const GLOBALS_OFFSET: nat := META_LEN
  const GLOBALS_LEN: nat := 1
  const HEAP_OFFSET: nat := GLOBALS_OFFSET + GLOBALS_LEN
  const HEAP_LEN: nat := 2 * 1024 * 1024
  const MAX_ROUNDS: nat := 520

  /** Pages of one mapped state: metadata, globals and heap. */
  const MAPPED_PAGES: nat := META_LEN + GLOBALS_LEN + HEAP_LEN

  const INITIAL_WRITTEN_SIZE: nat := 4 * GB
  const INITIAL_FILE_SIZE: nat := 6 * GB
  const GROW_THRESHOLD: nat := GB
  const GROW_SIZE: nat := 10 * GB
}
