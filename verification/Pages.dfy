/** What every page file has in common. */
module Pages {
  import opened Bytes

  const PAGE_SIZE: nat := 8192
  /** Signature, slot count, lower and upper offset: index pages leave these bytes alone. */
  const HEADER_SIZE: nat := 10
  const SIGNATURE: uint32 := 0x00DBDB01
  /** How a page refers to no page. */
  const NO_PAGE: int := -1
}
