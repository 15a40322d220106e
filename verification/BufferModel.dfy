/** Page keys, pages and buffer slots. */
module BufferModel {
  import opened Values
  import opened Bytes
  import opened Pages

  datatype PageKey = PageKey(fileID: string, pageID: int)

  /** A page is a value: its number and its bytes. */
  datatype Page = Page(pageID: int, bytes: seq<byte>)
  {
    predicate IsValid() {
      |bytes| >= 4 && GetUint32(bytes, 0) == SIGNATURE
    }

    /** The page file manager refuses to write any other page. */
    predicate Writable() {
      pageID >= 0 && IsValid()
    }
  }

  class BufferSlot {
    const key: PageKey
    var page: Page
    var dirty: bool
    var pinned: bool
    var usageCount: nat

    constructor (key: PageKey, page: Page)
      ensures this.key == key && this.page == page && !dirty && !pinned && usageCount == 0
    {
      this.key, this.page, dirty, pinned, usageCount := key, page, false, false, 0;
    }
  }
}
