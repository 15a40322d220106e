/** A run of inserts that fills the directory of a hash index. */
module HashRuns {
  import opened Values
  import opened IndexLog
  import opened HashPages
  import opened HashPlacement
  import opened DiskHash

  /** Any 6,282,240 entries that fit a bucket page fill the directory of a new index: the next insert adds a
      bucket whose head is written over the overflow link of page 65. */
  method FillDirectory(keyType: Type, hashOf: Value -> nat, entries: seq<Entry>) returns (idx: DiskHashIndex)
    requires |entries| == MAX_RECORDS && LogHasType(entries, keyType)
    requires forall i :: 0 <= i < |entries| ==> EntrySize(HashEntry(hashOf(entries[i].key), entries[i].key, entries[i].tid)) <= MAX_ENTRY
    ensures fresh(idx) && idx.Valid() && idx.log == entries && idx.keyType == keyType
    ensures idx.NextInsertSplits() && idx.meta.maxBucket + 1 == MAX_BUCKETS
    ensures DirPageOf(idx.meta.maxBucket + 1) == DATA_START_PAGE && DirCellOff(idx.meta.maxBucket + 1) == NEXT_OFF
  {
    hide DiskHashIndex.Sound, EntrySize;
    idx := new DiskHashIndex(keyType, hashOf);
    for i := 0 to |entries|
      invariant fresh(idx) && idx.Valid() && idx.keyType == keyType && idx.hashOf == hashOf && idx.log == entries[..i]
    {
      assert entries[..i + 1] == entries[..i] + [entries[i]];
      idx.Insert(entries[i].key, entries[i].tid);
    }
    assert entries[..|entries|] == entries;
    idx.DirectoryLasts();
  }
}
