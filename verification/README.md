# GopherDB in Dafny

GopherDB is a small SQL engine written in Go. This project models its storage and query core and
proves what the core is for: that the two disk indexes are exactly the multimaps they stand for,
that the buffer pool cannot be told from the disk, that rows survive their pages, and that a query
answers the rows its predicate is true of whatever indexes exist.

`dafny verify dfyconfig.toml` checks everything.

## How it is organised

| files | what they hold |
|---|---|
| `Values`, `Bytes`, `Utf8` | SQL values and their order, big-endian integers, UTF-8 |
| `Pages`, `KeyCodec` | page size and header, the bytes of keys and TIDs |
| `IndexLog` | what an index means: the log of its inserts and the answers the log determines |
| `BTreeShape`, `BTreeSteps`, `BTreeScan`, `DiskBTree` | the B+tree page graph, what every step keeps, the leaf walk, the index class |
| `BTreeCascade`, `BTreeModel`, `BTreeSeparators`, `BTreeKept`, `BTreeRuns` | what an insert will do to the pages above its leaf, the page graph after it as a function, which separators can repeat, what every insert keeps, whole runs and runs that end badly |
| `BTreePages`, `BTreeInt64`, `BTreeTheorems`, `BTreeCodec` | page sizes, INT64 capacity, height, the byte layout |
| `HashMasks`, `HashPages`, `HashPlacement`, `DiskHash`, `HashRuns`, `HashCodec` | mask arithmetic, chains and directory, placement of entries, the index class, a run that fills the directory, the byte layout |
| `BufferModel`, `Replacers`, `PoolSpec`, `BufferPool` | slots, LRU and Clock behind one contract, the pool as a step machine, the pool class that refines it, the background writer |
| `HeapPages`, `TableHeaps` | slotted pages over one byte buffer, rows in them |
| `Expressions`, `Optimizer`, `Plans`, `Executors`, `Database` | typing and evaluation of predicates, choice of scan, plan equivalence, executors, one table with its indexes |
| `Lexer`, `Parser`, `SqlTokens`, `SqlGrammar`, `SqlRoundTrip` | SQL text to predicates; which texts are which tokens and which tokens are which predicates, said without the lexer and the parser; printing and reading back |

The B+tree invariant is flat: a ghost map gives each page its level and the interval of keys it is
in charge of, and one clause per structure (nodes, children, parents, leaf chain) is stated over it.
A page that has been split off but not yet attached is *pending*; every step is proved once from
`WellFormed(t, pending)` to `WellFormed(t', pending')`, and the methods chain the steps. Keys are
compared through `Rank`, which places them on the real line.

The hash index is proved per bucket: `Placed` says how often each entry lies in each chain, which is
placement and conservation at once.

The buffer pool is a step machine over page values and disk (`PoolSpec`); the class is proved to take
only its steps, with objects, both replacers and the flags that the source uses.

## What was found

- **B+tree pages, INT64.** The source checks against 8182 bytes, but a page has room for 8192. A run of
  inserts goes through if and only if no key is inserted more than 1357 times (`InsertRun`). The last
  TID (number 1357) may go through a split of a one-key leaf with `mid = 0`, which leaves an empty left
  leaf and a repeated separator; that happens at most once per key, and later inserts still find their
  places. One TID more and no page can hold the leaf: `writeNode` panics.
- **B+tree pages, VARCHAR.** Leaves and internal pages are divided by the number of keys, not by their
  size, so with strings of different length a half can be larger than a page, and `writeNode` panics.
  `InsertFits` is the exact condition, in terms of the tree before the insert, and `VarcharOverflow` is
  a run that reaches the panic with strings of at most 255 bytes. A run, and so CREATE INDEX over stored
  rows, goes through if and only if every entry fits the tree that `Built` makes of the entries before it
  (`AllTaken`); entries that fit one leaf together always do (`SmallRun`). In an INSERT statement the row is in
  the heap by then (`Database.Insert`).
- **B+tree separators.** A one-key leaf that is divided leaves an empty leaf and a repeated separator: once
  per INT64 key, at most twice per string. With keys of at most 2030 bytes an internal page is divided only
  with five keys or more, so the middle one lies strictly inside and every new page is hung in its place.
- **B+tree metadata.** Splits that do not create a root leave the persisted `nextPageID` behind. `Insert`
  says exactly when it is free, `StaleMetaPage` is a run after which it is not (the keys 0 to 678), and
  `Reopen` says what a new process then has: searches are right, and the first page it would hand out is
  in use.
- **Hash directory.** The record after number 6,282,240 adds bucket number 130880, which would be entered
  in page 65, over the overflow link of the first bucket page (`DirectoryLasts`, `FillDirectory`).
- **Hash entries.** An entry of more than 8170 bytes fits no bucket page. Rows cannot contain one,
  because a stored string has at most 255 bytes.
- **Buffer pool.** A page created by `NewPage` and never updated is dropped by eviction. A dirty page
  that the file manager refuses stays resident when it is picked as a victim, but is lost to the
  replacer until it is touched again; so the claim that there is no victim only when all pages are
  pinned needs every page to be writable (`RefusedVictim`).
- **Buffer pool, a slot that could leave.** A full pool may refuse a call although some unpinned slot could
  be evicted: the policy's next victim is the only one tried (`RefusedDespiteVictim`). `GetPage` says exactly
  when; while no unpinned slot is dirty with a page that cannot be written it never happens
  (`UpdatedNeverFails`).
- **Ranges.** An AND whose bounds pass each other has no range, and an enclosing AND then takes the range of
  its other side alone, as if that AND were not there. The residual filter keeps the answer right
  (`RangeIsTruth`, `LooseRange`, `PlanEquivalence`).
- **Strings.** The serializer stores any bytes but refuses to read back what is not UTF-8. Strings
  from SQL text are always UTF-8, since the lexer works on runes.

## Model

| member | source | states |
|---|---|---|
| Values.Compare | internal/core/index/disk_btree_index.go:657-679 | Three-way comparison of two keys of one type; its sign is the order of the ranks, an embedding of INT64 and of bytewise string order into the reals. |
| IndexLog.AscendingIsUnique | internal/core/index/disk_btree_index.go:135-192 | Only one strictly ascending sequence lists a given set of keys, so the specified range answer is unique. |
| DiskBTree.DiskBTreeIndex.constructor | internal/core/index/disk_btree_index.go:208-239 | A new index is one empty root leaf on page 1 with current metadata and satisfies the page-graph invariant. |
| DiskBTree.DiskBTreeIndex.Insert | internal/core/index/disk_btree_index.go:105-119 | Every insert, through any cascade of splits up to a new root, keeps the whole page-graph invariant (sorted keys, child intervals, parent pointers, depth, leaf chain, pages that fit) over exactly the logged entries. It goes through if and only if every page written on the way up can hold what is written to it, as read off the tree before; otherwise writing panics. Over INT64 keys, in any reachable state, it goes through if and only if the key has fewer than 1357 TIDs. The page graph afterwards is a function of the one before, the key and the TID. Also: when the leaf is split, what each half holds and that nothing else changes when it is not, when the height grows and with which root key, and that the persisted nextPageID is free afterwards if and only if the height grew, or it was free before and the leaf was not split. |
| DiskBTree.DiskBTreeIndex.ShortSeparates | internal/core/index/disk_btree_index.go:462-492 | In every state reached by inserts of INT64 keys, or of strings of at most 2030 bytes, the next such insert meets what Insert asks for: each internal split passes on a separator for which upperBound finds the place of the new page. |
| BTreeRuns.InsertRun | internal/core/index/disk_btree_index.go:105-119 | A run of inserts of INT64 keys, or of strings of at most 2030 bytes, into a new index goes through if and only if each entry fits the tree built from the entries before it; it then leaves exactly that tree and exactly the entries of the run. Over INT64 it goes through if and only if no key is inserted more than 1357 times. |
| BTreeModel.OneMoreTaken | internal/core/index/disk_btree_index.go:105-119 | A run goes through with one entry more if and only if it goes through and the tree built from it takes that entry; the tree of the longer run is the tree of the run after that insert. |
| BTreeModel.SmallRun | internal/core/index/disk_btree_index.go:578-594 | Entries that fit one leaf together, as if each had a key of its own, are all taken, and the index stays one sound page: a sum over the entries decides it beforehand. |
| BTreeModel.LeafDividedIs | internal/core/index/disk_btree_index.go:415-458 | The page writes of a leaf split give exactly the page graph described: lower half, upper half on a new page, right neighbour linked back, place in the leaf chain. |
| BTreeModel.PageAttachedIs | internal/core/index/disk_btree_index.go:469-480 | The page writes of reporting a split give exactly the parent with the separator at its upper-bound place and the new page behind it. |
| BTreeModel.PageDividedIs | internal/core/index/disk_btree_index.go:531-570 | The page writes of an internal split give exactly the two halves, the middle key gone up, and the moved children pointing at the new page. |
| DiskBTree.DiskBTreeIndex.TidsBound | internal/core/index/disk_btree_index.go:354-396 | In every sound INT64 index no key has more than 1357 TIDs. |
| BTreeKept.Int64Takes | internal/core/index/disk_btree_index.go:105-119 | In a tree kept by INT64 inserts, including those that left a leaf empty, the next entry fits if and only if its key has fewer than 1357 TIDs. |
| BTreeInt64.SplitsWhenFull | internal/core/index/disk_btree_index.go:111-118 | An insert splits its leaf if and only if the size of the leaf and of the new entry together exceed 8182 bytes. |
| BTreeSeparators.TidySeparates | internal/core/index/disk_btree_index.go:462-492 | While no leaf was left empty, whatever the key type, every internal split of the next insert passes on a separator below the end of the page, so that upperBound finds the place of the new page. |
| BTreeSeparators.NearSeparates | internal/core/index/disk_btree_index.go:462-492 | In every tree kept by inserts of short keys of either type, in which separators just above the leaves may repeat, the next insert separates. |
| BTreeSeparators.NearAttach | internal/core/index/disk_btree_index.go:469-480 | Attaching a page keeps what short keys keep: separators strictly inside their pages two levels above the leaves and higher, no internal page responsible for nothing, and the count of empty leaves. |
| BTreeSeparators.LoneSplitEmpties | internal/core/index/disk_btree_index.go:415-437 | A split that leaves a leaf empty is paid for by one TID more than the leaf can hold, so that at most two leaves are left empty for one key. |
| BTreeSeparators.NoFour | internal/core/index/disk_btree_index.go:462-480 | In a page just above the leaves no four neighbouring separators, the ends of the page included, are equal. |
| BTreeSeparators.MiddleInside | internal/core/index/disk_btree_index.go:531-545 | The middle key of an internal page with five keys or more lies strictly inside the interval of the page. |
| BTreeKept.KeptLeafSplit | internal/core/index/disk_btree_index.go:415-460 | A leaf split of short keys keeps the count of empty leaves, and over INT64 all page sizes and key counts. |
| BTreeCascade.PassesNext | internal/core/index/disk_btree_index.go:469-480 | A separator equal to the one behind the split page is placed behind the next child. |
| BTreeRuns.VarcharOverflow | internal/core/index/disk_btree_index.go:354-396 | A reachable VARCHAR index that panics on the next insert: after one "a" and 1312 TIDs under a string of 255 bytes, another string of 255 bytes makes an upper half of 8434 bytes, though a page could hold all TIDs of either key. |
| BTreeRuns.ThreeKeyOverflow | internal/core/index/disk_btree_index.go:415-437 | The upper half of that split takes 8434 bytes, so the insert does not fit. |
| BTreeRuns.StaleMetaPage | internal/core/index/disk_btree_index.go:415-492 | A reachable index whose metadata page names a page in use: inserting the keys 0 to 678, the last of which splits a leaf below a root that is not split. |
| DiskBTree.DiskBTreeIndex.Reopen | internal/core/index/disk_btree_index.go:241-266 | Starting again from the metadata page keeps the index sound, so searches answer as before; it satisfies what Insert needs again if and only if the persisted nextPageID is free. |
| DiskBTree.DiskBTreeIndex.Search | internal/core/index/disk_btree_index.go:121-133 | Search returns exactly the TIDs inserted under the key, in insertion order, after any sequence of inserts, also after reopening. |
| DiskBTree.DiskBTreeIndex.RangeSearch | internal/core/index/disk_btree_index.go:135-192 | A range search, open, half-open or bounded, returns exactly the TIDs of the keys in range, keys ascending and insertion order within a key, also after reopening. |
| DiskBTree.DiskBTreeIndex.FindLeaf | internal/core/index/disk_btree_index.go:285-301 | The descent ends after exactly meta.height page reads in the one leaf in charge of the key. |
| DiskBTree.DiskBTreeIndex.LowerBound | internal/core/index/disk_btree_index.go:631-642 | The first position whose key is not below the argument. |
| DiskBTree.DiskBTreeIndex.UpperBound | internal/core/index/disk_btree_index.go:644-655 | The first position whose key is above the argument. |
| DiskBTree.DiskBTreeIndex.InsertIntoLeaf | internal/core/index/disk_btree_index.go:398-413 | Appends the TID to an existing key or shifts a new key in at its sorted place. |
| DiskBTree.DiskBTreeIndex.DivideLeaf | internal/core/index/disk_btree_index.go:415-458 | Dividing a leaf goes through if and only if both halves fit; it leaves the invariant with exactly the new right page still missing from its parent, the pages above as they were, and an empty left half for a one-key leaf. |
| DiskBTree.DiskBTreeIndex.SplitLeaf | internal/core/index/disk_btree_index.go:415-460 | A leaf split goes through if and only if both halves and all pages above fit; it then keeps the invariant, the contents and the leftmost leaf. |
| DiskBTree.DiskBTreeIndex.InsertIntoParent | internal/core/index/disk_btree_index.go:462-492 | Reporting a split goes through if and only if the pages above can hold it, level by level; the invariant is then restored at every level, the height grows if and only if the root is split too, and the new root has the key computed from the pages above. |
| DiskBTree.DiskBTreeIndex.CreateNewRoot | internal/core/index/disk_btree_index.go:494-529 | A new root over two pages, if its page can hold the key, restores the invariant, grows the height by one, and is the only step that rewrites the metadata page. |
| DiskBTree.DiskBTreeIndex.SplitInternal | internal/core/index/disk_btree_index.go:531-576 | An internal split goes through if and only if both halves and the pages above fit; it then keeps the invariant. |
| DiskBTree.DiskBTreeIndex.DivideInternal | internal/core/index/disk_btree_index.go:531-570 | Dividing an internal page goes through if and only if both halves fit; it moves keys, children and parent pointers so that only the new page is pending, and leaves at least 339 keys on either side for INT64. |
| DiskBTree.DiskBTreeIndex.MoveChildren | internal/core/index/disk_btree_index.go:557-566 | Exactly the children moved to the new page get their parent pointer changed. |
| DiskBTree.DiskBTreeIndex.EstimateSize | internal/core/index/disk_btree_index.go:578-594 | The estimate is the page offset at which the encoding of the node ends. |
| DiskBTree.DiskBTreeIndex.RoomForKey | internal/core/index/disk_btree_index.go:105-119 | With at most 1356 TIDs an INT64 key is taken by a reachable index, and no leaf is left empty. |
| DiskBTree.DiskBTreeIndex.HeightBound | internal/core/index/disk_btree_index.go:285-301 | An index of height h at least 2 over INT64 keys holds at least 340^(h-2) distinct keys in every reachable state, and twice as many while no leaf was left empty. |
| BTreeInt64.Int64InnerFits | internal/core/index/disk_btree_index.go:578-594 | An INT64 internal page fits if and only if it has at most 678 keys, that is 679 children. |
| BTreeSteps.LeafInsertStep | internal/core/index/disk_btree_index.go:398-413 | Adding an entry to the leaf in charge of its key keeps every clause of the page-graph invariant. |
| BTreeSteps.LeafSplitStep | internal/core/index/disk_btree_index.go:415-460 | Splitting a leaf keeps every clause of the invariant, with the new page pending; the separator is the first key of the right half. |
| BTreeSteps.AttachStep | internal/core/index/disk_btree_index.go:462-492 | Inserting separator and child into the parent turns the pending page into a proper child. |
| BTreeSteps.InnerSplitStep | internal/core/index/disk_btree_index.go:531-576 | Splitting an internal page keeps every clause of the invariant, with the new page pending. |
| BTreeSteps.RootedStep | internal/core/index/disk_btree_index.go:494-529 | A new root over the pending pair gives back a complete tree, one level deeper. |
| BTreeScan.ScanNextLeaf | internal/core/index/disk_btree_index.go:172-189 | Following the right sibling loses no key and repeats none. |
| BTreeScan.CompleteIsRange | internal/core/index/disk_btree_index.go:135-192 | A completed walk of the leaf chain has collected exactly the specified range answer. |
| BTreeInt64.HalvesWithinCapacity | internal/core/index/disk_btree_index.go:415-437 | With INT64 keys and at most 1356 TIDs each, an overfull leaf has at least two keys and both halves of its split are within 8182 bytes. |
| BTreeInt64.HalvesOfOverfullFit | internal/core/index/disk_btree_index.go:415-437 | With at most 1357 TIDs per INT64 key both halves of every leaf split fit a disk page. |
| BTreeInt64.Int64CascadeFits | internal/core/index/disk_btree_index.go:462-576 | Over INT64 keys the pages above never stop an insert: with at most 678 keys each, every page written on the way up fits. |
| BTreeInt64.InnerSplitInt64 | internal/core/index/disk_btree_index.go:531-576 | Both halves of an overfull INT64 internal page fit and keep at least 339 keys. |
| BTreeInt64.TooManyTidsLogged | internal/core/index/disk_btree_index.go:415-437 | An INT64 tree in which a key has more than 1357 TIDs has a page of more than 8192 bytes. |
| BTreeTheorems.HeightIsLogarithmic | internal/core/index/disk_btree_index.go:494-529 | An INT64 tree of height h at least 2 holds at least 2 * 340^(h-2) distinct keys. |
| BTreeTheorems.SubtreeHolds | internal/core/index/disk_btree_index.go:285-301 | A non-root page a given number of levels above the leaves is in charge of at least 340 to that power keys. |
| BTreeTheorems.PairHolds | internal/core/index/disk_btree_index.go:415-437 | Of two neighbouring leaves below one page at least one holds a key, in every reachable INT64 state. |
| BTreeTheorems.PopulatedSubtree | internal/core/index/disk_btree_index.go:285-301 | A non-root page h levels above the leaves is in charge of at least 170 * 340^(h-1) keys, empty leaves or not. |
| BTreeTheorems.PagesReadBack | internal/core/index/disk_btree_index.go:303-396 | Every page of a valid tree can be encoded, and what is written reads back as the same node. |
| BTreeCodec.WriteNode | internal/core/index/disk_btree_index.go:354-396 | Writing a node over any stale page ends at the estimated size, leaves the heap header and everything behind the node untouched, and the page decodes to the node. |
| BTreeCodec.ReadNode | internal/core/index/disk_btree_index.go:303-352 | Reading a page returns exactly the decoded node. |
| BTreeCodec.ReadAfterWrite | internal/core/index/disk_btree_index.go:303-396 | Decoding what the encoder wrote gives the node back, for both key types, leaves and internal pages. |
| BTreeCodec.EncodedSize | internal/core/index/disk_btree_index.go:578-604 | The encoded length of a node is its estimated size. |
| BTreeCodec.DecodeEncodedKey | internal/core/index/disk_btree_index.go:606-629 | A key reads back where it was written. |
| HashMasks.MaskIsMod | internal/core/index/disk_hash_index.go:280-286 | ANDing with a mask of k ones is reduction modulo 2^k. |
| HashMasks.SplitRelocates | internal/core/index/disk_hash_index.go:296-347 | One split re-homes only entries of the split bucket, and only to itself or to the new bucket; all other buckets keep exactly their hashes. |
| HashMasks.RoundCompletes | internal/core/index/disk_hash_index.go:336-342 | After the last base bucket is split the doubled table addresses every hash as before. |
| HashPlacement.ComputeBucketIs | internal/core/index/disk_hash_index.go:280-286 | With the masks of the metadata invariant, computeBucket is the linear-hashing bucket number and is below bucketCount. |
| HashPlacement.SplittingBucketIs | internal/core/index/disk_hash_index.go:309-334 | In the middle of a split the masks already address as if the split pointer had moved. |
| HashPlacement.DrainedIsReplacing | internal/core/index/disk_hash_index.go:296-334 | Opening the new bucket and draining the old one leaves every other entry in its new place. |
| HashPlacement.ReplacedIsPlaced | internal/core/index/disk_hash_index.go:328-347 | Once all drained entries are back, every bucket holds exactly its entries under the new addressing. |
| HashPlacement.BagCounts | internal/core/index/disk_hash_index.go:137-155 | How often an entry is stored is how often its key and TID were inserted. |
| HashPlacement.StoredIsInserted | internal/core/index/disk_hash_index.go:111-135 | Over all chains exactly the inserted entries are stored, each as often as inserted. |
| HashPages.DirectoryStaysInPlace | internal/core/index/disk_hash_index.go:375-405 | A directory access stays within pages 1 to 64 if and only if the bucket number is below 130880. |
| DiskHash.DiskHashIndex.DirectoryLasts | internal/core/index/disk_hash_index.go:288-308 | The next insert opens a bucket beyond the directory if and only if the index holds exactly 6,282,240 records, and the head of that bucket is then written over the overflow link of page 65. |
| HashRuns.FillDirectory | internal/core/index/disk_hash_index.go:111-135 | Any 6,282,240 entries fill the directory of a new index: the index then holds exactly them, and the next insert opens bucket 130880 over the overflow link of page 65. |
| HashPages.AppendedEntries | internal/core/index/disk_hash_index.go:415-431 | Appending to one page adds the entry to that bucket and changes no other. |
| HashPages.OverflowedLinks | internal/core/index/disk_hash_index.go:433-446 | Linking an overflow page keeps all chains acyclic, disjoint and ended. |
| HashPages.DrainedEntries | internal/core/index/disk_hash_index.go:451-482 | Draining empties one bucket, orphaning its overflow pages, and changes no other. |
| HashPages.OpenedLinks | internal/core/index/disk_hash_index.go:296-308 | Entering a new bucket in the directory keeps every head and chain. |
| DiskHash.DiskHashIndex.constructor | internal/core/index/disk_hash_index.go:175-213 | A new index has 64 directory pages, 16 empty buckets and the masks of one round. |
| DiskHash.DiskHashIndex.Insert | internal/core/index/disk_hash_index.go:111-135 | Every insert keeps chains, masks, placement and load bound (at most 48 records per bucket, and no bucket not needed for that), splits at most once, and persists the metadata. |
| DiskHash.DiskHashIndex.Search | internal/core/index/disk_hash_index.go:137-155 | Search returns exactly the multiset of TIDs inserted under the key. |
| DiskHash.DiskHashIndex.PerformSplit | internal/core/index/disk_hash_index.go:296-347 | A split adds one bucket and keeps placement and conservation of all entries. |
| DiskHash.DiskHashIndex.RedistributeEntries | internal/core/index/disk_hash_index.go:329-334 | Re-inserting the drained entries under the new masks puts each where it belongs. |
| DiskHash.DiskHashIndex.InsertIntoBucketChain | internal/core/index/disk_hash_index.go:407-449 | The walk terminates and the bucket gains exactly the entry; no other bucket changes; a fresh overflow page is linked if and only if no page of the chain has room. |
| DiskHash.DiskHashIndex.DrainBucketChain | internal/core/index/disk_hash_index.go:451-482 | Returns the entries of the chain in order and leaves the bucket empty. |
| DiskHash.DiskHashIndex.CollectEntries | internal/core/index/disk_hash_index.go:484-511 | The chain walk visits every page of the bucket once, in order. |
| DiskHash.DiskHashIndex.RecordCountIsStored | internal/core/index/disk_hash_index.go:54-62 | recordCount is the number of entries stored over all chains. |
| HashCodec.EntryRoundTrip | internal/core/index/disk_hash_index.go:530-576 | An encoded entry decodes to itself and to the offset behind it. |
| HashCodec.AppendEntry | internal/core/index/disk_hash_index.go:415-431 | Appending to a page buffer adds the entry behind the others if and only if it fits; the heap header stays. |
| HashCodec.ReadAllEntries | internal/core/index/disk_hash_index.go:513-528 | A bucket page reads back as its entries. |
| HashCodec.InitBucketPage | internal/core/index/disk_hash_index.go:361-373 | Whatever a page held, it is an empty bucket page afterwards. |
| HashPlacement.OversizedNeverFits | internal/core/index/disk_hash_index.go:407-449 | An entry of more than 8170 bytes fits no fresh page, finds every chain full, and finds it full again after an overflow page has been linked, so the walk never ends. |
| DiskHash.DiskHashIndex.PagesEncode | internal/core/index/disk_hash_index.go:361-449 | Every chained page of an index has bytes that represent it: link, count, free offset and entries. |
| HashCodec.WriteMeta | internal/core/index/disk_hash_index.go:245-263 | The metadata written is the metadata loaded; bytes outside it are untouched. |
| PoolSpec.GetsLastUpdate | internal/core/memory/buffer/heap_buffer_pool_manager.go:60-127 | Transparency: in every run, under any interleaving of client calls with background flushes over a stale snapshot and for any pool size, a get returns the page last given to UpdatePage for its key, as long as updates carry the page of their key. |
| PoolSpec.UpdatedNeverFails | internal/core/memory/buffer/heap_buffer_pool_manager.go:60-145 | In every run, under any interleaving, a get, update or pin of a page that has been updated never fails for want of the page, and never fails at all while there is a free slot, or while some slot can be evicted and no unpinned slot is dirty with a page that cannot be written. |
| PoolSpec.FailsIffUnreadable | internal/core/memory/buffer/heap_buffer_pool_manager.go:60-83 | A get, update or pin fails for want of the page if and only if the page is not resident, room was made, and the disk does not have it then. |
| PoolSpec.RunTransparent | internal/core/memory/background/default_dirty_page_writer.go:88-101 | The inductive core over whole runs: the last update of a key is in its slot, and on disk whenever that slot is clean or gone. |
| PoolSpec.StepHolds | internal/core/memory/buffer/heap_buffer_pool_manager.go:205-256 | No single pool operation loses the last update of any key. |
| PoolSpec.CleanIsDurable | internal/core/memory/buffer/heap_buffer_pool_manager.go:171-184 | Once no slot is dirty, the disk alone holds every last update. |
| PoolSpec.ReadsBackIffAddressed | internal/core/memory/manager/heap_page_file_manager.go:20-50 | An updated and evicted page reads back as itself if and only if it carries the number of its key. |
| PoolSpec.CreatedPageIsDropped | internal/core/memory/buffer/heap_buffer_pool_manager.go:85-104 | A page only given to NewPage is dropped by eviction: it reads back if and only if the disk already held it. |
| PoolSpec.PinnedStays | internal/core/memory/buffer/heap_buffer_pool_manager.go:129-158 | A pinned page stays resident and pinned until it is unpinned. |
| PoolSpec.UnpinnedCanLeave | internal/core/memory/buffer/heap_buffer_pool_manager.go:147-158 | Unpinning changes no page and no other slot; afterwards the page can be evicted if and only if it is clean or can be written. |
| PoolSpec.FlushEachCleans | internal/core/memory/background/default_dirty_page_writer.go:88-101 | Flushing a list of keys cleans exactly the slots among them that can be written. |
| BufferPool.WritableIsExact | internal/core/memory/buffer/heap_buffer_pool_manager.go:199-246 | When every resident page can be written, the replacer holds exactly the unpinned resident slots. |
| BufferPool.NothingHeld | internal/core/memory/buffer/heap_buffer_pool_manager.go:227-246 | The replacer has no candidate if and only if every slot is pinned or stranded. |
| BufferPool.HeapBufferPool.GetPage | internal/core/memory/buffer/heap_buffer_pool_manager.go:60-83 | A get is a step of the pool machine and keeps the coupling of pool and replacer. It fails for want of the page if and only if the page is not resident, room was made, and the disk does not have it then; for lack of a victim if and only if the pool is full of slots that are pinned or stranded; and because a write is refused if and only if the pool is full and the slot the policy gives up next is dirty and cannot be written. The last leaves everything as it was, except that the replacer has lost that slot; a get of a stranded slot gives it back. |
| BufferPool.HeapBufferPool.NewPage | internal/core/memory/buffer/heap_buffer_pool_manager.go:85-104 | Creating a page is a step of the pool machine and keeps the coupling; a resident key is refused, and otherwise it has no victim, or a refused one, under the same conditions as a get; it never reads. |
| BufferPool.HeapBufferPool.UpdatePage | internal/core/memory/buffer/heap_buffer_pool_manager.go:106-127 | Updating is a step of the pool machine, never fails on a resident page, otherwise fails under exactly the conditions of a get, keeps the coupling, and gives a stranded slot of the key back to the replacer. |
| BufferPool.HeapBufferPool.PinPage | internal/core/memory/buffer/heap_buffer_pool_manager.go:129-145 | Pinning takes the slot out of the replacer and keeps the coupling; it never fails on a resident page and otherwise fails under exactly the conditions of a get; a pinned slot is not stranded. |
| BufferPool.HeapBufferPool.UnpinPage | internal/core/memory/buffer/heap_buffer_pool_manager.go:147-158 | Unpinning gives the slot back to the replacer, strands none and keeps the coupling. |
| BufferPool.HeapBufferPool.FlushPage | internal/core/memory/buffer/heap_buffer_pool_manager.go:160-169 | Flushing is a step of the pool machine; it fails exactly on a dirty page the file manager refuses. |
| BufferPool.HeapBufferPool.FlushAllPages | internal/core/memory/buffer/heap_buffer_pool_manager.go:171-184 | Without an error every slot is clean afterwards; there is an error exactly when some dirty page is refused. |
| BufferPool.HeapBufferPool.DirtyPages | internal/core/memory/buffer/heap_buffer_pool_manager.go:186-197 | Lists exactly the dirty slots, each once. |
| BufferPool.HeapBufferPool.EnsureSpace | internal/core/memory/buffer/heap_buffer_pool_manager.go:227-246 | Makes room by evicting one unpinned slot, written back if dirty, or reports that there is none; a refused write leaves exactly the victim resident but lost to the replacer. |
| BufferPool.RefusedVictim | internal/core/memory/buffer/heap_buffer_pool_manager.go:227-246 | A pool of one slot, either policy, any page that cannot be written: the first get of another page is refused by the file manager, and the second finds no victim although the one resident slot is not pinned. |
| BufferPool.RefusedDespiteVictim | internal/core/memory/buffer/heap_buffer_pool_manager.go:227-246 | A pool of two slots, either policy: a get of a third page is refused by the file manager because the slot pushed before has a page that cannot be written, although the other slot is unpinned and clean. |
| BufferPool.DirtyPageWriter.FlushBatch | internal/core/memory/background/default_dirty_page_writer.go:88-101 | One tick turns at most batchSize dirty slots clean; if fewer, only pages that cannot be written are still dirty. |
| Replacers.ClockReplacer.PickVictim | internal/core/memory/replacer/clock_replacer.go:71-101 | The victim is the first unreferenced slot in circular order from the hand, or the slot at the hand when all are referenced; exactly the slots passed over lose their reference bit. |
| Replacers.ClockReplacer.Delete | internal/core/memory/replacer/clock_replacer.go:44-69 | Deleting a key keeps the circular order of all other slots. |
| Replacers.ClockReplacer.Push | internal/core/memory/replacer/clock_replacer.go:28-42 | A new slot joins at the end of the ring; a known one only gets its reference bit; and whichever other slot was to be given up next still is. |
| Replacers.CircularAround | internal/core/memory/replacer/clock_replacer.go:53-68 | Cutting a slot out of the ring with the hand adjusted as in the source cuts it out of the circular order. |
| Replacers.LruReplacer.PickVictim | internal/core/memory/replacer/lru_replacer.go:56-69 | The victim is the slot whose last push is the oldest. |
| Replacers.LruReplacer.Push | internal/core/memory/replacer/lru_replacer.go:27-44 | A pushed slot becomes the most recent one; whichever other slot was to be given up next still is. |
| Replacers.Replacer.PickVictim | internal/core/memory/buffer/heap_buffer_pool_manager.go:227-236 | Both policies meet one contract: a victim is a held slot and leaves, and there is none exactly when nothing is held. |
| HeapPages.HeapPage.constructor | internal/core/memory/page/heap_page.go:39-46 | A new page is well formed, empty, and has 8182 free bytes. |
| HeapPages.HeapPage.Read | internal/core/memory/page/heap_page.go:77-101 | Reads the record of a slot, or reports the slot as out of range. |
| HeapPages.HeapPage.Write | internal/core/memory/page/heap_page.go:103-135 | A write that fits appends one record and leaves all others as they were; one that does not fit changes no byte. |
| HeapPages.RecordsAreDisjoint | internal/core/memory/page/heap_page.go:103-135 | Records share no byte. |
| HeapPages.WrittenIsWellFormed | internal/core/memory/page/heap_page.go:103-135 | After a write the slot array still ends at lower and the records still tile the page from upper. |
| TableHeaps.RowRoundTrip | internal/core/memory/serializer/heap_tuple_serializer.go:42-85 | A stored row reads back as itself if and only if its strings are UTF-8; otherwise reading it is an error. |
| TableHeaps.SerializedHasTypes | internal/core/memory/serializer/heap_tuple_serializer.go:42-70 | A row is stored if and only if its values have the column types and its strings at most 255 bytes. |
| TableHeaps.FirstErrorWins | internal/core/memory/serializer/heap_tuple_serializer.go:42-70 | The first field that cannot be stored decides the error: unknown type, wrong type, or a string of more than 255 bytes. |
| TableHeaps.SerializedSize | internal/core/memory/serializer/heap_tuple_serializer.go:42-70 | A row takes eight bytes for a number and one byte more than its length for a string. |
| TableHeaps.SerializeRow | internal/core/storage/table_heap.go:143-161 | The row loop computes the concatenation of the field encodings or the first error. |
| TableHeaps.DeserializeRow | internal/core/storage/table_heap.go:163-191 | The row loop inverts it field by field. |
| TableHeaps.TableHeap.InsertRow | internal/core/storage/table_heap.go:84-141 | First fit: the row goes to the first page with room, else to a new page; the row is readable under a new TID and all other rows are kept; it fails exactly on a row that cannot be serialized, with that error, or that fits no page. |
| TableHeaps.TableHeap.ReadRow | internal/core/storage/table_heap.go:65-82 | Reading a stored TID gives back the inserted row, provided its strings are UTF-8. |
| TableHeaps.TableHeap.ScanTids | internal/core/storage/table_heap.go:43-63 | Lists every stored TID exactly once, by page and slot. |
| Utf8.EncodedIsValid | internal/core/sql/lexer/sql_lexer.go:97-101 | Strings built from runes, as the lexer builds them, pass the serializer's UTF-8 test. |
| Utf8.DecodeEncoded | internal/core/sql/lexer/sql_lexer.go:192-221 | Decoding, by the code-point arithmetic of UTF-8, the bytes of any text gives the text back. |
| Utf8.EncodeDecoded | internal/core/sql/lexer/sql_lexer.go:192-221 | Every valid byte string is the encoding of the text it decodes to; so a text has one encoding. |
| Utf8.EncodeInjective | internal/core/sql/lexer/sql_lexer.go:192-221 | Different texts have different bytes. |
| Utf8.EncodeOrders | internal/core/execution/executors/filter_executor.go:87-141 | Byte order of stored strings is the order of their texts by code points. |
| Expressions.ResolvedEvaluates | internal/core/sql/semantic/analyzer.go:203-267 | Type soundness and meaning: an accepted expression evaluates on every matching row without a failing type assertion to a value of its type, and a boolean one to exactly the truth of the predicate. |
| Expressions.ResolvesIffTyped | internal/core/sql/semantic/analyzer.go:203-267 | An expression is accepted if and only if it is well-typed by the declared types of its columns: numbers with numbers, strings with strings, AND and OR of booleans. |
| Expressions.FirstFaultWins | internal/core/sql/semantic/analyzer.go:203-267 | The error reported is that of the first faulty part, parts before wholes and left before right. |
| Expressions.LiteralDenotes | internal/core/sql/semantic/analyzer.go:224-277 | Exactly literals are accepted by INSERT, as the value they have in a predicate: an integer its number, a string the UTF-8 bytes of its text. |
| Expressions.NumbersCompare | internal/core/execution/executors/filter_executor.go:87-141 | Comparing numbers in a predicate compares the numbers. |
| Expressions.TextsCompare | internal/core/execution/executors/filter_executor.go:87-141 | Comparing strings in a predicate compares the texts, by code points. |
| Expressions.DeclaredTypes | internal/core/sql/semantic/analyzer.go:279-284 | A column declared VARCHAR holds strings, and every other column numbers. |
| Expressions.ResolvedIsWellTyped | internal/core/sql/semantic/analyzer.go:234-267 | Resolution only produces well-typed expressions. |
| Expressions.WellTypedEvaluates | internal/core/execution/executors/filter_executor.go:59-141 | A well-typed expression never panics in the evaluator. |
| Optimizer.MergeIntersects | internal/core/optimizer/range.go:34-76 | Merging two ranges is intersection; no merged range means an empty intersection. |
| Optimizer.SingleCovers | internal/core/optimizer/default_optimizer.go:159-188 | The range of a single comparison with a constant, mirrored or not, is exactly its truth. |
| Optimizer.RangeCovers | internal/core/optimizer/default_optimizer.go:134-157 | A row on which the predicate is true lies in the extracted range, through nested ANDs over several columns. |
| Optimizer.ExtractRange | internal/core/optimizer/default_optimizer.go:134-157 | On a well-typed predicate bounds of two types are never compared, and the range has its column's type. |
| Optimizer.FindIndex | internal/core/optimizer/default_optimizer.go:124-132 | Finds an index of the kind on the column if there is one. |
| Optimizer.ChoiceIs | internal/core/optimizer/default_optimizer.go:90-122 | A hash index is used if and only if the predicate equates a column that has one with a constant, on either side; otherwise a B+tree if and only if a range is extracted for a column that has one; otherwise the table is scanned. |
| Optimizer.RangeIsTruth | internal/core/optimizer/default_optimizer.go:134-171 | An AND of comparisons of one column with constants is true exactly on the extracted range, unless some AND in it has bounds that pass each other: then it is never true. |
| Optimizer.LooseRange | internal/core/optimizer/default_optimizer.go:145-157 | Then a range may be extracted all the same: (c > 5 AND c < 3) AND c = 4 has the range of c = 4. |
| Plans.RangeScanReturns | internal/core/execution/executors/btree_index_scan_executor.go:31-52 | A range scan of an agreeing index returns each row in range once and no other. |
| Plans.RangeScanIsAnswer | internal/core/execution/executors/btree_index_scan_executor.go:31-52 | For an AND of comparisons of one column, none of whose ANDs has bounds that pass each other, the range scan returns the rows on which it is true, once each, and no other. |
| Plans.ChosenScanComplete | internal/core/optimizer/default_optimizer.go:90-122 | Whatever scan is chosen, it produces every row the predicate accepts, once. |
| Plans.PlanEquivalence | internal/core/optimizer/default_optimizer.go:76-122 | The chosen scan under the residual filter answers the same multiset of rows as the filter over a sequential scan. |
| Plans.FilterIsMeaning | internal/core/execution/executors/filter_executor.go:36-117 | The filter keeps exactly the rows on which the predicate is true. |
| Plans.ListedAreMatches | internal/core/execution/executors/filter_executor.go:36-52 | In the answer a row occurs as often as the table has it, if the predicate is true of it, and not at all otherwise. |
| Executors.FilterExecutor.GetNext | internal/core/execution/executors/filter_executor.go:36-52 | Next skips to the first accepted row, or to the end. |
| Executors.SeqScanExecutor.Open | internal/core/execution/executors/seq_scan_executor.go:19-28 | Opening lists every row of the table once, by page and slot. |
| Executors.HashIndexScanExecutor.Open | internal/core/execution/executors/hash_index_scan_executor.go:21-30 | Opening fetches the TIDs stored under the key. |
| Executors.BTreeIndexScanExecutor.Open | internal/core/execution/executors/btree_index_scan_executor.go:31-40 | Opening fetches the range answer; a hash index has none. |
| Executors.Execute | internal/core/execution/default_query_execution_engine.go:11-30 | Draining a filter returns exactly the accepted rows of its scan, in scan order. |
| Database.Database.InsertIntoIndexes | internal/core/execution/executors/insert_executor.go:38-68 | The loop goes through if and only if every index takes the row, as decided before it; then every index of the table has gained exactly the new pair. |
| Database.Database.Insert | internal/core/execution/executors/insert_executor.go:28-71 | The row is refused, with nothing changed, if and only if the heap cannot store it, and with the heap's error; it is inserted if and only if the heap and every index take it, and then every index, of either kind and type, holds exactly the pairs (row[column], tid) of the heap; otherwise the insert panics with the row in the heap. |
| Database.TakesUnlessRepeated | internal/core/execution/executors/insert_executor.go:58-66 | A hash index takes every row within its record limit, and a B+tree over an INT64 column takes a row if and only if fewer than 1357 rows have its value. |
| Executors.Index.TakesUnlessFull | internal/core/execution/executors/insert_executor.go:58-66 | The same for a key and its TIDs in one index. |
| Database.Database.Backfill | internal/core/execution/executors/create_index_executor.go:76-93 | A new index is filled with exactly the pairs of the stored rows, in scan order. A hash index is always filled; a B+tree, of either key type, if and only if each pair is taken by the tree built from the pairs before it, and otherwise the pairs before some pair make a sound tree that does not take that one. Over an INT64 column that is if and only if no value is in more than 1357 rows. |
| Database.Database.CreateIndex | internal/core/execution/executors/create_index_executor.go:36-96 | A known name is refused; otherwise, unless the fill panics, every index, old and new, holds exactly the pairs of the heap. A B+tree is created if and only if each pair, in scan order, is taken by the tree built from the pairs before it; over an INT64 column if and only if no value is in more than 1357 rows; and whenever all pairs fit one leaf together. |
| Database.ScanPairsAreUnique | internal/core/storage/table_heap.go:43-63 | The pairs in scan order are one sequence, determined by the rows. |
| Executors.Index.TakesIsBuilt | internal/core/execution/executors/create_index_executor.go:76-93 | Whether a B+tree takes a key is decided by the entries inserted before: it is the tree that a run of them into an empty index leaves, and that run goes through. |
| Database.Database.AnalyzeInsert | internal/core/sql/semantic/analyzer.go:101-140 | Accepts exactly as many literals as columns, strings for the columns declared VARCHAR and integers for the others; the row holds what each literal denotes: its number, or UTF-8 bytes that decode to its text. Otherwise the error is the wrong count, or that of the first literal that does not fit. |
| Database.Database.OwnLiteralsMatch | internal/core/sql/semantic/analyzer.go:101-140 | Column = literal is a well-typed predicate and true of the row that an INSERT of the literals stores, for every column. |
| Database.Database.InsertThenSelect | internal/core/execution/executors/insert_executor.go:28-71 | An INSERT of literals followed by a SELECT with column = literal, for any column: the new row is in the answer. |
| Database.Database.OpenScan | internal/core/execution/default_executor_factory.go:95-127 | The executor for a plan produces what the plan promises. |
| Database.Database.Select | internal/core/sql/semantic/analyzer.go:142-178 | A query is accepted if and only if its predicate is well-typed and boolean, and otherwise reports its first fault. It is answered by exactly the rows on which its predicate is true, each as often as stored, whatever indexes exist and whenever they were created. |
| Database.AgreesGains | internal/core/execution/executors/insert_executor.go:58-66 | An inserted row and its index entry keep the agreement of index and heap. |
| Lexer.SqlLexer.Tokenize | internal/core/sql/lexer/sql_lexer.go:97-154 | Produces exactly the tokens of the text or fails on a lexical error: each token is the one the text has at its offsets, with the line and column of its first character; tokens follow one another with only white space between; the end token stands at the end of the text. |
| Lexer.SqlLexer.ReadString | internal/core/sql/lexer/sql_lexer.go:192-221 | Reads a string literal with doubled quotes, or reports it as unterminated. |
| Lexer.SqlLexer.ReadNumber | internal/core/sql/lexer/sql_lexer.go:175-190 | Reads the longest run of digits with its sign. |
| Lexer.SqlLexer.Advance | internal/core/sql/lexer/sql_lexer.go:247-259 | Line and column always belong to the current offset. |
| Parser.SqlParser.ParseExpr | internal/core/sql/parser/sql_parser.go:201-220 | Follows the grammar: the same expression, the same tokens left, for every token list; it terminates. |
| Parser.SqlParser.ParseComparison | internal/core/sql/parser/sql_parser.go:222-236 | At most one comparison between primaries. |
| Parser.SqlParser.ParsePrimary | internal/core/sql/parser/sql_parser.go:238-256 | Identifier, literal or parenthesized expression. |
| SqlRoundTrip.RoundTrip | internal/core/sql/parser/sql_parser.go:201-269 | Printing a predicate with only the parentheses precedence and left-associativity need, then tokenizing and parsing, returns the predicate. |
| SqlRoundTrip.RespelledRoundTrip | internal/core/sql/lexer/sql_lexer.go:37-72 | So does any text laid out from those tokens in another spelling: != for <>, keywords in any mixture of cases, any white space. |
| SqlRoundTrip.PrintAndParse | internal/core/sql/parser/sql_parser.go:201-269 | Printed predicates come back through the lexer and the parser themselves. |
| SqlGrammar.UnderstoodIff | internal/core/sql/parser/sql_parser.go:201-269 | A text is tokenized and parsed to an expression, with only the end left over, if and only if it is laid out from tokens that the grammar derives from that expression: every spelling, redundant parentheses or none; no other text is accepted. |
| SqlGrammar.ParsesIff | internal/core/sql/parser/sql_parser.go:201-269 | Tokens up to the end are parsed to an expression if and only if the grammar derives them from it: OR below AND below one comparison, AND and OR to the left, parentheses closed. |
| SqlGrammar.DisjunctionReads | internal/core/sql/parser/sql_parser.go:201-256 | Whatever the parser returns, the tokens it has read are ones the grammar derives from that expression. |
| SqlGrammar.ConjunctionOf | internal/core/sql/parser/sql_parser.go:207-220 | Tokens of an AND chain are absorbed left-associatively. |
| SqlGrammar.Unambiguous | internal/core/sql/parser/sql_parser.go:201-256 | No token list is two expressions. |
| SqlGrammar.SpellingIsFree | internal/core/sql/parser/sql_parser.go:222-236 | Which spelling of a keyword, operator or parenthesis a token has makes no difference to the expression. |
| SqlGrammar.NumeralIff | internal/core/sql/parser/sql_parser.go:258-269 | A number token has a value if and only if it is that 64-bit number in decimal, behind zeros and an optional sign. |
| SqlTokens.LexIff | internal/core/sql/lexer/sql_lexer.go:97-154 | Tokenizing gives these tokens and the end if and only if the text is laid out from them: each token spelled in one of its ways, ended by what follows, white space anywhere between. |
| SqlTokens.NextTokenIff | internal/core/sql/lexer/sql_lexer.go:37-221 | A token is found at the front of a text if and only if one of its spellings stands there and cannot be read on: two ways to spell inequality, the longest operator, the longest word or number, a string up to its closing quote. |
| SqlTokens.KeywordIff | internal/core/sql/lexer/sql_lexer.go:9-26 | A word has the type of a keyword if and only if it is that keyword in some mixture of cases. |
| SqlTokens.NameIff | internal/core/sql/lexer/sql_lexer.go:156-173 | A word is an identifier if and only if it is no keyword in any case. |
| SqlRoundTrip.RenderedLexes | internal/core/sql/lexer/sql_lexer.go:97-221 | Spelled tokens rendered with spaces lex to themselves. |
| SqlRoundTrip.IntReadsBack | internal/core/sql/parser/sql_parser.go:258-269 | Every 64-bit integer reads back from its decimal text. |
| SqlRoundTrip.ParseText | internal/core/sql/parser/sql_parser.go:55-62 | The lexer and the parser themselves return an expression for a text if and only if the text is that predicate, and nothing for every other text. |

## Left out

- DiskBTree.DiskBTreeIndex.Insert: stated where every internal split passes on a separator below the end of its page (`InsertSeparates`). With INT64 keys or strings of at most 2030 bytes that is every reachable state; with longer strings, which no stored row can have, it is proved while no one-key leaf has overflowed its page.
- DiskBTree.DiskBTreeIndex.Insert: nothing is said about the pages after a panic in the middle of a split.
- DiskBTree.DiskBTreeIndex.Insert: page ids are unbounded; the wrap-around of int32 page ids is not modelled.
- DiskBTree.DiskBTreeIndex.Reopen: all buffered pages are taken to be on disk when the index is opened again; what inserts do after a stale start is not described.
- DiskHash.DiskHashIndex.Insert: stated up to 6,282,240 records and for entries of at most 8170 bytes; beyond that the directory runs into data pages or the overflow loop does not end.
- DiskHash.DiskHashIndex.Search: the hash function is any function to non-negative numbers; only its determinism matters.
- DiskHash.DiskHashIndex.PerformSplit: a directory page is a list of head page ids; only bucket and metadata pages are modelled byte by byte.
- Database.Database.Insert: stated while hash indexes are below their record limit; one table; the once-only flag of the executor is not modelled.
- Database.Database.Insert: the strings of a row are UTF-8, which analysis of SQL text guarantees.
- TableHeaps.TableHeap.InsertRow: type names are resolved to data types beforehand (trimming and upper-casing of names is not modelled), and a table has at least one column.
- PoolSpec.GetsLastUpdate: pages are values; changing a page's bytes in place before UpdatePage, goroutine timing and mutexes are not modelled: each locked method is one step.
- BufferPool.HeapBufferPool.GetPage: the page files are one map from page keys to bytes; directories, paths and operating-system errors are not modelled.
- Replacers.LruReplacer.Push: the linked list is a sequence, its elements found by key.
- Parser.SqlParser.ParseExpr: error messages and positions are not modelled; the generic left-associative loop is written once for AND and once for OR.
- Parsing of whole statements, comma lists and parenthesized lists of names: they add only easy members.
- The indexes and the heap stand on an ideal page store; the buffer pool is proved separately to be one, for pages that have been updated at least once.
- Projection, EXPLAIN, CREATE TABLE, the planner's tree building and the catalog's files and codecs: the catalog is given as maps of columns and types.
- TCP server, REPL, JSON codec, timers: input, output and presentation.
