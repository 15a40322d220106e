/** The disk hash index: linear hashing over bucket chains. */
module DiskHash {
  import opened Values
  import opened Pages
  import opened IndexLog
  import opened HashMasks
  import opened HashPages
  import opened HashPlacement
  import opened HashCodec

  class DiskHashIndex {
    const keyType: Type
    /** Any deterministic function to non-negative numbers will do. */
    const hashOf: Value -> nat
    var meta: HashMeta
    var metaPage: HashMeta
    var pages: map<int, Page>

    /** Every (key, tid) inserted so far. */
    ghost var log: seq<Entry>
    ghost var chains: seq<seq<int>>
    ghost var owner: map<int, (int, int)>
    ghost var k: nat

    ghost function View(): Store
      reads this
    {
      Store(pages, meta.nextPageID, chains, owner)
    }

    ghost function Bag(): multiset<HashEntry>
      reads this
    {
      BagOf(log, hashOf)
    }

    /** Chains, masks and directory agree, and each bucket holds exactly its entries. */
    ghost predicate Sound()
      reads this
    {
      && StoreOk(View()) && MetaOk(meta, k) && Pow2(k) > 0 && |chains| == meta.bucketCount
      && Placed(View(), Pow2(k), meta.splitPointer, Bag())
      && EntriesOk(Bag(), hashOf, keyType) && LogHasType(log, keyType)
      && meta.recordCount == |log|
    }

    /** At most 48 records per bucket, and no bucket that was not needed for that. */
    ghost predicate Loaded()
      reads this
    {
      && meta.recordCount <= MAX_PER_BUCKET * meta.bucketCount
      && (meta.bucketCount == INITIAL_BUCKETS || meta.recordCount > MAX_PER_BUCKET * (meta.bucketCount - 1))
    }

    ghost predicate Valid()
      reads this
    {
      Sound() && Loaded() && metaPage == meta
    }

    /** initializeNew: an empty directory, then 16 empty buckets. */
    constructor (keyType: Type, hashOf: Value -> nat)
      ensures Valid() && log == [] && meta.bucketCount == INITIAL_BUCKETS
      ensures this.keyType == keyType && this.hashOf == hashOf
    {
      this.keyType := keyType;
      this.hashOf := hashOf;
      meta := HashMeta(INITIAL_BUCKETS, INITIAL_BUCKETS - 1, INITIAL_BUCKETS - 1, 0, INITIAL_BUCKETS - 1, 0, DATA_START_PAGE);
      pages, chains, owner, log, k := map[], [], map[], [], 4;
      new;
      hide ChainsOk, BucketEntries;
      var i := 1;
      while i <= DIR_PAGES
        invariant 1 <= i <= DIR_PAGES + 1
        invariant forall p :: 1 <= p < i ==>
          p in pages && pages[p].DirPage? && |pages[p].heads| == DIR_ENTRIES_PER_PAGE
        invariant chains == [] && log == [] && k == 4
        invariant meta == HashMeta(INITIAL_BUCKETS, INITIAL_BUCKETS - 1, INITIAL_BUCKETS - 1, 0, INITIAL_BUCKETS - 1, 0, DATA_START_PAGE)
      {
        pages := pages[i := DirPage(seq(DIR_ENTRIES_PER_PAGE, _ => 0))];
        i := i + 1;
      }
      NoChains(View());
      OpenInitialBuckets();
      assert Pow2(4) == 16 by { assert Pow2(2) == 4; }
      PlacedEmpty(View(), 16, 0);
      metaPage := meta;
    }

    method OpenInitialBuckets()
      requires StoreOk(View()) && chains == []
      modifies this`pages, this`meta, this`chains, this`owner
      ensures StoreOk(View()) && |chains| == INITIAL_BUCKETS
      ensures forall b :: 0 <= b < |chains| ==> BucketEntries(View(), b) == []
      ensures meta == old(meta).(nextPageID := meta.nextPageID)
    {
      hide StoreOk, BucketEntries;
      var bucketID := 0;
      while bucketID < INITIAL_BUCKETS
        invariant 0 <= bucketID <= INITIAL_BUCKETS && StoreOk(View()) && |chains| == bucketID
        invariant forall b :: 0 <= b < |chains| ==> BucketEntries(View(), b) == []
        invariant meta == old(meta).(nextPageID := meta.nextPageID)
      {
        OpenBucket(bucketID);
        bucketID := bucketID + 1;
      }
    }

    /** recordCount is the number of entries stored over all chains. */
    lemma RecordCountIsStored()
      requires Sound()
      ensures InBuckets(View(), |chains|) == Bag() && meta.recordCount == |InBuckets(View(), |chains|)|
    {
      hide StoreOk, InBuckets, BagOf, Placed, Pow2;
      StoredIsInserted(View(), Pow2(k), meta.splitPointer, log, hashOf);
    }

    /** The next insert adds a bucket when it takes the load over 48 records per bucket. */
    ghost predicate NextInsertSplits()
      reads this
    {
      meta.recordCount + 1 > MAX_PER_BUCKET * meta.bucketCount
    }

    /** The directory is large enough up to 6,282,240 records, and not for one more: that record adds
        bucket 130880, whose head is written over the overflow link of page 65, the first data page. */
    lemma DirectoryLasts()
      requires Valid()
      ensures |log| <= MAX_RECORDS
      ensures NextInsertSplits() && DirPageOf(meta.maxBucket + 1) > DIR_PAGES <==> |log| == MAX_RECORDS
      ensures |log| == MAX_RECORDS ==> meta.maxBucket + 1 == MAX_BUCKETS
      ensures |log| == MAX_RECORDS ==>
        DirPageOf(meta.maxBucket + 1) == DATA_START_PAGE && DirCellOff(meta.maxBucket + 1) == NEXT_OFF
    {
      hide StoreOk, BucketEntries, Placed, BagOf, Pow2, DirPageOf;
      BucketsWithin();
      DirectoryStaysInPlace(meta.maxBucket + 1);
      FirstBucketBeyond();
    }

    lemma BucketsWithin()
      requires Sound()
      ensures meta.bucketCount == meta.maxBucket + 1 <= MAX_BUCKETS && meta.recordCount == |log|
    {
    }

    /** Every chained page has bytes that read back as the page, while page ids fit an int32; hashes have 31 bits. */
    lemma PagesEncode(b: nat, i: nat)
      requires Valid() && meta.nextPageID <= 0x8000_0000 && forall v :: hashOf(v) < 0x8000_0000
      requires b < |chains| && i < |chains[b]|
      ensures chains[b][i] in pages && exists buf :: Represents(buf, pages[chains[b][i]], keyType)
    {
      hide StoreOk, BucketEntries, BagOf, Represents, Pow2, EntrySize, BucketOf;
      forall e | e in BucketEntries(View(), b) ensures e in Bag() {
        assert multiset(BucketEntries(View(), b))[e] > 0;
      }
      ChainedPagesEncode(View(), b, i, keyType);
    }

    method GetBucketHeadPageID(bucketID: nat) returns (head: int)
      requires StoreOk(View()) && bucketID < |chains|
      ensures |chains[bucketID]| >= 1 && head == chains[bucketID][0]
    {
      DirectoryStaysInPlace(bucketID);
      var dirPageIdx := bucketID / DIR_ENTRIES_PER_PAGE;
      var entryIdx := bucketID % DIR_ENTRIES_PER_PAGE;
      head := pages[1 + dirPageIdx].heads[entryIdx];
    }

    /** Walks the chain to the first page with room; at its end, links a fresh overflow page. */
    method InsertIntoBucketChain(bucketID: nat, entry: HashEntry)
      requires StoreOk(View()) && bucketID < |chains| && EntrySize(entry) <= MAX_ENTRY
      modifies this`pages, this`meta, this`chains, this`owner
      ensures StoreOk(View()) && |chains| == |old(chains)| && Gained(old(View()), View(), bucketID, entry)
      ensures meta == old(meta).(nextPageID := if old(ChainFull(pages, chains[bucketID], entry)) then old(meta).nextPageID + 1 else old(meta).nextPageID)
    {
      hide EntrySize, BucketEntries, StoreOk;
      var current := GetBucketHeadPageID(bucketID);
      ghost var i: nat := 0;
      ghost var s := View();
      ghost var isNew := false;
      while true
        invariant StoreOk(View()) && |chains| == |s.chains|
        invariant i < |chains[bucketID]| && current == chains[bucketID][i]
        invariant meta == old(meta).(nextPageID := if isNew then s.next + 1 else s.next)
        invariant forall b :: 0 <= b < |s.chains| ==> BucketEntries(View(), b) == BucketEntries(s, b)
        invariant if isNew then current in pages && pages[current] == FRESH_BUCKET && ChainFull(s.pages, s.chains[bucketID], entry) else View() == s
        invariant !isNew ==> ChainFull(s.pages, s.chains[bucketID][..i], entry)
        decreases if isNew then 0 else 1 + |chains[bucketID]| - i
      {
        ghost var before := View();
        PageAt(before, bucketID, i);
        var page := pages[current];
        ChainFullSoFar(s, bucketID, i, entry, isNew);
        if page.free + EntrySize(entry) <= PAGE_SIZE {
          pages := pages[current := BucketPage(page.next, page.entries + [entry], page.free + EntrySize(entry))];
          AppendStep(before, View(), bucketID, i, entry);
          return;
        }
        if page.next == NO_PAGE {
          var overflowPageID := AllocateDataPage();
          pages := pages[current := page.(next := overflowPageID)];
          chains := chains[bucketID := chains[bucketID] + [overflowPageID]];
          owner := owner[overflowPageID := (bucketID, |before.chains[bucketID]|)];
          OverflowStep(before, View(), bucketID);
          current := overflowPageID;
          isNew := true;
          i := i + 1;
        } else {
          current := page.next;
          i := i + 1;
        }
      }
    }

    /** allocateDataPage followed by initBucketPage. */
    method AllocateDataPage() returns (pageID: int)
      modifies this`pages, this`meta
      ensures pageID == old(meta).nextPageID && meta == old(meta).(nextPageID := pageID + 1)
      ensures pages == old(pages)[pageID := FRESH_BUCKET]
    {
      pageID := meta.nextPageID;
      meta := meta.(nextPageID := meta.nextPageID + 1);
      pages := pages[pageID := FRESH_BUCKET];
    }

    /** Collects every entry of the chain and resets its head page. */
    method DrainBucketChain(bucketID: nat) returns (entries: seq<HashEntry>)
      requires StoreOk(View()) && bucketID < |chains|
      modifies this`pages, this`chains
      ensures StoreOk(View()) && |chains| == |old(chains)|
      ensures entries == old(BucketEntries(View(), bucketID))
      ensures BucketEntries(View(), bucketID) == []
      ensures forall b :: 0 <= b < |chains| && b != bucketID ==> BucketEntries(View(), b) == old(BucketEntries(View(), b))
    {
      hide StoreOk, BucketEntries;
      var head := GetBucketHeadPageID(bucketID);
      entries := CollectEntries(bucketID, head);
      ghost var before := View();
      pages := pages[head := FRESH_BUCKET];
      chains := chains[bucketID := [head]];
      DrainStep(before, View(), bucketID);
    }

    /** The chain walk shared by drainBucketChain and forEachEntry. */
    method CollectEntries(bucketID: nat, head: int) returns (entries: seq<HashEntry>)
      requires StoreOk(View()) && bucketID < |chains| && |chains[bucketID]| >= 1 && head == chains[bucketID][0]
      ensures entries == BucketEntries(View(), bucketID)
    {
      hide StoreOk;
      ghost var chain := chains[bucketID];
      ChainIsBuckets(View(), bucketID);
      PageAt(View(), bucketID, 0);
      entries := [];
      var current := head;
      ghost var i: nat := 0;
      while current != NO_PAGE && current != 0
        invariant i <= |chain| && AllBuckets(pages, chain[..i])
        invariant entries == ChainEntries(pages, chain[..i])
        invariant if i < |chain| then current == chain[i] && current != NO_PAGE && current != 0 else current == NO_PAGE
        decreases |chain| - i
      {
        PageAt(View(), bucketID, i);
        assert chain[..i + 1][..i] == chain[..i];
        entries := entries + pages[current].entries;
        current := pages[current].next;
        i := i + 1;
      }
      assert chain[..i] == chain;
    }

    method Search(key: Value) returns (result: seq<Tid>)
      requires Valid() && key.HasType(keyType)
      ensures multiset(result) == multiset(TidsOf(log, key))
    {
      hide StoreOk, BucketEntries, MetaOk, BitAnd, TidsOf, BagOf;
      var hash := hashOf(key);
      var bucketID := ComputeBucket(meta, hash);
      ComputeBucketIs(meta, k, hash);
      var head := GetBucketHeadPageID(bucketID);
      var entries := CollectEntries(bucketID, head);
      result := [];
      var i := 0;
      while i < |entries|
        invariant 0 <= i <= |entries|
        invariant forall tid :: multiset(result)[tid] == multiset(entries[..i])[HashEntry(hash, key, tid)]
      {
        var e := entries[i];
        assert entries[..i + 1] == entries[..i] + [e];
        if e.hash == hash && SameType(key, e.key) && Compare(key, e.key) == 0 {
          result := result + [e.tid];
        }
        i := i + 1;
      }
      assert entries[..i] == entries;
      forall tid ensures multiset(result)[tid] == multiset(TidsOf(log, key))[tid] {
        BagCounts(log, hashOf, key, tid);
        assert multiset(BucketEntries(View(), bucketID))[HashEntry(hash, key, tid)] == Bag()[HashEntry(hash, key, tid)];
      }
    }

    /** The re-insertion loop of performSplit: every drained entry goes where the new masks say. */
    method RedistributeEntries(entries: seq<HashEntry>, ghost bag: multiset<HashEntry>)
      requires StoreOk(View()) && MetaSplitting(meta, k) && |chains| == meta.bucketCount && Pow2(k) > 0
      requires Replacing(View(), Pow2(k), meta.splitPointer, bag, multiset{})
      requires forall e :: e in entries ==> BucketOf(e.hash, Pow2(k), meta.splitPointer) == meta.splitPointer && EntrySize(e) <= MAX_ENTRY
      requires forall e: HashEntry :: BucketOf(e.hash, Pow2(k), meta.splitPointer) == meta.splitPointer ==> multiset(entries)[e] == bag[e]
      modifies this`pages, this`meta, this`chains, this`owner
      ensures meta == old(meta).(nextPageID := meta.nextPageID)
      ensures StoreOk(View()) && |chains| == meta.bucketCount
      ensures Placed(View(), Pow2(k), meta.splitPointer + 1, bag)
    {
      hide StoreOk, BucketEntries, BitAnd, EntrySize, Placed, Replacing, Pow2, BucketOf, Gained;
      ghost var m, split := Pow2(k), meta.splitPointer;
      var i := 0;
      assert entries[..0] == [];
      while i < |entries|
        invariant 0 <= i <= |entries| && StoreOk(View()) && |chains| == meta.bucketCount
        invariant meta == old(meta).(nextPageID := meta.nextPageID)
        invariant Replacing(View(), m, split, bag, multiset(entries[..i]))
      {
        var e := entries[i];
        assert e in entries;
        ghost var before := View();
        SplittingBucketIs(meta, k, e.hash);
        var target := ComputeBucket(meta, e.hash);
        InsertIntoBucketChain(target, e);
        ReplacingGains(before, View(), m, split, bag, multiset(entries[..i]), e);
        assert entries[..i + 1] == entries[..i] + [e];
        i := i + 1;
      }
      assert entries[..i] == entries;
      ReplacedIsPlaced(View(), m, split, bag, multiset(entries));
    }

    method PerformSplit()
      requires Sound() && meta.bucketCount < MAX_BUCKETS
      modifies this`pages, this`meta, this`metaPage, this`chains, this`owner, this`k
      ensures Sound() && metaPage == meta
      ensures meta.bucketCount == old(meta.bucketCount) + 1 && meta.recordCount == old(meta.recordCount)
    {
      hide StoreOk, BucketEntries, BagOf, BitAnd, EntrySize, Placed, Replacing, Pow2, BucketOf, LogHasType, Value.HasType;
      var splitBucketID := meta.splitPointer;
      var newBucketID := meta.maxBucket + 1;
      ghost var m := Pow2(k);
      ghost var bag := Bag();
      ghost var s := View();
      OpenBucket(newBucketID);
      var newMaxBucket := meta.maxBucket + 1;
      var newHighmask := meta.highmask;
      if newMaxBucket > newHighmask {
        newHighmask := 2 * newHighmask + 1;
      }
      meta := meta.(bucketCount := newMaxBucket + 1, maxBucket := newMaxBucket, highmask := newHighmask);
      metaPage := meta;
      assert MetaSplitting(meta, k);
      var entries := DrainBucketChain(splitBucketID);
      DrainedIsReplacing(s, View(), m, splitBucketID, bag);
      DrainedAre(s, m, splitBucketID, bag, entries);
      RedistributeEntries(entries, bag);
      var nextSplitPointer := meta.splitPointer + 1;
      var newLowmask := meta.lowmask;
      if nextSplitPointer == meta.lowmask + 1 {
        newLowmask := meta.highmask;
        nextSplitPointer := 0;
        PlacedNextRound(View(), m, bag);
        DoublePow2(k);
        k := k + 1;
      }
      meta := meta.(splitPointer := nextSplitPointer, lowmask := newLowmask);
      metaPage := meta;
    }

    /** Enters a fresh head page for the next bucket number. */
    method OpenBucket(bucketID: nat)
      requires StoreOk(View()) && bucketID == |chains| < MAX_BUCKETS
      modifies this`pages, this`meta, this`chains, this`owner
      ensures StoreOk(View()) && |chains| == |old(chains)| + 1
      ensures BucketEntries(View(), bucketID) == []
      ensures forall b :: 0 <= b < bucketID ==> BucketEntries(View(), b) == old(BucketEntries(View(), b))
      ensures meta == old(meta).(nextPageID := meta.nextPageID)
    {
      hide BucketEntries, ChainsOk, HeadsOk;
      ghost var before := View();
      DirectoryStaysInPlace(bucketID);
      var headPageID := AllocateDataPage();
      var dirPageID := 1 + bucketID / DIR_ENTRIES_PER_PAGE;
      var entryIdx := bucketID % DIR_ENTRIES_PER_PAGE;
      pages := pages[dirPageID := DirPage(pages[dirPageID].heads[entryIdx := headPageID])];
      chains := chains + [[headPageID]];
      owner := owner[headPageID := (bucketID, 0)];
      OpenStep(before, View());
    }

    method Insert(key: Value, tid: Tid)
      requires Valid() && key.HasType(keyType)
      requires EntrySize(HashEntry(hashOf(key), key, tid)) <= MAX_ENTRY && |log| < MAX_RECORDS
      modifies this`pages, this`meta, this`metaPage, this`chains, this`owner, this`k, this`log
      ensures Valid() && log == old(log) + [Entry(key, tid)]
      ensures old(meta.bucketCount) <= meta.bucketCount <= old(meta.bucketCount) + 1
    {
      hide StoreOk, BucketEntries, BagOf, BitAnd, EntrySize, Placed;
      var hash := hashOf(key);
      var bucketID := ComputeBucket(meta, hash);
      ComputeBucketIs(meta, k, hash);
      var entry := HashEntry(hash, key, tid);
      ghost var before := View();
      ghost var bag := Bag();
      InsertIntoBucketChain(bucketID, entry);
      PlacedGains(before, View(), Pow2(k), meta.splitPointer, bag, entry);
      BagSnoc(log, Entry(key, tid), hashOf);
      log := log + [Entry(key, tid)];
      meta := meta.(recordCount := meta.recordCount + 1);
      metaPage := meta;
      while meta.recordCount > MAX_PER_BUCKET * meta.bucketCount
        invariant Sound() && metaPage == meta && meta.recordCount == |log| && log == old(log) + [Entry(key, tid)]
        invariant meta.bucketCount == old(meta.bucketCount) || (meta.bucketCount == old(meta.bucketCount) + 1 && Loaded())
        invariant meta.recordCount <= MAX_PER_BUCKET * meta.bucketCount + 1
        invariant meta.bucketCount == INITIAL_BUCKETS || meta.recordCount > MAX_PER_BUCKET * (meta.bucketCount - 1)
        decreases meta.recordCount - MAX_PER_BUCKET * meta.bucketCount
      {
        PerformSplit();
      }
    }
  }
}
