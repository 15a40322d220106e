/** Where linear hashing keeps each entry, and how one split re-homes them. */
module HashPlacement {
  import opened Values
  import opened Pages
  import opened IndexLog
  import opened HashMasks
  import opened HashPages

  datatype HashMeta = HashMeta(
    bucketCount: nat, lowmask: nat, highmask: nat, splitPointer: nat, maxBucket: nat,
    recordCount: nat, nextPageID: int)

  const INITIAL_BUCKETS: nat := 16
  /** 0.75 of 64 target entries per bucket. */
  const MAX_PER_BUCKET: nat := 48
  /** With this many records the directory is full. */
  const MAX_RECORDS: nat := MAX_PER_BUCKET * MAX_BUCKETS
  /** The room of a fresh bucket page; a larger entry would fit no page. */
  const MAX_ENTRY: nat := PAGE_SIZE - BUCKET_DATA_START

  /** The mask arithmetic of `computeBucket`. */
  function ComputeBucket(meta: HashMeta, hash: nat): nat {
    var bucket := BitAnd(hash, meta.highmask);
    if bucket > meta.maxBucket then BitAnd(hash, meta.lowmask) else bucket
  }

  /** The masks are 2^k - 1 and 2^(k+1) - 1 (equal to the first between rounds), and
      `splitPointer` of the 2^k base buckets have been split. */
  ghost predicate MetaOk(meta: HashMeta, k: nat) {
    && meta.lowmask == Pow2(k) - 1 && meta.splitPointer < Pow2(k)
    && meta.maxBucket == meta.lowmask + meta.splitPointer
    && meta.bucketCount == meta.maxBucket + 1
    && meta.highmask == if meta.splitPointer == 0 then meta.lowmask else 2 * meta.lowmask + 1
  }

  lemma ComputeBucketIs(meta: HashMeta, k: nat, hash: nat)
    requires MetaOk(meta, k)
    ensures Pow2(k) > 0 && ComputeBucket(meta, hash) == BucketOf(hash, Pow2(k), meta.splitPointer) < meta.bucketCount
  {
    hide BitAnd, Pow2;
    MaskIsMod(hash, k);
    MaskIsMod(hash, k + 1);
    DoublePow2(k);
    ModTwice(hash, Pow2(k));
  }

  lemma DoublePow2(k: nat)
    ensures Pow2(k + 1) == 2 * Pow2(k) && Pow2(k) > 0
  {
    MaskIsMod(0, k);
  }

  /** During a split the masks already address the new bucket, but the split pointer has not moved. */
  ghost predicate MetaSplitting(meta: HashMeta, k: nat) {
    && meta.lowmask == Pow2(k) - 1 && meta.splitPointer < Pow2(k)
    && meta.maxBucket == meta.lowmask + meta.splitPointer + 1
    && meta.bucketCount == meta.maxBucket + 1
    && meta.highmask == 2 * meta.lowmask + 1
  }

  lemma SplittingBucketIs(meta: HashMeta, k: nat, hash: nat)
    requires MetaSplitting(meta, k)
    ensures Pow2(k) > 0 && ComputeBucket(meta, hash) == BucketOf(hash, Pow2(k), meta.splitPointer + 1) < meta.bucketCount
  {
    hide BitAnd, Pow2;
    MaskIsMod(hash, k);
    MaskIsMod(hash, k + 1);
    DoublePow2(k);
  }

  // ----- What is stored where -----

  ghost function BagOf(log: seq<Entry>, hashOf: Value -> nat): multiset<HashEntry> {
    if log == [] then multiset{}
    else
      var last := log[|log| - 1];
      BagOf(log[..|log| - 1], hashOf) + multiset{HashEntry(hashOf(last.key), last.key, last.tid)}
  }

  lemma BagSnoc(log: seq<Entry>, e: Entry, hashOf: Value -> nat)
    ensures BagOf(log + [e], hashOf) == BagOf(log, hashOf) + multiset{HashEntry(hashOf(e.key), e.key, e.tid)}
  {
    assert (log + [e])[..|log|] == log;
  }

  /** How often a (key, tid) was inserted is how often its hash entry is in the bag. */
  lemma {:induction false} BagCounts(log: seq<Entry>, hashOf: Value -> nat, key: Value, tid: Tid)
    ensures BagOf(log, hashOf)[HashEntry(hashOf(key), key, tid)] == multiset(TidsOf(log, key))[tid]
  {
    if log != [] {
      BagCounts(log[..|log| - 1], hashOf, key, tid);
    }
  }

  ghost predicate EntriesOk(bag: multiset<HashEntry>, hashOf: Value -> nat, t: Type) {
    forall e :: e in bag ==> EntrySize(e) <= MAX_ENTRY && e.hash == hashOf(e.key) && e.key.HasType(t)
  }

  /** Conservation and placement at once: bucket `b` holds exactly the entries of `bag` whose hash
      belongs there, each as often as it was inserted. */
  ghost predicate Placed(s: Store, m: nat, split: nat, bag: multiset<HashEntry>)
    requires StoreOk(s) && m > 0 && split <= m
  {
    forall b, e :: 0 <= b < |s.chains| ==>
      multiset(BucketEntries(s, b))[e] == if BucketOf(e.hash, m, split) == b then bag[e] else 0
  }

  /** In the middle of a split: of the entries drained from bucket `split`, those in `done` are back. */
  ghost predicate Replacing(s: Store, m: nat, split: nat, bag: multiset<HashEntry>, done: multiset<HashEntry>)
    requires StoreOk(s) && m > 0 && split < m
  {
    forall b, e :: 0 <= b < |s.chains| ==>
      multiset(BucketEntries(s, b))[e] ==
        (if BucketOf(e.hash, m, split + 1) != b then 0
         else if BucketOf(e.hash, m, split) == split then done[e] else bag[e])
  }

  /** `b` gained `e`, nothing else changed. */
  ghost predicate Gained(s: Store, s': Store, b: nat, e: HashEntry)
    requires StoreOk(s) && StoreOk(s')
  {
    && |s'.chains| == |s.chains| && b < |s.chains|
    && multiset(BucketEntries(s', b)) == multiset(BucketEntries(s, b)) + multiset{e}
    && forall b' :: 0 <= b' < |s.chains| && b' != b ==> BucketEntries(s', b') == BucketEntries(s, b')
  }

  lemma PlacedGains(s: Store, s': Store, m: nat, split: nat, bag: multiset<HashEntry>, e: HashEntry)
    requires StoreOk(s) && StoreOk(s') && m > 0 && split <= m && Placed(s, m, split, bag)
    requires BucketOf(e.hash, m, split) < |s.chains| && Gained(s, s', BucketOf(e.hash, m, split), e)
    ensures Placed(s', m, split, bag + multiset{e})
  {
    hide BucketOf, BucketEntries;
    forall b, x | 0 <= b < |s'.chains|
      ensures multiset(BucketEntries(s', b))[x] == if BucketOf(x.hash, m, split) == b then (bag + multiset{e})[x] else 0
    {
      assert multiset(BucketEntries(s, b))[x] == if BucketOf(x.hash, m, split) == b then bag[x] else 0;
    }
  }

  lemma ReplacingGains(s: Store, s': Store, m: nat, split: nat, bag: multiset<HashEntry>, done: multiset<HashEntry>, e: HashEntry)
    requires StoreOk(s) && StoreOk(s') && m > 0 && split < m && Replacing(s, m, split, bag, done)
    requires BucketOf(e.hash, m, split) == split
    requires BucketOf(e.hash, m, split + 1) < |s.chains| && Gained(s, s', BucketOf(e.hash, m, split + 1), e)
    ensures Replacing(s', m, split, bag, done + multiset{e})
  {
    hide BucketOf, BucketEntries;
    forall b, x | 0 <= b < |s'.chains|
      ensures multiset(BucketEntries(s', b))[x] ==
        (if BucketOf(x.hash, m, split + 1) != b then 0
         else if BucketOf(x.hash, m, split) == split then (done + multiset{e})[x] else bag[x])
    {
      assert multiset(BucketEntries(s, b))[x] ==
        (if BucketOf(x.hash, m, split + 1) != b then 0
         else if BucketOf(x.hash, m, split) == split then done[x] else bag[x]);
    }
  }

  /** Opening the new bucket and draining the old one leaves every other entry in its new place. */
  lemma DrainedIsReplacing(s: Store, s': Store, m: nat, split: nat, bag: multiset<HashEntry>)
    requires StoreOk(s) && StoreOk(s') && m > 0 && split < m && |s.chains| == m + split && Placed(s, m, split, bag)
    requires |s'.chains| == m + split + 1
    requires BucketEntries(s', split) == [] && BucketEntries(s', m + split) == []
    requires forall b :: 0 <= b < m + split && b != split ==> BucketEntries(s', b) == BucketEntries(s, b)
    ensures Replacing(s', m, split, bag, multiset{})
  {
    forall b, x | 0 <= b < |s'.chains|
      ensures multiset(BucketEntries(s', b))[x] ==
        (if BucketOf(x.hash, m, split + 1) != b then 0
         else if BucketOf(x.hash, m, split) == split then multiset{}[x] else bag[x])
    {
      SplitRelocates(x.hash, m, split);
      if b != split && b != m + split {
        assert multiset(BucketEntries(s, b))[x] == if BucketOf(x.hash, m, split) == b then bag[x] else 0;
      }
    }
  }

  lemma ReplacedIsPlaced(s: Store, m: nat, split: nat, bag: multiset<HashEntry>, done: multiset<HashEntry>)
    requires StoreOk(s) && m > 0 && split < m && Replacing(s, m, split, bag, done)
    requires forall e: HashEntry :: BucketOf(e.hash, m, split) == split ==> done[e] == bag[e]
    ensures Placed(s, m, split + 1, bag)
  {
    forall b, e | 0 <= b < |s.chains|
      ensures multiset(BucketEntries(s, b))[e] == if BucketOf(e.hash, m, split + 1) == b then bag[e] else 0
    {
      assert multiset(BucketEntries(s, b))[e] ==
        (if BucketOf(e.hash, m, split + 1) != b then 0
         else if BucketOf(e.hash, m, split) == split then done[e] else bag[e]);
    }
  }

  lemma PlacedNextRound(s: Store, m: nat, bag: multiset<HashEntry>)
    requires StoreOk(s) && m > 0 && Placed(s, m, m, bag)
    ensures Placed(s, 2 * m, 0, bag)
  {
    forall b, e | 0 <= b < |s.chains|
      ensures multiset(BucketEntries(s, b))[e] == if BucketOf(e.hash, 2 * m, 0) == b then bag[e] else 0
    {
      RoundCompletes(e.hash, m);
      assert multiset(BucketEntries(s, b))[e] == if BucketOf(e.hash, m, m) == b then bag[e] else 0;
    }
  }

  // ----- All chains together -----

  /** The entries of the first `n` buckets. */
  ghost function InBuckets(s: Store, n: nat): multiset<HashEntry>
    requires StoreOk(s) && n <= |s.chains|
  {
    if n == 0 then multiset{} else InBuckets(s, n - 1) + multiset(BucketEntries(s, n - 1))
  }

  lemma {:induction false} InBucketsCount(s: Store, n: nat, m: nat, split: nat, bag: multiset<HashEntry>, e: HashEntry)
    requires StoreOk(s) && n <= |s.chains| && m > 0 && split <= m && Placed(s, m, split, bag)
    ensures InBuckets(s, n)[e] == if BucketOf(e.hash, m, split) < n then bag[e] else 0
  {
    hide StoreOk, BucketEntries, BucketOf;
    if n > 0 {
      InBucketsCount(s, n - 1, m, split, bag, e);
      assert multiset(BucketEntries(s, n - 1))[e] == if BucketOf(e.hash, m, split) == n - 1 then bag[e] else 0;
    }
  }

  lemma {:induction false} BagSize(log: seq<Entry>, hashOf: Value -> nat)
    ensures |BagOf(log, hashOf)| == |log|
  {
    if log != [] {
      BagSize(log[..|log| - 1], hashOf);
    }
  }

  /** Conservation: over all chains, exactly the inserted entries are stored, each as often as it was
      inserted, and their number is the number of inserts. */
  lemma StoredIsInserted(s: Store, m: nat, split: nat, log: seq<Entry>, hashOf: Value -> nat)
    requires StoreOk(s) && m > 0 && split <= m && |s.chains| == m + split && Placed(s, m, split, BagOf(log, hashOf))
    ensures InBuckets(s, |s.chains|) == BagOf(log, hashOf) && |InBuckets(s, |s.chains|)| == |log|
  {
    hide StoreOk, InBuckets, BagOf, Placed;
    forall e ensures InBuckets(s, |s.chains|)[e] == BagOf(log, hashOf)[e] {
      InBucketsCount(s, |s.chains|, m, split, BagOf(log, hashOf), e);
    }
    BagSize(log, hashOf);
  }

  lemma NoChains(s: Store)
    requires s.chains == []
    ensures ChainsOk(s)
  {
  }

  lemma PlacedEmpty(s: Store, m: nat, split: nat)
    requires StoreOk(s) && m > 0 && split <= m
    requires forall b :: 0 <= b < |s.chains| ==> BucketEntries(s, b) == []
    ensures Placed(s, m, split, multiset{})
  {
    hide BucketEntries, BucketOf;
    forall b, e | 0 <= b < |s.chains|
      ensures multiset(BucketEntries(s, b))[e] == if BucketOf(e.hash, m, split) == b then multiset{}[e] else 0
    {
      assert BucketEntries(s, b) == [];
    }
  }

  /** No page of the chain has room for the entry. */
  ghost predicate ChainFull(pages: map<int, Page>, chain: seq<int>, e: HashEntry) {
    forall i :: 0 <= i < |chain| ==>
      chain[i] in pages && pages[chain[i]].BucketPage? && pages[chain[i]].free + EntrySize(e) > PAGE_SIZE
  }

  /** A fresh page takes an entry exactly when it is at most 8170 bytes. */
  lemma FreshPageTakes(e: HashEntry)
    ensures FRESH_BUCKET.free + EntrySize(e) <= PAGE_SIZE <==> EntrySize(e) <= 8170
    ensures MAX_ENTRY == 8170
  {
  }

  /** An entry larger than a fresh page can hold: however many overflow pages are linked, the chain is
      full again, so the walk never ends. */
  lemma OversizedNeverFits(s: Store, s': Store, b: nat, e: HashEntry)
    requires StoreOk(s) && Overflowed(s, s', b) && EntrySize(e) > MAX_ENTRY
    ensures ChainFull(s.pages, s.chains[b], e)
    ensures StoreOk(s') && b < |s'.chains| && |s'.chains[b]| == |s.chains[b]| + 1 && ChainFull(s'.pages, s'.chains[b], e)
    ensures FRESH_BUCKET.free + EntrySize(e) > PAGE_SIZE && EntrySize(e) > 8170
  {
    FreshPageTakes(e);
    OverflowedLinks(s, s', b);
    AlwaysFull(s, b, e);
    AlwaysFull(s', b, e);
  }

  lemma AlwaysFull(s: Store, b: nat, e: HashEntry)
    requires StoreOk(s) && b < |s.chains| && EntrySize(e) > MAX_ENTRY
    ensures ChainFull(s.pages, s.chains[b], e)
  {
    forall i | 0 <= i < |s.chains[b]| ensures
      var p := s.chains[b][i];
      p in s.pages && s.pages[p].BucketPage? && s.pages[p].free + EntrySize(e) > PAGE_SIZE
    {
      assert LinkOk(s, b, i);
    }
  }

  /** The walk has passed `i` full pages and looks at the next. */
  lemma ChainFullSoFar(s: Store, b: nat, i: nat, e: HashEntry, isNew: bool)
    requires b < |s.chains|
    requires !isNew ==>
      && i < |s.chains[b]| && ChainFull(s.pages, s.chains[b][..i], e)
      && s.chains[b][i] in s.pages && s.pages[s.chains[b][i]].BucketPage?
    ensures !isNew && s.pages[s.chains[b][i]].free + EntrySize(e) <= PAGE_SIZE ==> !ChainFull(s.pages, s.chains[b], e)
    ensures !isNew && s.pages[s.chains[b][i]].free + EntrySize(e) > PAGE_SIZE ==>
      ChainFull(s.pages, s.chains[b][..i + 1], e) && (i + 1 == |s.chains[b]| ==> ChainFull(s.pages, s.chains[b], e))
  {
    if !isNew {
      if s.pages[s.chains[b][i]].free + EntrySize(e) > PAGE_SIZE {
        forall k | 0 <= k < i + 1 ensures
          var p := s.chains[b][k];
          p in s.pages && s.pages[p].BucketPage? && s.pages[p].free + EntrySize(e) > PAGE_SIZE
        {
          if k < i {
            assert s.chains[b][..i][k] == s.chains[b][k];
          }
        }
        if i + 1 == |s.chains[b]| {
          assert s.chains[b][..i + 1] == s.chains[b];
        }
      }
    }
  }

  lemma AppendStep(s: Store, s': Store, b: nat, i: nat, e: HashEntry)
    requires StoreOk(s) && Appended(s, s', b, i, e)
    ensures StoreOk(s') && Gained(s, s', b, e)
  {
    AppendedLinks(s, s', b, i, e);
    AppendedEntries(s, s', b, i, e);
  }

  lemma OverflowStep(s: Store, s': Store, b: nat)
    requires StoreOk(s) && Overflowed(s, s', b)
    ensures StoreOk(s') && |s'.chains| == |s.chains|
    ensures forall b' :: 0 <= b' < |s.chains| ==> BucketEntries(s', b') == BucketEntries(s, b')
  {
    OverflowedLinks(s, s', b);
    OverflowedEntries(s, s', b);
  }

  lemma DrainStep(s: Store, s': Store, b: nat)
    requires StoreOk(s) && Drained(s, s', b)
    ensures StoreOk(s') && |s'.chains| == |s.chains|
    ensures BucketEntries(s', b) == []
    ensures forall b' :: 0 <= b' < |s.chains| && b' != b ==> BucketEntries(s', b') == BucketEntries(s, b')
  {
    DrainedLinks(s, s', b);
    DrainedEntries(s, s', b);
  }

  lemma OpenStep(s: Store, s': Store)
    requires StoreOk(s) && Opened(s, s')
    ensures StoreOk(s') && |s'.chains| == |s.chains| + 1
    ensures BucketEntries(s', |s.chains|) == []
    ensures forall b' :: 0 <= b' < |s.chains| ==> BucketEntries(s', b') == BucketEntries(s, b')
  {
    OpenedLinks(s, s');
    OpenedEntries(s, s');
  }

  lemma ChainIsBuckets(s: Store, b: nat)
    requires StoreOk(s) && b < |s.chains|
    ensures AllBuckets(s.pages, s.chains[b]) && BucketEntries(s, b) == ChainEntries(s.pages, s.chains[b])
  {
    forall i | 0 <= i < |s.chains[b]| ensures s.chains[b][i] in s.pages && s.pages[s.chains[b][i]].BucketPage? {
      PageAt(s, b, i);
    }
  }

  /** The drained entries are those of the bucket, each fits a page, and each goes back. */
  lemma DrainedAre(s: Store, m: nat, split: nat, bag: multiset<HashEntry>, entries: seq<HashEntry>)
    requires StoreOk(s) && m > 0 && split < m && split < |s.chains| && Placed(s, m, split, bag)
    requires entries == BucketEntries(s, split)
    ensures forall e: HashEntry :: BucketOf(e.hash, m, split) == split ==> multiset(entries)[e] == bag[e]
    ensures forall e :: e in entries ==> BucketOf(e.hash, m, split) == split && e in bag
  {
    forall e: HashEntry ensures multiset(entries)[e] == if BucketOf(e.hash, m, split) == split then bag[e] else 0 {
    }
    forall e | e in entries ensures BucketOf(e.hash, m, split) == split && e in bag {
      assert e in multiset(entries);
    }
  }
}
