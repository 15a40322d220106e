/** The pages of the disk hash index: directory, bucket chains, and the steps that change them. */
module HashPages {
  import opened Values
  import opened Pages
  import opened KeyCodec

  const DIR_PAGES: nat := 64
  const DIR_ENTRIES_PER_PAGE: nat := (PAGE_SIZE - HEADER_SIZE) / 4
  const DATA_START_PAGE: nat := 1 + DIR_PAGES
  const MAX_BUCKETS: nat := DIR_PAGES * DIR_ENTRIES_PER_PAGE
  /** The header of a bucket page: overflow link, entry count, free offset. */
  const NEXT_OFF: nat := HEADER_SIZE
  const COUNT_OFF: nat := HEADER_SIZE + 4
  const FREE_OFF: nat := HEADER_SIZE + 8
  const BUCKET_DATA_START: nat := HEADER_SIZE + 12

  datatype HashEntry = HashEntry(hash: nat, key: Value, tid: Tid)

  datatype Page =
    | DirPage(heads: seq<int>)
    | BucketPage(next: int, entries: seq<HashEntry>, free: nat)

  const FRESH_BUCKET: Page := BucketPage(NO_PAGE, [], BUCKET_DATA_START)

  function EntrySize(e: HashEntry): nat {
    4 + KeySize(e.key) + TID_SIZE
  }

  function EntriesSize(es: seq<HashEntry>): nat {
    if es == [] then 0 else EntriesSize(es[..|es| - 1]) + EntrySize(es[|es| - 1])
  }

  lemma EntriesSizeSnoc(es: seq<HashEntry>, e: HashEntry)
    ensures EntriesSize(es + [e]) == EntriesSize(es) + EntrySize(e)
  {
    assert (es + [e])[..|es|] == es;
  }

  /** The index pages with their chains: `chains[b]` lists the pages of bucket `b` from its head,
      and `owner` tells the place of a chained page. */
  datatype Store = Store(
    pages: map<int, Page>, next: int,
    chains: seq<seq<int>>, owner: map<int, (int, int)>)

  // ----- The directory -----

  function DirPageOf(bucket: nat): nat { 1 + bucket / DIR_ENTRIES_PER_PAGE }

  /** The directory occupies pages 1..64; a bucket number beyond them lands on a data page. */
  lemma DirectoryStaysInPlace(bucket: nat)
    ensures 1 <= DirPageOf(bucket) <= DIR_PAGES <==> bucket < MAX_BUCKETS
    ensures DirPageOf(bucket) >= DATA_START_PAGE <==> bucket >= MAX_BUCKETS
  {
    assert DIR_ENTRIES_PER_PAGE == 2045 && MAX_BUCKETS == 130880;
    var q := bucket / 2045;
    assert 2045 * q <= bucket < 2045 * q + 2045;
  }

  /** Where in its directory page the head of a bucket is kept. */
  function DirCellOff(bucket: nat): nat { HEADER_SIZE + 4 * (bucket % DIR_ENTRIES_PER_PAGE) }

  /** The first bucket beyond the directory is kept at the overflow link of the first data page. */
  lemma FirstBucketBeyond()
    ensures DirPageOf(MAX_BUCKETS) == DATA_START_PAGE && DirCellOff(MAX_BUCKETS) == NEXT_OFF
  {
    assert DIR_ENTRIES_PER_PAGE == 2045 && MAX_BUCKETS == 130880;
    assert 130880 / 2045 == 64 && 130880 % 2045 == 0;
  }

  ghost predicate DirOk(s: Store) {
    forall p {:trigger p in s.pages} :: 1 <= p <= DIR_PAGES ==>
      p in s.pages && s.pages[p].DirPage? && |s.pages[p].heads| == DIR_ENTRIES_PER_PAGE
  }

  function HeadOf(pages: map<int, Page>, bucket: nat): int
    requires bucket < MAX_BUCKETS && DirPageOf(bucket) in pages
    requires pages[DirPageOf(bucket)].DirPage? && |pages[DirPageOf(bucket)].heads| == DIR_ENTRIES_PER_PAGE
  {
    pages[DirPageOf(bucket)].heads[bucket % DIR_ENTRIES_PER_PAGE]
  }

  ghost predicate HeadsOk(s: Store)
    requires DirOk(s)
  {
    |s.chains| <= MAX_BUCKETS
    && forall b :: 0 <= b < |s.chains| ==> |s.chains[b]| >= 1 && HeadOf(s.pages, b) == s.chains[b][0]
  }

  // ----- The chains -----

  ghost predicate LinkOk(s: Store, b: int, i: int)
    requires 0 <= b < |s.chains| && 0 <= i < |s.chains[b]|
  {
    var p := s.chains[b][i];
    && p in s.pages && s.pages[p].BucketPage? && DATA_START_PAGE <= p < s.next
    && s.pages[p].next == (if i == |s.chains[b]| - 1 then NO_PAGE else s.chains[b][i + 1])
    && p in s.owner && s.owner[p] == (b, i)
    && s.pages[p].free == BUCKET_DATA_START + EntriesSize(s.pages[p].entries) <= PAGE_SIZE
  }

  /** Chains are acyclic and share no page: every chained page has one owner place. */
  ghost predicate ChainsOk(s: Store) {
    forall b, i {:trigger s.chains[b][i]} {:trigger LinkOk(s, b, i)} ::
      0 <= b < |s.chains| && 0 <= i < |s.chains[b]| ==> LinkOk(s, b, i)
  }

  ghost predicate StoreOk(s: Store) {
    DirOk(s) && HeadsOk(s) && ChainsOk(s) && s.next >= DATA_START_PAGE
  }

  ghost predicate AllBuckets(pages: map<int, Page>, chain: seq<int>) {
    forall i :: 0 <= i < |chain| ==> chain[i] in pages && pages[chain[i]].BucketPage?
  }

  /** The entries of a chain, in walking order. */
  ghost function ChainEntries(pages: map<int, Page>, chain: seq<int>): seq<HashEntry>
    requires AllBuckets(pages, chain)
  {
    if chain == [] then []
    else ChainEntries(pages, chain[..|chain| - 1]) + pages[chain[|chain| - 1]].entries
  }

  ghost function BucketEntries(s: Store, b: int): seq<HashEntry>
    requires StoreOk(s) && 0 <= b < |s.chains|
  {
    assert AllBuckets(s.pages, s.chains[b]) by {
      forall i | 0 <= i < |s.chains[b]| ensures s.chains[b][i] in s.pages && s.pages[s.chains[b][i]].BucketPage? {
        assert LinkOk(s, b, i);
      }
    }
    ChainEntries(s.pages, s.chains[b])
  }

  lemma SingletonEntries(pages: map<int, Page>, p: int)
    requires AllBuckets(pages, [p])
    ensures p in pages && pages[p].BucketPage? && ChainEntries(pages, [p]) == pages[p].entries
  {
    assert [p][0] in pages;
    assert [p][..|[p]| - 1] == [];
    assert ChainEntries(pages, []) == [];
  }

  lemma {:induction false} SameChainEntries(pages: map<int, Page>, pages': map<int, Page>, chain: seq<int>)
    requires AllBuckets(pages, chain) && AllBuckets(pages', chain)
    requires forall i :: 0 <= i < |chain| ==> pages'[chain[i]].entries == pages[chain[i]].entries
    ensures ChainEntries(pages', chain) == ChainEntries(pages, chain)
  {
    if chain != [] {
      SameChainEntries(pages, pages', chain[..|chain| - 1]);
    }
  }

  /** One page of a chain gains one entry. */
  lemma {:induction false} ChainGains(pages: map<int, Page>, pages': map<int, Page>, chain: seq<int>, at: nat, e: HashEntry)
    requires AllBuckets(pages, chain) && AllBuckets(pages', chain) && at < |chain|
    requires forall i :: 0 <= i < |chain| && i != at ==> pages'[chain[i]].entries == pages[chain[i]].entries
    requires pages'[chain[at]].entries == pages[chain[at]].entries + [e]
    ensures multiset(ChainEntries(pages', chain)) == multiset(ChainEntries(pages, chain)) + multiset{e}
  {
    var init := chain[..|chain| - 1];
    if at == |chain| - 1 {
      SameChainEntries(pages, pages', init);
    } else {
      ChainGains(pages, pages', init, at, e);
    }
  }

  // ----- The steps -----

  /** Entry `e` is appended to the `i`-th page of bucket `b`. */
  ghost predicate Appended(s: Store, s': Store, b: nat, i: nat, e: HashEntry) {
    && b < |s.chains| && i < |s.chains[b]|
    && var p := s.chains[b][i];
    && p in s.pages && s.pages[p].BucketPage? && s.pages[p].free + EntrySize(e) <= PAGE_SIZE
    && s' == s.(pages := s.pages[p := BucketPage(s.pages[p].next, s.pages[p].entries + [e], s.pages[p].free + EntrySize(e))])
  }

  lemma AppendedLinks(s: Store, s': Store, b: nat, i: nat, e: HashEntry)
    requires StoreOk(s) && Appended(s, s', b, i, e)
    ensures StoreOk(s')
  {
    hide EntriesSize, EntrySize;
    assert LinkOk(s, b, i);
    AppendedChains(s, s', b, i, e);
    AppendedDirectory(s, s', b, i, e);
  }

  lemma AppendedChains(s: Store, s': Store, b: nat, i: nat, e: HashEntry)
    requires ChainsOk(s) && Appended(s, s', b, i, e)
    ensures ChainsOk(s')
  {
    hide EntriesSize, EntrySize;
    var p := s.chains[b][i];
    assert LinkOk(s, b, i);
    EntriesSizeSnoc(s.pages[p].entries, e);
    forall b', i' | 0 <= b' < |s'.chains| && 0 <= i' < |s'.chains[b']| ensures LinkOk(s', b', i') {
      assert LinkOk(s, b', i');
    }
  }

  lemma AppendedDirectory(s: Store, s': Store, b: nat, i: nat, e: HashEntry)
    requires DirOk(s) && HeadsOk(s) && Appended(s, s', b, i, e) && s.chains[b][i] >= DATA_START_PAGE
    ensures DirOk(s') && HeadsOk(s')
  {
    hide EntriesSize, EntrySize;
    forall b' | 0 <= b' < |s'.chains| ensures |s'.chains[b']| >= 1 && HeadOf(s'.pages, b') == s'.chains[b'][0] {
      DirectoryStaysInPlace(b');
    }
  }

  lemma AppendedEntries(s: Store, s': Store, b: nat, i: nat, e: HashEntry)
    requires StoreOk(s) && StoreOk(s') && Appended(s, s', b, i, e)
    ensures multiset(BucketEntries(s', b)) == multiset(BucketEntries(s, b)) + multiset{e}
    ensures forall b' :: 0 <= b' < |s.chains| && b' != b ==> BucketEntries(s', b') == BucketEntries(s, b')
  {
    hide EntriesSize, EntrySize, DirOk, HeadsOk, ChainEntries;
    var p := s.chains[b][i];
    forall b', k | 0 <= b' < |s.chains| && 0 <= k < |s.chains[b']| ensures s.chains[b'][k] in s.pages && (s.chains[b'][k] == p ==> b' == b && k == i) {
      assert LinkOk(s, b', k);
      assert LinkOk(s, b, i);
    }
    ChainGains(s.pages, s'.pages, s.chains[b], i, e);
    forall b' | 0 <= b' < |s.chains| && b' != b ensures BucketEntries(s', b') == BucketEntries(s, b') {
      SameChainEntries(s.pages, s'.pages, s.chains[b']);
    }
  }

  /** A fresh overflow page is linked behind the last page of bucket `b`. */
  ghost predicate Overflowed(s: Store, s': Store, b: nat) {
    && b < |s.chains| && |s.chains[b]| >= 1
    && var last := s.chains[b][|s.chains[b]| - 1];
    && last in s.pages && s.pages[last].BucketPage?
    && s' == Store(
         s.pages[s.next := FRESH_BUCKET][last := s.pages[last].(next := s.next)], s.next + 1,
         s.chains[b := s.chains[b] + [s.next]], s.owner[s.next := (b, |s.chains[b]|)])
  }

  lemma OverflowedLinks(s: Store, s': Store, b: nat)
    requires StoreOk(s) && Overflowed(s, s', b)
    ensures StoreOk(s')
  {
    hide EntriesSize, EntrySize, ChainsOk;
    OverflowedChains(s, s', b);
    assert LinkOk(s, b, |s.chains[b]| - 1) by { LinkAt(s, b, |s.chains[b]| - 1); }
    forall p | 1 <= p <= DIR_PAGES ensures p in s'.pages && s'.pages[p].DirPage? && |s'.pages[p].heads| == DIR_ENTRIES_PER_PAGE {
      assert p in s.pages;
    }
    forall b' | 0 <= b' < |s'.chains| ensures |s'.chains[b']| >= 1 && HeadOf(s'.pages, b') == s'.chains[b'][0] {
      assert DirPageOf(b') in s.pages;
    }
  }

  lemma LinkAt(s: Store, b: int, i: int)
    requires ChainsOk(s) && 0 <= b < |s.chains| && 0 <= i < |s.chains[b]|
    ensures LinkOk(s, b, i)
  {
  }

  lemma OverflowedChains(s: Store, s': Store, b: nat)
    requires StoreOk(s) && Overflowed(s, s', b)
    ensures ChainsOk(s')
  {
    hide EntriesSize, EntrySize, DirOk, HeadsOk;
    NoEntriesSize();
    var n := |s.chains[b]|;
    var last := s.chains[b][n - 1];
    assert LinkOk(s, b, n - 1);
    forall b', i' | 0 <= b' < |s'.chains| && 0 <= i' < |s'.chains[b']| ensures LinkOk(s', b', i') {
      if b' == b && i' == n {
        assert s'.chains[b][n] == s.next;
      } else {
        assert LinkOk(s, b', i');
        assert s'.chains[b'][i'] == s.chains[b'][i'];
      }
    }
  }

  lemma NoEntriesSize()
    ensures EntriesSize([]) == 0
  {
  }

  lemma OverflowedEntries(s: Store, s': Store, b: nat)
    requires StoreOk(s) && StoreOk(s') && Overflowed(s, s', b)
    ensures forall b' :: 0 <= b' < |s.chains| ==> BucketEntries(s', b') == BucketEntries(s, b')
  {
    var n := |s.chains[b]|;
    forall b', k | 0 <= b' < |s.chains| && 0 <= k < |s.chains[b']|
      ensures s.chains[b'][k] in s.pages && s.chains[b'][k] != s.next
    {
      assert LinkOk(s, b', k);
    }
    forall b' | 0 <= b' < |s.chains| ensures BucketEntries(s', b') == BucketEntries(s, b') {
      SameChainEntries(s.pages, s'.pages, s.chains[b']);
      if b' == b {
        assert s'.chains[b][..n] == s.chains[b];
      }
    }
  }

  /** The chain of bucket `b` is cut back to an empty head page; its overflow pages are orphaned. */
  ghost predicate Drained(s: Store, s': Store, b: nat) {
    && b < |s.chains| && |s.chains[b]| >= 1
    && s' == s.(pages := s.pages[s.chains[b][0] := FRESH_BUCKET], chains := s.chains[b := [s.chains[b][0]]])
  }

  lemma DrainedLinks(s: Store, s': Store, b: nat)
    requires StoreOk(s) && Drained(s, s', b)
    ensures StoreOk(s')
  {
    hide EntriesSize, EntrySize, ChainsOk;
    DrainedChains(s, s', b);
    LinkAt(s, b, 0);
    forall p | 1 <= p <= DIR_PAGES ensures p in s'.pages && s'.pages[p].DirPage? && |s'.pages[p].heads| == DIR_ENTRIES_PER_PAGE {
      assert p in s.pages;
    }
    forall b' | 0 <= b' < |s'.chains| ensures |s'.chains[b']| >= 1 && HeadOf(s'.pages, b') == s'.chains[b'][0] {
      assert DirPageOf(b') in s.pages;
    }
  }

  lemma DrainedChains(s: Store, s': Store, b: nat)
    requires StoreOk(s) && Drained(s, s', b)
    ensures ChainsOk(s')
  {
    hide EntriesSize, EntrySize, DirOk, HeadsOk;
    NoEntriesSize();
    assert LinkOk(s, b, 0);
    forall b', i' | 0 <= b' < |s'.chains| && 0 <= i' < |s'.chains[b']| ensures LinkOk(s', b', i') {
      assert LinkOk(s, b', i');
    }
  }

  lemma DrainedEntries(s: Store, s': Store, b: nat)
    requires StoreOk(s) && StoreOk(s') && Drained(s, s', b)
    ensures BucketEntries(s', b) == []
    ensures forall b' :: 0 <= b' < |s.chains| && b' != b ==> BucketEntries(s', b') == BucketEntries(s, b')
  {
    assert LinkOk(s, b, 0);
    SingletonEntries(s'.pages, s.chains[b][0]);
    forall b' | 0 <= b' < |s.chains| && b' != b ensures BucketEntries(s', b') == BucketEntries(s, b') {
      forall k | 0 <= k < |s.chains[b']| ensures s.chains[b'][k] in s.pages && s.chains[b'][k] != s.chains[b][0] {
        assert LinkOk(s, b', k);
      }
      SameChainEntries(s.pages, s'.pages, s.chains[b']);
    }
  }

  /** A fresh head page is entered in the directory for the next bucket number. */
  ghost predicate Opened(s: Store, s': Store) {
    && |s.chains| < MAX_BUCKETS
    && var d := DirPageOf(|s.chains|);
    && d in s.pages && s.pages[d].DirPage? && |s.pages[d].heads| == DIR_ENTRIES_PER_PAGE
    && s' == Store(
         s.pages[s.next := FRESH_BUCKET][d := DirPage(s.pages[d].heads[|s.chains| % DIR_ENTRIES_PER_PAGE := s.next])], s.next + 1,
         s.chains + [[s.next]], s.owner[s.next := (|s.chains|, 0)])
  }

  lemma OpenedLinks(s: Store, s': Store)
    requires StoreOk(s) && Opened(s, s')
    ensures StoreOk(s')
  {
    hide EntriesSize, EntrySize, DirOk, HeadsOk, ChainsOk, Opened;
    DirectoryStaysInPlace(|s.chains|);
    OpenedDirectory(s, s');
    OpenedHeads(s, s');
    OpenedChains(s, s');
    assert s'.next >= DATA_START_PAGE by { OpenedNext(s, s'); }
  }

  lemma OpenedNext(s: Store, s': Store)
    requires Opened(s, s')
    ensures s'.next == s.next + 1
  {
  }

  lemma OpenedChains(s: Store, s': Store)
    requires StoreOk(s) && Opened(s, s')
    ensures ChainsOk(s')
  {
    hide EntriesSize, EntrySize, DirOk, HeadsOk;
    NoEntriesSize();
    DirectoryStaysInPlace(|s.chains|);
    forall b', i' | 0 <= b' < |s'.chains| && 0 <= i' < |s'.chains[b']| ensures LinkOk(s', b', i') {
      if b' < |s.chains| {
        assert LinkOk(s, b', i');
      }
    }
  }

  lemma OpenedDirectory(s: Store, s': Store)
    requires StoreOk(s) && Opened(s, s')
    ensures DirOk(s')
  {
    hide EntriesSize, EntrySize, ChainsOk, HeadsOk;
    forall p | 1 <= p <= DIR_PAGES ensures p in s'.pages && s'.pages[p].DirPage? && |s'.pages[p].heads| == DIR_ENTRIES_PER_PAGE {
      assert p in s.pages;
    }
  }

  lemma OpenedHeads(s: Store, s': Store)
    requires StoreOk(s) && Opened(s, s') && DirOk(s')
    ensures HeadsOk(s')
  {
    hide EntriesSize, EntrySize, ChainsOk, DirPageOf;
    forall b': nat | b' < |s'.chains| ensures 1 <= DirPageOf(b') <= DIR_PAGES {
      DirectoryStaysInPlace(b');
    }
    forall b' | 0 <= b' < |s'.chains| ensures |s'.chains[b']| >= 1 && HeadOf(s'.pages, b') == s'.chains[b'][0] {
      assert DirPageOf(b') in s.pages;
      if b' < |s.chains| {
        SamePlace(b', |s.chains|);
      }
    }
  }

  /** Two buckets never share a directory cell. */
  lemma SamePlace(a: nat, b: nat)
    ensures DirPageOf(a) == DirPageOf(b) && a % DIR_ENTRIES_PER_PAGE == b % DIR_ENTRIES_PER_PAGE ==> a == b
  {
  }

  lemma OpenedEntries(s: Store, s': Store)
    requires StoreOk(s) && StoreOk(s') && Opened(s, s')
    ensures BucketEntries(s', |s.chains|) == []
    ensures forall b' :: 0 <= b' < |s.chains| ==> BucketEntries(s', b') == BucketEntries(s, b')
  {
    DirectoryStaysInPlace(|s.chains|);
    SingletonEntries(s'.pages, s.next);
    forall b' | 0 <= b' < |s.chains| ensures BucketEntries(s', b') == BucketEntries(s, b') {
      forall k | 0 <= k < |s.chains[b']| ensures s.chains[b'][k] in s.pages && s.chains[b'][k] != s.next && s.chains[b'][k] != DirPageOf(|s.chains|) {
        assert LinkOk(s, b', k);
      }
      SameChainEntries(s.pages, s'.pages, s.chains[b']);
    }
  }

  lemma PageAt(s: Store, b: int, i: int)
    requires StoreOk(s) && 0 <= b < |s.chains| && 0 <= i < |s.chains[b]|
    ensures var p := s.chains[b][i];
      && p in s.pages && s.pages[p].BucketPage? && DATA_START_PAGE <= p < s.next
      && s.pages[p].next == (if i == |s.chains[b]| - 1 then NO_PAGE else s.chains[b][i + 1])
      && (i + 1 < |s.chains[b]| ==> s.chains[b][i + 1] != NO_PAGE && s.chains[b][i + 1] != 0)
  {
    assert LinkOk(s, b, i);
    assert i + 1 < |s.chains[b]| ==> LinkOk(s, b, i + 1);
  }
}
