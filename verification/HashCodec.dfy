/** The byte layout of hash index pages: entries, bucket pages and the metadata page. */
module HashCodec {
  import opened Values
  import opened Bytes
  import opened Pages
  import opened KeyCodec
  import opened HashPages
  import opened HashPlacement

  // ----- Entries -----

  /** The casts of the encoder lose nothing on this entry. */
  predicate Encodable(e: HashEntry) {
    e.hash < 0x8000_0000 && (e.key.Varchar? ==> |e.key.s| < 0x1_0000)
  }

  function EncodeEntry(e: HashEntry): (b: seq<byte>)
    requires Encodable(e)
    ensures |b| == EntrySize(e)
  {
    BigEndian(e.hash, 4) + EncodeKey(e.key) + EncodeTid(e.tid)
  }

  function KeyLength(buf: seq<byte>, off: nat, t: Type): nat
    requires off + 2 <= |buf|
  {
    if t.INT64? then 8
    else
      var n: nat := GetUint16(buf, off);
      2 + n
  }

  /** The entry at `off` and the offset behind it; slicing past the end of the page is a Go panic. */
  function DecodeEntry(buf: seq<byte>, off: nat, t: Type): Option<(HashEntry, nat)> {
    if off + 6 > |buf| then None
    else
      var n := KeyLength(buf, off + 4, t);
      if off + 4 + n + 6 > |buf| then None
      else
        var hash: nat := GetUint32(buf, off);
        var key := if t.INT64? then Int64(UintToInt64(GetUint64(buf, off + 4))) else Varchar(buf[off + 6..off + 4 + n]);
        var tid := Tid(UintToInt32(GetUint32(buf, off + 4 + n)), UintToInt16(GetUint16(buf, off + 4 + n + 4)));
        Some((HashEntry(hash, key, tid), off + 4 + n + 6))
  }

  lemma Piece(buf: seq<byte>, off: nat, whole: seq<byte>, a: nat, b: nat)
    requires off + |whole| <= |buf| && buf[off..off + |whole|] == whole && a <= b <= |whole|
    ensures buf[off + a..off + b] == whole[a..b]
  {
    forall k | a <= k < b ensures buf[off + k] == whole[k] {
      assert buf[off..off + |whole|][k] == buf[off + k];
    }
  }

  lemma KeyRoundTrip(buf: seq<byte>, off: nat, k: Value, t: Type)
    requires (k.Varchar? ==> |k.s| < 0x1_0000) && k.HasType(t)
    requires off + |EncodeKey(k)| <= |buf| && buf[off..off + |EncodeKey(k)|] == EncodeKey(k)
    ensures KeyLength(buf, off, t) == |EncodeKey(k)|
    ensures k == if t.INT64? then Int64(UintToInt64(GetUint64(buf, off))) else Varchar(buf[off + 2..off + |EncodeKey(k)|])
  {
    hide BigEndian, FromBigEndian, GetUint16, GetUint64;
    var whole := EncodeKey(k);
    if k.Int64? {
      GetWritten64(buf, off, Int64ToUint(k.n));
    } else {
      Piece(buf, off, whole, 0, 2);
      assert whole[0..2] == BigEndian(|k.s|, 2);
      GetWritten16(buf, off, |k.s|);
      Piece(buf, off, whole, 2, |whole|);
      assert whole[2..] == k.s;
    }
  }

  lemma EntryRoundTrip(buf: seq<byte>, off: nat, e: HashEntry, t: Type)
    requires Encodable(e) && e.key.HasType(t)
    requires off + EntrySize(e) <= |buf| && buf[off..off + EntrySize(e)] == EncodeEntry(e)
    ensures DecodeEntry(buf, off, t) == Some((e, off + EntrySize(e)))
  {
    hide BigEndian, FromBigEndian, GetUint16, GetUint32, GetUint64, KeyLength, EncodeKey;
    var whole, n := EncodeEntry(e), |EncodeKey(e.key)|;
    Piece(buf, off, whole, 0, 4);
    assert whole[0..4] == BigEndian(e.hash, 4);
    GetWritten32(buf, off, e.hash);
    Piece(buf, off, whole, 4, 4 + n);
    assert whole[4..4 + n] == EncodeKey(e.key);
    KeyRoundTrip(buf, off + 4, e.key, t);
    Piece(buf, off, whole, 4 + n, 8 + n);
    assert whole[4 + n..8 + n] == BigEndian(Int32ToUint(e.tid.pageID), 4);
    GetWritten32(buf, off + 4 + n, Int32ToUint(e.tid.pageID));
    Piece(buf, off, whole, 8 + n, 10 + n);
    assert whole[8 + n..10 + n] == BigEndian(Int16ToUint(e.tid.slotID), 2);
    GetWritten16(buf, off + 8 + n, Int16ToUint(e.tid.slotID));
  }

  // ----- Bucket pages -----

  ghost predicate AllEncodable(es: seq<HashEntry>, t: Type) {
    forall i :: 0 <= i < |es| ==> Encodable(es[i]) && es[i].key.HasType(t)
  }

  ghost function EncodeEntries(es: seq<HashEntry>, t: Type): (b: seq<byte>)
    requires AllEncodable(es, t)
    ensures |b| == EntriesSize(es)
  {
    if es == [] then [] else EncodeEntries(es[..|es| - 1], t) + EncodeEntry(es[|es| - 1])
  }

  /** The buffer holds the bucket page: link, entry count, free offset, and the entries back to back. */
  ghost predicate Represents(buf: seq<byte>, p: Page, t: Type) {
    && |buf| == PAGE_SIZE && p.BucketPage? && IsInt32(p.next) && AllEncodable(p.entries, t)
    && p.free == BUCKET_DATA_START + EntriesSize(p.entries) <= PAGE_SIZE
    && |p.entries| <= PAGE_SIZE
    && var next: int32 := p.next;
    && GetUint32(buf, NEXT_OFF) == Int32ToUint(next)
    && GetUint32(buf, COUNT_OFF) == |p.entries| && GetUint32(buf, FREE_OFF) == p.free
    && buf[BUCKET_DATA_START..p.free] == EncodeEntries(p.entries, t)
  }

  lemma {:induction false} CountBelowSize(es: seq<HashEntry>)
    ensures |es| <= EntriesSize(es)
  {
    if es != [] {
      CountBelowSize(es[..|es| - 1]);
    }
  }

  /** initBucketPage: whatever the page held, it is a fresh bucket afterwards; the heap header stays. */
  method InitBucketPage(buf: array<byte>, ghost t: Type)
    requires buf.Length == PAGE_SIZE
    modifies buf
    ensures Represents(buf[..], FRESH_BUCKET, t) && buf[..10] == old(buf[..10])
  {
    hide BigEndian, GetUint32;
    PutBytes(buf, NEXT_OFF, BigEndian(0xFFFF_FFFF, 4));
    ghost var s1 := buf[..];
    PutBytes(buf, COUNT_OFF, BigEndian(0, 4));
    ghost var s2 := buf[..];
    PutBytes(buf, FREE_OFF, BigEndian(BUCKET_DATA_START, 4));
    ghost var s := buf[..];
    assert s[10..14] == s2[10..14] == s1[10..14] == BigEndian(0xFFFF_FFFF, 4);
    GetWritten32(s, NEXT_OFF, 0xFFFF_FFFF);
    assert s[14..18] == s2[14..18] == BigEndian(0, 4);
    GetWritten32(s, COUNT_OFF, 0);
    assert s[18..22] == BigEndian(BUCKET_DATA_START, 4);
    GetWritten32(s, FREE_OFF, BUCKET_DATA_START);
    assert s[22..22] == [];
  }

  /** The append of insertIntoBucketChain: the entry goes behind the others if it fits; otherwise nothing changes. */
  method AppendEntry(buf: array<byte>, e: HashEntry, ghost p: Page, ghost t: Type) returns (fits: bool)
    requires buf.Length == PAGE_SIZE && Represents(buf[..], p, t) && Encodable(e) && e.key.HasType(t)
    modifies buf
    ensures fits <==> p.free + EntrySize(e) <= PAGE_SIZE
    ensures if fits then Represents(buf[..], BucketPage(p.next, p.entries + [e], p.free + EntrySize(e)), t) else buf[..] == old(buf[..])
    ensures buf[..10] == old(buf[..10])
  {
    hide BigEndian, GetUint32, EncodeEntry, EntrySize, Represents;
    ghost var s0 := buf[..];
    Header(s0, p, t);
    var entryBytes := EncodeEntry(e);
    var free: nat := GetUint32(buf[..], FREE_OFF);
    if free + |entryBytes| > PAGE_SIZE {
      return false;
    }
    var count: nat := GetUint32(buf[..], COUNT_OFF);
    PutBytes(buf, free, entryBytes);
    ghost var s1 := buf[..];
    PutBytes(buf, FREE_OFF, BigEndian(free + |entryBytes|, 4));
    ghost var s2 := buf[..];
    PutBytes(buf, COUNT_OFF, BigEndian(count + 1, 4));
    ghost var s := buf[..];
    assert s[10..14] == s0[10..14];
    SameWord(s0, s, NEXT_OFF);
    assert s[18..22] == s2[18..22] == BigEndian(free + |entryBytes|, 4);
    GetWritten32(s, FREE_OFF, free + |entryBytes|);
    assert s[14..18] == BigEndian(count + 1, 4);
    GetWritten32(s, COUNT_OFF, count + 1);
    AppendedData(s0, s, p, e, t);
    return true;
  }

  lemma Header(s: seq<byte>, p: Page, t: Type)
    requires Represents(s, p, t)
    ensures p.BucketPage? && |s| == PAGE_SIZE && |p.entries| <= PAGE_SIZE && BUCKET_DATA_START <= p.free <= PAGE_SIZE
    ensures GetUint32(s, COUNT_OFF) == |p.entries| && GetUint32(s, FREE_OFF) == p.free
  {
  }

  lemma SameWord(s: seq<byte>, s': seq<byte>, off: nat)
    requires off + 4 <= |s| && |s'| == |s| && s'[off..off + 4] == s[off..off + 4]
    ensures GetUint32(s', off) == GetUint32(s, off)
  {
  }

  lemma AppendedData(s0: seq<byte>, s: seq<byte>, p: Page, e: HashEntry, t: Type)
    requires Represents(s0, p, t) && Encodable(e) && e.key.HasType(t) && |s| == PAGE_SIZE && p.free + EntrySize(e) <= PAGE_SIZE
    requires forall k :: BUCKET_DATA_START <= k < p.free ==> s[k] == s0[k]
    requires s[p.free..p.free + EntrySize(e)] == EncodeEntry(e)
    requires GetUint32(s, NEXT_OFF) == GetUint32(s0, NEXT_OFF)
    requires GetUint32(s, COUNT_OFF) == |p.entries| + 1 && GetUint32(s, FREE_OFF) == p.free + EntrySize(e)
    ensures Represents(s, BucketPage(p.next, p.entries + [e], p.free + EntrySize(e)), t)
  {
    hide EncodeEntry, EntrySize, GetUint32;
    EntriesSizeSnoc(p.entries, e);
    CountBelowSize(p.entries + [e]);
    assert (p.entries + [e])[..|p.entries|] == p.entries;
    assert s[BUCKET_DATA_START..p.free] == s0[BUCKET_DATA_START..p.free];
    assert s[BUCKET_DATA_START..p.free + EntrySize(e)] == s[BUCKET_DATA_START..p.free] + s[p.free..p.free + EntrySize(e)];
  }

  /** readAllEntriesFromPage. */
  method ReadAllEntries(buf: seq<byte>, ghost p: Page, t: Type) returns (entries: seq<HashEntry>)
    requires Represents(buf, p, t)
    ensures entries == p.entries
  {
    hide DecodeEntry, EncodeEntry, GetUint32, EntrySize;
    var count := GetUint32(buf, COUNT_OFF);
    entries := [];
    var off := BUCKET_DATA_START;
    var i := 0;
    assert p.entries[..0] == [];
    EmptySize();
    while i < count
      invariant 0 <= i <= count && entries == p.entries[..i]
      invariant off == BUCKET_DATA_START + EntriesSize(p.entries[..i])
    {
      EntryAt(buf, p, t, i);
      var (e, next) := DecodeEntry(buf, off, t).value;
      entries := entries + [e];
      off := next;
      i := i + 1;
    }
    assert p.entries[..i] == p.entries;
  }

  lemma EmptySize()
    ensures EntriesSize([]) == 0
  {
  }

  /** The `i`-th entry decodes where the entries before it end. */
  lemma EntryAt(buf: seq<byte>, p: Page, t: Type, i: nat)
    requires Represents(buf, p, t) && i < |p.entries|
    ensures var off := BUCKET_DATA_START + EntriesSize(p.entries[..i]);
      DecodeEntry(buf, off, t) == Some((p.entries[i], BUCKET_DATA_START + EntriesSize(p.entries[..i + 1])))
  {
    hide DecodeEntry, EncodeEntry, GetUint32, EntrySize;
    var off, e := BUCKET_DATA_START + EntriesSize(p.entries[..i]), p.entries[i];
    assert p.entries[..i + 1] == p.entries[..i] + [e];
    EntriesSizeSnoc(p.entries[..i], e);
    var end := EntriesSize(p.entries[..i + 1]);
    PrefixEncodes(p.entries, i + 1, t);
    Piece(buf, BUCKET_DATA_START, EncodeEntries(p.entries, t), EntriesSize(p.entries[..i]), end);
    assert p.entries[..i + 1][..i] == p.entries[..i];
    EncodedTail(p.entries, i, t);
    EntryRoundTrip(buf, off, e, t);
  }

  lemma EncodedTail(es: seq<HashEntry>, i: nat, t: Type)
    requires AllEncodable(es, t) && i < |es|
    requires EntriesSize(es[..i + 1]) <= EntriesSize(es) && EncodeEntries(es, t)[..EntriesSize(es[..i + 1])] == EncodeEntries(es[..i + 1], t)
    ensures EntriesSize(es[..i + 1]) == EntriesSize(es[..i]) + EntrySize(es[i])
    ensures EncodeEntries(es, t)[EntriesSize(es[..i])..EntriesSize(es[..i + 1])] == EncodeEntry(es[i])
  {
    hide EncodeEntry, EntrySize;
    var a, b := EntriesSize(es[..i]), EntriesSize(es[..i + 1]);
    assert es[..i + 1][..i] == es[..i];
    assert EncodeEntries(es[..i + 1], t) == EncodeEntries(es[..i], t) + EncodeEntry(es[i]);
    assert EncodeEntries(es, t)[a..b] == EncodeEntries(es, t)[..b][a..];
  }

  lemma {:induction false} PrefixEncodes(es: seq<HashEntry>, n: nat, t: Type)
    requires AllEncodable(es, t) && n <= |es|
    ensures EntriesSize(es[..n]) <= EntriesSize(es) && EncodeEntries(es, t)[..EntriesSize(es[..n])] == EncodeEntries(es[..n], t)
  {
    hide EncodeEntry, EntrySize;
    if n == |es| {
      assert es[..n] == es;
    } else {
      var m := |es| - 1;
      PrefixEncodes(es[..m], n, t);
      assert es[..m][..n] == es[..n];
    }
  }

  // ----- Every chained page has its bytes -----

  /** The bytes of a bucket page. */
  ghost function BucketBytes(p: Page, t: Type): (b: seq<byte>)
    requires p.BucketPage? && IsInt32(p.next) && AllEncodable(p.entries, t) && |p.entries| < 0x1_0000_0000
    requires BUCKET_DATA_START + EntriesSize(p.entries) <= PAGE_SIZE
    ensures |b| == PAGE_SIZE
  {
    var next: int32 := p.next;
    var used := BUCKET_DATA_START + EntriesSize(p.entries);
    seq(HEADER_SIZE, _ => 0) + BigEndian(Int32ToUint(next), 4) + BigEndian(|p.entries|, 4) + BigEndian(used, 4)
    + EncodeEntries(p.entries, t) + seq(PAGE_SIZE - used, _ => 0)
  }

  lemma BucketBytesRepresent(p: Page, t: Type)
    requires p.BucketPage? && IsInt32(p.next) && AllEncodable(p.entries, t)
    requires p.free == BUCKET_DATA_START + EntriesSize(p.entries) <= PAGE_SIZE
    ensures |p.entries| <= PAGE_SIZE && Represents(BucketBytes(p, t), p, t)
  {
    hide BigEndian, GetUint32, EncodeEntries;
    CountBelowSize(p.entries);
    var next: int32 := p.next;
    var b := BucketBytes(p, t);
    assert b[10..14] == BigEndian(Int32ToUint(next), 4);
    GetWritten32(b, NEXT_OFF, Int32ToUint(next));
    assert b[14..18] == BigEndian(|p.entries|, 4);
    GetWritten32(b, COUNT_OFF, |p.entries|);
    assert b[18..22] == BigEndian(p.free, 4);
    GetWritten32(b, FREE_OFF, p.free);
    assert b[BUCKET_DATA_START..p.free] == EncodeEntries(p.entries, t);
  }

  /** Every chained page of an index can be written as bytes that read back as it is in the store, as
      long as page ids fit an int32 and hashes are what Go's `& 0x7FFFFFFF` leaves. */
  lemma ChainedPagesEncode(s: Store, b: nat, i: nat, t: Type)
    requires StoreOk(s) && s.next <= 0x8000_0000 && b < |s.chains| && i < |s.chains[b]|
    requires forall e :: e in BucketEntries(s, b) ==> e.hash < 0x8000_0000 && EntrySize(e) <= MAX_ENTRY && e.key.HasType(t)
    ensures var p := s.chains[b][i];
      p in s.pages && exists buf :: Represents(buf, s.pages[p], t)
  {
    hide EncodeEntries, EntriesSize;
    var p := s.chains[b][i];
    PageAt(s, b, i);
    ChainedFits(s, b, i);
    var page := s.pages[p];
    forall k | 0 <= k < |page.entries| ensures Encodable(page.entries[k]) && page.entries[k].key.HasType(t) {
      EntryInBucket(s, b, i, k);
    }
    BucketBytesRepresent(page, t);
  }

  lemma ChainedFits(s: Store, b: nat, i: nat)
    requires StoreOk(s) && b < |s.chains| && i < |s.chains[b]|
    ensures var p := s.chains[b][i];
      && p in s.pages && s.pages[p].BucketPage?
      && NO_PAGE <= s.pages[p].next < s.next && s.pages[p].free == BUCKET_DATA_START + EntriesSize(s.pages[p].entries) <= PAGE_SIZE
  {
    assert LinkOk(s, b, i);
    assert i + 1 < |s.chains[b]| ==> LinkOk(s, b, i + 1);
  }

  lemma EntryInBucket(s: Store, b: nat, i: nat, k: nat)
    requires StoreOk(s) && b < |s.chains| && i < |s.chains[b]|
    requires s.chains[b][i] in s.pages && s.pages[s.chains[b][i]].BucketPage? && k < |s.pages[s.chains[b][i]].entries|
    ensures s.pages[s.chains[b][i]].entries[k] in BucketEntries(s, b)
  {
    ChainIsBuckets(s, b);
    EntryInChain(s.pages, s.chains[b], i, k);
  }

  lemma {:induction false} EntryInChain(pages: map<int, Page>, chain: seq<int>, i: nat, k: nat)
    requires AllBuckets(pages, chain) && i < |chain| && k < |pages[chain[i]].entries|
    ensures pages[chain[i]].entries[k] in ChainEntries(pages, chain)
  {
    var m := |chain| - 1;
    if i < m {
      EntryInChain(pages, chain[..m], i, k);
    }
  }

  // ----- The metadata page -----

  const HASH_MAGIC: uint32 := 0x48494458
  const HASH_VERSION: uint32 := 1

  ghost predicate MetaEncodable(m: HashMeta) {
    && m.bucketCount < 0x8000_0000 && m.lowmask < 0x8000_0000 && m.highmask < 0x8000_0000
    && m.splitPointer < 0x8000_0000 && m.maxBucket < 0x8000_0000
    && m.recordCount < 0x8000_0000_0000_0000 && 0 <= m.nextPageID < 0x8000_0000
  }

  function MetaBytes(m: HashMeta): (b: seq<byte>)
    requires MetaEncodable(m)
    ensures |b| == 40
  {
    MetaFront(m) + MetaMiddle(m) + MetaBack(m)
  }

  function MetaFront(m: HashMeta): (b: seq<byte>)
    requires MetaEncodable(m)
    ensures |b| == 12
  {
    BigEndian(HASH_MAGIC, 4) + BigEndian(HASH_VERSION, 4) + BigEndian(m.bucketCount, 4)
  }

  function MetaMiddle(m: HashMeta): (b: seq<byte>)
    requires MetaEncodable(m)
    ensures |b| == 16
  {
    BigEndian(m.lowmask, 4) + BigEndian(m.highmask, 4) + (BigEndian(m.splitPointer, 4) + BigEndian(m.maxBucket, 4))
  }

  function MetaBack(m: HashMeta): (b: seq<byte>)
    requires MetaEncodable(m)
    ensures |b| == 12
  {
    BigEndian(m.recordCount, 8) + BigEndian(m.nextPageID, 4)
  }

  /** loadMeta: a wrong magic number or version is an error. */
  function LoadMeta(buf: seq<byte>): Option<HashMeta>
    requires |buf| == PAGE_SIZE
  {
    if GetUint32(buf, 10) != HASH_MAGIC || GetUint32(buf, 14) != HASH_VERSION then None
    else
      Some(HashMeta(GetUint32(buf, 18), GetUint32(buf, 22), GetUint32(buf, 26), GetUint32(buf, 30), GetUint32(buf, 34),
                    GetUint64(buf, 38), GetUint32(buf, 46)))
  }

  /** Continues a run of bytes from offset 10. */
  method PutNext(buf: array<byte>, off: nat, b: seq<byte>, ghost written: seq<byte>)
    requires buf.Length == PAGE_SIZE && 10 <= off && off + |b| <= PAGE_SIZE && buf[10..off] == written
    modifies buf
    ensures buf[10..off + |b|] == written + b
    ensures buf[..10] == old(buf[..10]) && buf[off + |b|..] == old(buf[off + |b|..])
  {
    PutBytes(buf, off, b);
    assert buf[10..off] == written && buf[off..off + |b|] == b;
    assert buf[10..off + |b|] == buf[10..off] + buf[off..off + |b|];
  }

  /** writeMeta: the metadata at offsets 10 to 50, nothing else. */
  method WriteMeta(buf: array<byte>, m: HashMeta)
    requires buf.Length == PAGE_SIZE && MetaEncodable(m)
    modifies buf
    ensures LoadMeta(buf[..]) == Some(m)
    ensures buf[..10] == old(buf[..10]) && buf[50..] == old(buf[50..])
  {
    hide MetaFront, MetaMiddle, MetaBack, LoadMeta;
    ghost var w: seq<byte> := [];
    assert buf[10..10] == w;
    PutNext(buf, 10, MetaFront(m), w);
    w := w + MetaFront(m);
    PutNext(buf, 22, MetaMiddle(m), w);
    w := w + MetaMiddle(m);
    PutNext(buf, 38, MetaBack(m), w);
    assert w == MetaFront(m) + MetaMiddle(m);
    assert buf[..][10..50] == buf[10..50];
    MetaRoundTrip(buf[..], m);
  }

  /** Two adjacent words read back. */
  lemma TwoWords(buf: seq<byte>, off: nat, a: uint32, b: uint32)
    requires off + 8 <= |buf| && buf[off..off + 8] == BigEndian(a, 4) + BigEndian(b, 4)
    ensures GetUint32(buf, off) == a && GetUint32(buf, off + 4) == b
  {
    hide BigEndian, GetUint32;
    var w := BigEndian(a, 4) + BigEndian(b, 4);
    Piece(buf, off, w, 0, 4);
    Piece(buf, off, w, 4, 8);
    assert w[0..4] == BigEndian(a, 4) && w[4..8] == BigEndian(b, 4);
    GetWritten32(buf, off, a);
    GetWritten32(buf, off + 4, b);
  }

  lemma FrontReadsBack(buf: seq<byte>, m: HashMeta)
    requires |buf| == PAGE_SIZE && MetaEncodable(m) && buf[10..22] == MetaFront(m)
    ensures GetUint32(buf, 10) == HASH_MAGIC && GetUint32(buf, 14) == HASH_VERSION && GetUint32(buf, 18) == m.bucketCount
  {
    hide BigEndian, GetUint32;
    var w := MetaFront(m);
    Piece(buf, 10, w, 0, 8);
    assert w[0..8] == BigEndian(HASH_MAGIC, 4) + BigEndian(HASH_VERSION, 4);
    TwoWords(buf, 10, HASH_MAGIC, HASH_VERSION);
    Piece(buf, 10, w, 8, 12);
    assert w[8..12] == BigEndian(m.bucketCount, 4);
    GetWritten32(buf, 18, m.bucketCount);
  }

  lemma MiddleReadsBack(buf: seq<byte>, m: HashMeta)
    requires |buf| == PAGE_SIZE && MetaEncodable(m) && buf[22..38] == MetaMiddle(m)
    ensures GetUint32(buf, 22) == m.lowmask && GetUint32(buf, 26) == m.highmask
    ensures GetUint32(buf, 30) == m.splitPointer && GetUint32(buf, 34) == m.maxBucket
  {
    hide BigEndian, GetUint32;
    var w := MetaMiddle(m);
    Piece(buf, 22, w, 0, 8);
    assert w[0..8] == BigEndian(m.lowmask, 4) + BigEndian(m.highmask, 4);
    TwoWords(buf, 22, m.lowmask, m.highmask);
    Piece(buf, 22, w, 8, 16);
    assert w[8..16] == BigEndian(m.splitPointer, 4) + BigEndian(m.maxBucket, 4);
    TwoWords(buf, 30, m.splitPointer, m.maxBucket);
  }

  lemma BackReadsBack(buf: seq<byte>, m: HashMeta)
    requires |buf| == PAGE_SIZE && MetaEncodable(m) && buf[38..50] == MetaBack(m)
    ensures GetUint64(buf, 38) == m.recordCount && GetUint32(buf, 46) == m.nextPageID
  {
    hide BigEndian, GetUint32, GetUint64;
    var w := MetaBack(m);
    Piece(buf, 38, w, 0, 8);
    assert w[0..8] == BigEndian(m.recordCount, 8);
    GetWritten64(buf, 38, m.recordCount);
    Piece(buf, 38, w, 8, 12);
    assert w[8..12] == BigEndian(m.nextPageID, 4);
    GetWritten32(buf, 46, m.nextPageID);
  }

  /** What writeMeta leaves is what loadMeta reads. */
  lemma MetaRoundTrip(buf: seq<byte>, m: HashMeta)
    requires |buf| == PAGE_SIZE && MetaEncodable(m) && buf[10..50] == MetaBytes(m)
    ensures LoadMeta(buf) == Some(m)
  {
    hide GetUint32, GetUint64, MetaFront, MetaMiddle, MetaBack;
    var w := MetaBytes(m);
    Piece(buf, 10, w, 0, 12);
    Piece(buf, 10, w, 12, 28);
    Piece(buf, 10, w, 28, 40);
    assert w[0..12] == MetaFront(m) && w[12..28] == MetaMiddle(m) && w[28..40] == MetaBack(m);
    FrontReadsBack(buf, m);
    MiddleReadsBack(buf, m);
    BackReadsBack(buf, m);
  }
}
