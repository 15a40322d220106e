/** The slotted heap page over one byte buffer. */
module HeapPages {
  import opened Values
  import opened Bytes
  import opened Pages

  const SLOT_SIZE: nat := 4
  /** The room of an empty page. */
  const EMPTY_SPACE: nat := PAGE_SIZE - HEADER_SIZE
  const SLOT_COUNT_OFF: nat := 4
  const LOWER_OFF: nat := 6
  const UPPER_OFF: nat := 8

  datatype PageError = InvalidSignature | NilData | NoSpace | SlotIndex | CorruptedPage

  datatype ReadResult = Record(data: seq<byte>) | ReadError(error: PageError)

  // ----- The layout of a buffer -----

  function SlotCount(s: seq<byte>): nat requires |s| == PAGE_SIZE { GetUint16(s, SLOT_COUNT_OFF) }
  function Lower(s: seq<byte>): nat requires |s| == PAGE_SIZE { GetUint16(s, LOWER_OFF) }
  function Upper(s: seq<byte>): nat requires |s| == PAGE_SIZE { GetUint16(s, UPPER_OFF) }

  function SlotPos(i: nat): nat { HEADER_SIZE + i * SLOT_SIZE }

  function SlotOffset(s: seq<byte>, i: nat): nat
    requires |s| == PAGE_SIZE && SlotPos(i) + 4 <= PAGE_SIZE
  {
    GetUint16(s, SlotPos(i))
  }

  function SlotLength(s: seq<byte>, i: nat): nat
    requires |s| == PAGE_SIZE && SlotPos(i) + 4 <= PAGE_SIZE
  {
    GetUint16(s, SlotPos(i) + 2)
  }

  /** Where record `i` ends: where record `i - 1` starts, the first one at the end of the page. */
  function EndOf(s: seq<byte>, i: nat): nat
    requires |s| == PAGE_SIZE && SlotPos(i) <= PAGE_SIZE
  {
    if i == 0 then PAGE_SIZE else SlotOffset(s, i - 1)
  }

  predicate Signed(s: seq<byte>)
    requires |s| == PAGE_SIZE
  {
    GetUint32(s, 0) == SIGNATURE
  }

  /** The slot array ends at `lower`; the records tile [upper, 8192) downwards without gap or overlap. */
  ghost predicate WellFormed(s: seq<byte>) {
    && |s| == PAGE_SIZE && Signed(s)
    && Lower(s) == SlotPos(SlotCount(s)) <= Upper(s) <= PAGE_SIZE
    && Upper(s) == EndOf(s, SlotCount(s))
    && forall i :: 0 <= i < SlotCount(s) ==> RecordOk(s, i)
  }

  ghost predicate RecordOk(s: seq<byte>, i: nat)
    requires |s| == PAGE_SIZE && SlotPos(i) + 4 <= PAGE_SIZE
  {
    Upper(s) <= SlotOffset(s, i) && SlotOffset(s, i) + SlotLength(s, i) == EndOf(s, i) <= PAGE_SIZE
  }

  /** The stored records, by slot. */
  ghost function Records(s: seq<byte>): (r: seq<seq<byte>>)
    requires WellFormed(s)
    ensures |r| == SlotCount(s)
  {
    seq(SlotCount(s), i requires 0 <= i < SlotCount(s) =>
      assert RecordOk(s, i);
      s[SlotOffset(s, i)..SlotOffset(s, i) + SlotLength(s, i)])
  }

  /** The free bytes between the slot array and the records. */
  function FreeSpace(s: seq<byte>): int
    requires |s| == PAGE_SIZE
  {
    Upper(s) - Lower(s)
  }

  /** Distinct records share no byte. */
  lemma {:induction false} RecordsAreDisjoint(s: seq<byte>, i: nat, j: nat)
    requires WellFormed(s) && i < j < SlotCount(s)
    ensures SlotOffset(s, j) + SlotLength(s, j) <= SlotOffset(s, i)
  {
    assert RecordOk(s, j);
    if i < j - 1 {
      RecordsAreDisjoint(s, i, j - 1);
    }
  }

  /** What a successful write leaves: the buffer with a new record below the others. */
  ghost predicate Written(s: seq<byte>, s': seq<byte>, data: seq<byte>)
    requires |s| == PAGE_SIZE && |s'| == PAGE_SIZE
  {
    var n, upper := SlotCount(s), Upper(s) - |data|;
    && SLOT_SIZE + |data| <= FreeSpace(s)
    && SlotCount(s') == n + 1 && Lower(s') == Lower(s) + SLOT_SIZE && Upper(s') == upper
    && SlotPos(n) + 4 <= PAGE_SIZE && SlotOffset(s', n) == upper && SlotLength(s', n) == |data|
    && upper >= 0 && Upper(s) <= PAGE_SIZE && s'[upper..Upper(s)] == data
    && s'[..4] == s[..4]
    && s'[HEADER_SIZE..SlotPos(n)] == s[HEADER_SIZE..SlotPos(n)]
    && s'[Upper(s)..] == s[Upper(s)..]
  }

  lemma SameSlice(s: seq<byte>, s': seq<byte>, lo: nat, hi: nat, a: nat, b: nat)
    requires lo <= a <= b <= hi <= |s| && |s'| == |s| && s'[lo..hi] == s[lo..hi]
    ensures s'[a..b] == s[a..b]
  {
    forall k | a <= k < b ensures s'[k] == s[k] {
      assert s'[lo..hi][k - lo] == s[lo..hi][k - lo];
    }
  }

  lemma SameSlot(s: seq<byte>, s': seq<byte>, n: nat, i: nat)
    requires |s| == PAGE_SIZE && |s'| == PAGE_SIZE && i < n && SlotPos(n) <= PAGE_SIZE
    requires s'[HEADER_SIZE..SlotPos(n)] == s[HEADER_SIZE..SlotPos(n)]
    ensures SlotOffset(s', i) == SlotOffset(s, i) && SlotLength(s', i) == SlotLength(s, i)
  {
    SameSlice(s, s', HEADER_SIZE, SlotPos(n), SlotPos(i), SlotPos(i) + 2);
    SameSlice(s, s', HEADER_SIZE, SlotPos(n), SlotPos(i) + 2, SlotPos(i) + 4);
  }

  lemma WrittenIsWellFormed(s: seq<byte>, s': seq<byte>, data: seq<byte>)
    requires WellFormed(s) && |s'| == PAGE_SIZE && Written(s, s', data)
    ensures WellFormed(s')
  {
    hide FromBigEndian;
    var n := SlotCount(s);
    SameSlice(s, s', 0, 4, 0, 4);
    assert s'[0..4] == s'[..4] && s[0..4] == s[..4];
    forall i | 0 <= i < n + 1 ensures RecordOk(s', i) {
      if i < n {
        SameSlot(s, s', n, i);
        assert RecordOk(s, i);
      }
      if 0 < i {
        SameSlot(s, s', n, i - 1);
      }
    }
  }

  lemma WrittenAppends(s: seq<byte>, s': seq<byte>, data: seq<byte>)
    requires WellFormed(s) && WellFormed(s') && Written(s, s', data)
    ensures Records(s') == Records(s) + [data]
  {
    hide FromBigEndian, GetUint16;
    var n := SlotCount(s);
    forall i | 0 <= i < n ensures Records(s')[i] == Records(s)[i] {
      SameSlot(s, s', n, i);
      assert RecordOk(s, i);
      SameSlice(s, s', Upper(s), PAGE_SIZE, SlotOffset(s, i), SlotOffset(s, i) + SlotLength(s, i));
    }
  }

  class HeapPage {
    const pageID: int
    const buf: array<byte>

    ghost predicate Valid()
      reads this, buf
    {
      WellFormed(buf[..])
    }

    /** NewHeapPage: an empty page. */
    constructor (pageID: int)
      ensures Valid() && fresh(buf) && this.pageID == pageID && Records(buf[..]) == []
      ensures FreeSpace(buf[..]) == EMPTY_SPACE
    {
      this.pageID := pageID;
      buf := new byte[PAGE_SIZE](_ => 0);
      new;
      PutBytes(buf, 0, BigEndian(SIGNATURE, 4));
      assert buf[..4] == BigEndian(SIGNATURE, 4);
      PutHeader(0, HEADER_SIZE, PAGE_SIZE);
      var s := buf[..];
      assert s[0..4] == s[..4] == buf[..4];
      GetWritten32(s, 0, SIGNATURE);
    }

    /** NewHeapPageFromBuffer on the bytes of a stored page. */
    constructor FromBuffer(pageID: int, bytes: seq<byte>)
      requires |bytes| == PAGE_SIZE
      ensures fresh(buf) && this.pageID == pageID && buf[..] == bytes
    {
      this.pageID := pageID;
      buf := new byte[PAGE_SIZE](i requires 0 <= i < PAGE_SIZE => bytes[i]);
    }

    method Size() returns (n: nat)
      requires Valid()
      ensures n == |Records(buf[..])|
    {
      n := SlotCount(buf[..]);
    }

    method Read(index: int) returns (r: ReadResult)
      requires Valid()
      ensures r == if 0 <= index < |Records(buf[..])| then Record(Records(buf[..])[index]) else ReadError(SlotIndex)
    {
      var s := buf[..];
      if !Signed(s) {
        return ReadError(InvalidSignature);
      }
      var slotCount := SlotCount(s);
      if index < 0 || index >= slotCount {
        return ReadError(SlotIndex);
      }
      assert RecordOk(s, index);
      var offset, length := SlotOffset(s, index), SlotLength(s, index);
      if offset + length > PAGE_SIZE || offset < Upper(s) {
        return ReadError(CorruptedPage);
      }
      return Record(s[offset..offset + length]);
    }

    /** Appends a record if it fits with its slot; otherwise nothing changes. */
    method Write(data: Option<seq<byte>>) returns (err: Option<PageError>)
      requires Valid()
      modifies buf
      ensures Valid()
      ensures err == if data.None? then Some(NilData) else if SLOT_SIZE + |data.value| > FreeSpace(old(buf[..])) then Some(NoSpace) else None
      ensures if err.None? then Records(buf[..]) == old(Records(buf[..])) + [data.value] else buf[..] == old(buf[..])
      ensures err.None? ==> FreeSpace(buf[..]) == old(FreeSpace(buf[..])) - SLOT_SIZE - |data.value|
    {
      hide Records, GetUint16, BigEndian;
      ghost var s := buf[..];
      if !Signed(buf[..]) {
        return Some(InvalidSignature);
      }
      if data.None? {
        return Some(NilData);
      }
      var length := |data.value|;
      var freeSpace: int := FreeSpace(buf[..]);
      if SLOT_SIZE + length > freeSpace {
        return Some(NoSpace);
      }
      PutRecord(data.value);
      WrittenIsWellFormed(s, buf[..], data.value);
      WrittenAppends(s, buf[..], data.value);
      return None;
    }

    method PutRecord(data: seq<byte>)
      requires Valid() && SLOT_SIZE + |data| <= FreeSpace(buf[..])
      modifies buf
      ensures Written(old(buf[..]), buf[..], data)
    {
      hide GetUint16, BigEndian, WellFormed, Signed, GetUint32;
      ghost var s := buf[..];
      WellFormedBounds(s);
      var slotCount, lower, upper := SlotCount(buf[..]), Lower(buf[..]), Upper(buf[..]);
      var newUpper := upper - |data|;
      PutBytes(buf, newUpper, data);
      ghost var s1 := buf[..];
      PutSlot(slotCount, newUpper, |data|);
      ghost var s2 := buf[..];
      assert s2[newUpper..upper] == s1[newUpper..upper] == data;
      assert s2[upper..] == s1[upper..] == s[upper..];
      assert s2[HEADER_SIZE..SlotPos(slotCount)] == s1[HEADER_SIZE..SlotPos(slotCount)] == s[HEADER_SIZE..SlotPos(slotCount)];
      PutHeader(slotCount + 1, lower + SLOT_SIZE, newUpper);
      ghost var s' := buf[..];
      HeaderKeepsRest(s2, s', slotCount, newUpper, upper);
    }

    method PutSlot(i: nat, offset: uint16, length: uint16)
      requires buf.Length == PAGE_SIZE && SlotPos(i) + SLOT_SIZE <= PAGE_SIZE
      modifies buf
      ensures SlotOffset(buf[..], i) == offset && SlotLength(buf[..], i) == length
      ensures forall k :: 0 <= k < PAGE_SIZE && !(SlotPos(i) <= k < SlotPos(i) + SLOT_SIZE) ==> buf[k] == old(buf[k])
    {
      hide GetUint16, BigEndian;
      var slotPos := SlotPos(i);
      PutBytes(buf, slotPos, BigEndian(offset, 2));
      ghost var s1 := buf[..];
      PutBytes(buf, slotPos + 2, BigEndian(length, 2));
      ghost var s' := buf[..];
      assert s'[slotPos..slotPos + 2] == s1[slotPos..slotPos + 2] == BigEndian(offset, 2);
      GetWritten16(s', slotPos, offset);
      assert s'[slotPos + 2..slotPos + 4] == BigEndian(length, 2);
      GetWritten16(s', slotPos + 2, length);
    }

    method PutHeader(slotCount: uint16, lower: uint16, upper: uint16)
      requires buf.Length == PAGE_SIZE
      modifies buf
      ensures SlotCount(buf[..]) == slotCount && Lower(buf[..]) == lower && Upper(buf[..]) == upper
      ensures buf[..4] == old(buf[..4]) && buf[HEADER_SIZE..] == old(buf[HEADER_SIZE..])
    {
      hide GetUint16, BigEndian;
      PutBytes(buf, SLOT_COUNT_OFF, BigEndian(slotCount, 2));
      ghost var s1 := buf[..];
      PutBytes(buf, LOWER_OFF, BigEndian(lower, 2));
      ghost var s2 := buf[..];
      PutBytes(buf, UPPER_OFF, BigEndian(upper, 2));
      ghost var s' := buf[..];
      assert s'[4..6] == s2[4..6] == s1[4..6] == BigEndian(slotCount, 2);
      GetWritten16(s', SLOT_COUNT_OFF, slotCount);
      assert s'[6..8] == s2[6..8] == BigEndian(lower, 2);
      GetWritten16(s', LOWER_OFF, lower);
      assert s'[8..10] == BigEndian(upper, 2);
      GetWritten16(s', UPPER_OFF, upper);
    }
  }

  lemma WellFormedBounds(s: seq<byte>)
    requires WellFormed(s)
    ensures |s| == PAGE_SIZE && Lower(s) == SlotPos(SlotCount(s)) <= Upper(s) <= PAGE_SIZE
  {
  }

  lemma HeaderKeepsRest(s: seq<byte>, s': seq<byte>, n: nat, lo: nat, hi: nat)
    requires |s| == PAGE_SIZE && |s'| == PAGE_SIZE && SlotPos(n) + 4 <= lo <= hi <= PAGE_SIZE
    requires s'[HEADER_SIZE..] == s[HEADER_SIZE..]
    ensures SlotOffset(s', n) == SlotOffset(s, n) && SlotLength(s', n) == SlotLength(s, n)
    ensures s'[lo..hi] == s[lo..hi] && s'[hi..] == s[hi..]
    ensures s'[HEADER_SIZE..SlotPos(n)] == s[HEADER_SIZE..SlotPos(n)]
  {
    assert s'[HEADER_SIZE..PAGE_SIZE] == s'[HEADER_SIZE..] && s[HEADER_SIZE..PAGE_SIZE] == s[HEADER_SIZE..];
    SameSlice(s, s', HEADER_SIZE, PAGE_SIZE, SlotPos(n), SlotPos(n) + 2);
    SameSlice(s, s', HEADER_SIZE, PAGE_SIZE, SlotPos(n) + 2, SlotPos(n) + 4);
    SameSlice(s, s', HEADER_SIZE, PAGE_SIZE, lo, hi);
    SameSlice(s, s', HEADER_SIZE, PAGE_SIZE, hi, PAGE_SIZE);
    assert s'[hi..PAGE_SIZE] == s'[hi..] && s[hi..PAGE_SIZE] == s[hi..];
    SameSlice(s, s', HEADER_SIZE, PAGE_SIZE, HEADER_SIZE, SlotPos(n));
  }
}
