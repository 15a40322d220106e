/** The bytes of keys and TIDs, which both kinds of index write alike. */
module KeyCodec {
  import opened Values
  import opened Bytes

  const TID_SIZE: nat := 6

  predicate IsInt32(n: int) { -0x8000_0000 <= n < 0x8000_0000 }

  function KeySize(k: Value): nat {
    match k
    case Int64(_) => 8
    case Varchar(s) => 2 + |s|
  }

  function EncodeKey(k: Value): (b: seq<byte>)
    ensures |b| == KeySize(k)
  {
    match k
    case Int64(n) => BigEndian(Int64ToUint(n), 8)
    case Varchar(s) => BigEndian(|s| % 0x1_0000, 2) + s
  }

  function EncodeTid(t: Tid): (b: seq<byte>)
    ensures |b| == TID_SIZE
  {
    BigEndian(Int32ToUint(t.pageID), 4) + BigEndian(Int16ToUint(t.slotID), 2)
  }
}
