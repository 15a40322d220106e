/** Big-endian integers in byte sequences and in byte buffers. */
module Bytes {
  import opened Values

  type uint16 = n: int | 0 <= n < 0x1_0000
  type uint32 = n: int | 0 <= n < 0x1_0000_0000
  type uint64 = n: int | 0 <= n < 0x1_0000_0000_0000_0000

  /** The last `width` base-256 digits of `v`, most significant first. */
  function BigEndian(v: nat, width: nat): (s: seq<byte>)
    ensures |s| == width
  {
    if width == 0 then [] else BigEndian(v / 256, width - 1) + [v % 256]
  }

  /** The number a big-endian byte string denotes. */
  function FromBigEndian(s: seq<byte>): nat {
    if s == [] then 0 else FromBigEndian(s[..|s| - 1]) * 256 + s[|s| - 1]
  }

  function Pow256(width: nat): nat {
    if width == 0 then 1 else 256 * Pow256(width - 1)
  }

  lemma {:induction false} BigEndianRoundTrip(v: nat, width: nat)
    requires v < Pow256(width)
    ensures FromBigEndian(BigEndian(v, width)) == v
  {
    if width > 0 {
      BigEndianRoundTrip(v / 256, width - 1);
      var s := BigEndian(v, width);
      assert s[..|s| - 1] == BigEndian(v / 256, width - 1);
    }
  }

  lemma Widths()
    ensures Pow256(2) == 0x1_0000 && Pow256(4) == 0x1_0000_0000 && Pow256(8) == 0x1_0000_0000_0000_0000
  {
    assert Pow256(1) == 256;
    assert Pow256(2) == 256 * Pow256(1);
    assert Pow256(3) == 256 * Pow256(2);
    assert Pow256(4) == 256 * Pow256(3);
    assert Pow256(5) == 256 * Pow256(4);
    assert Pow256(6) == 256 * Pow256(5);
    assert Pow256(7) == 256 * Pow256(6);
    assert Pow256(8) == 256 * Pow256(7);
  }

  // ----- Go's fixed-width conversions: two's complement -----

  function Int16ToUint(n: int16): uint16 { if n < 0 then n + 0x1_0000 else n }
  function UintToInt16(u: uint16): int16 { if u < 0x8000 then u else u - 0x1_0000 }
  function Int32ToUint(n: int32): uint32 { if n < 0 then n + 0x1_0000_0000 else n }
  function UintToInt32(u: uint32): int32 { if u < 0x8000_0000 then u else u - 0x1_0000_0000 }
  function Int64ToUint(n: int64): uint64 { if n < 0 then n + 0x1_0000_0000_0000_0000 else n }
  function UintToInt64(u: uint64): int64 { if u < 0x8000_0000_0000_0000 then u else u - 0x1_0000_0000_0000_0000 }

  lemma {:induction false} FromBigEndianBound(s: seq<byte>)
    ensures FromBigEndian(s) < Pow256(|s|)
  {
    if s != [] {
      FromBigEndianBound(s[..|s| - 1]);
    }
  }

  function GetUint16(s: seq<byte>, off: nat): uint16
    requires off + 2 <= |s|
  {
    FromBigEndianBound(s[off..off + 2]); Widths();
    FromBigEndian(s[off..off + 2])
  }

  function GetUint32(s: seq<byte>, off: nat): uint32
    requires off + 4 <= |s|
  {
    FromBigEndianBound(s[off..off + 4]); Widths();
    FromBigEndian(s[off..off + 4])
  }

  function GetUint64(s: seq<byte>, off: nat): uint64
    requires off + 8 <= |s|
  {
    FromBigEndianBound(s[off..off + 8]); Widths();
    FromBigEndian(s[off..off + 8])
  }

  /** `s` with the bytes from `off` on overwritten by `b`. */
  function Splice(s: seq<byte>, off: nat, b: seq<byte>): (r: seq<byte>)
    requires off + |b| <= |s|
    ensures |r| == |s|
  {
    s[..off] + b + s[off + |b|..]
  }

  method PutBytes(buf: array<byte>, off: nat, b: seq<byte>)
    requires off + |b| <= buf.Length
    modifies buf
    ensures buf[..] == Splice(old(buf[..]), off, b)
    ensures forall i :: 0 <= i < buf.Length && !(off <= i < off + |b|) ==> buf[i] == old(buf[i])
  {
    forall i | 0 <= i < |b| {
      buf[off + i] := b[i];
    }
  }

  lemma GetWritten32(s: seq<byte>, off: nat, v: uint32)
    requires off + 4 <= |s| && s[off..off + 4] == BigEndian(v, 4)
    ensures GetUint32(s, off) == v
  {
    Widths();
    BigEndianRoundTrip(v, 4);
  }

  lemma GetWritten16(s: seq<byte>, off: nat, v: uint16)
    requires off + 2 <= |s| && s[off..off + 2] == BigEndian(v, 2)
    ensures GetUint16(s, off) == v
  {
    Widths();
    BigEndianRoundTrip(v, 2);
  }

  lemma GetWritten64(s: seq<byte>, off: nat, v: uint64)
    requires off + 8 <= |s| && s[off..off + 8] == BigEndian(v, 8)
    ensures GetUint64(s, off) == v
  {
    Widths();
    BigEndianRoundTrip(v, 8);
  }
}
