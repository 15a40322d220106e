/** UTF-8: Go's encoding of a rune sequence, and the validity test of its decoder. */
module Utf8 {
  import opened Values

  function EncodeRune(c: char): (b: seq<byte>)
    ensures 1 <= |b| <= 4
  {
    var n := c as int;
    if n < 0x80 then [n]
    else if n < 0x800 then [0xC0 + n / 64, 0x80 + n % 64]
    else if n < 0x1_0000 then [0xE0 + n / 4096, 0x80 + (n / 64) % 64, 0x80 + n % 64]
    else [0xF0 + n / 262144, 0x80 + (n / 4096) % 64, 0x80 + (n / 64) % 64, 0x80 + n % 64]
  }

  /** The bytes of a Go string built from runes. */
  function Encode(s: string): seq<byte> {
    if s == [] then [] else EncodeRune(s[0]) + Encode(s[1..])
  }

  predicate Continuation(b: byte) {
    0x80 <= b <= 0xBF
  }

  /** utf8.Valid: shortest forms only, no surrogates, nothing above U+10FFFF. */
  predicate Valid(b: seq<byte>)
    decreases |b|
  {
    if b == [] then true
    else if b[0] < 0x80 then Valid(b[1..])
    else if b[0] < 0xC2 then false
    else if b[0] <= 0xDF then |b| >= 2 && Continuation(b[1]) && Valid(b[2..])
    else if b[0] <= 0xEF then
      && |b| >= 3 && Continuation(b[1]) && Continuation(b[2])
      && (b[0] == 0xE0 ==> b[1] >= 0xA0) && (b[0] == 0xED ==> b[1] <= 0x9F)
      && Valid(b[3..])
    else if b[0] <= 0xF4 then
      && |b| >= 4 && Continuation(b[1]) && Continuation(b[2]) && Continuation(b[3])
      && (b[0] == 0xF0 ==> b[1] >= 0x90) && (b[0] == 0xF4 ==> b[1] <= 0x8F)
      && Valid(b[4..])
    else false
  }

  /** Every string built from runes passes the validity test. */
  lemma {:induction false} EncodedIsValid(s: string)
    ensures Valid(Encode(s))
  {
    if s != [] {
      EncodedIsValid(s[1..]);
      var b, rest := EncodeRune(s[0]), Encode(s[1..]);
      assert (b + rest)[|b|..] == rest;
      var n := s[0] as int;
      if n >= 0x1_0000 {
        assert n / 262144 <= 4 && (n / 262144 == 0 ==> (n / 4096) % 64 >= 16) && (n / 262144 == 4 ==> (n / 4096) % 64 <= 15);
      } else if n >= 0x800 {
        assert n / 4096 == 0 ==> (n / 64) % 64 >= 32;
        assert n / 4096 == 13 ==> (n / 64) % 64 <= 31;
      }
    }
  }

  // ----- Decoding, from the code-point arithmetic of RFC 3629, section 3 -----

  /** The number of bytes of the character that starts with `first`. */
  function Width(first: byte): (n: nat)
    ensures 1 <= n <= 4
  {
    if first < 0x80 then 1 else if first < 0xE0 then 2 else if first < 0xF0 then 3 else 4
  }

  function Six(b: byte): int {
    var n: int := b;
    n - 0x80
  }

  /** The payload bits of the first byte and six of each continuation byte, most significant first. */
  function CodePoint(b: seq<byte>): int
    requires b != [] && |b| >= Width(b[0])
  {
    var first: int := b[0];
    match Width(b[0])
    case 1 => first
    case 2 => (first - 0xC0) * 64 + Six(b[1])
    case 3 => (first - 0xE0) * 4096 + Six(b[1]) * 64 + Six(b[2])
    case _ => (first - 0xF0) * 262144 + Six(b[1]) * 4096 + Six(b[2]) * 64 + Six(b[3])
  }

  /** A code point that is no surrogate. */
  predicate IsScalar(n: int) {
    0 <= n < 0xD800 || 0xE000 <= n < 0x11_0000
  }

  lemma FirstIsScalar(b: seq<byte>)
    requires Valid(b) && b != []
    ensures |b| >= Width(b[0]) && Valid(b[Width(b[0])..])
    ensures IsScalar(CodePoint(b))
  {
  }

  function Decode(b: seq<byte>): string
    requires Valid(b)
    decreases |b|
  {
    if b == [] then ""
    else
      FirstIsScalar(b);
      [CodePoint(b) as char] + Decode(b[Width(b[0])..])
  }

  lemma RuneReadsBack(c: char, rest: seq<byte>)
    ensures var b := EncodeRune(c) + rest;
      b != [] && Width(b[0]) == |EncodeRune(c)| && CodePoint(b) == c as int && b[Width(b[0])..] == rest
  {
    var n := c as int;
    var b := EncodeRune(c) + rest;
    assert b[|EncodeRune(c)|..] == rest;
  }

  /** Encoding then decoding returns the text. */
  lemma {:induction false} DecodeEncoded(s: string)
    ensures Valid(Encode(s)) && Decode(Encode(s)) == s
  {
    EncodedIsValid(s);
    if s != [] {
      DecodeEncoded(s[1..]);
      RuneReadsBack(s[0], Encode(s[1..]));
      assert s == [s[0]] + s[1..];
    }
  }

  lemma Digits(n: nat, a: nat, b: nat, c: nat, d: nat)
    requires n == a * 262144 + b * 4096 + c * 64 + d && b < 64 && c < 64 && d < 64
    ensures n % 64 == d && (n / 64) % 64 == c && (n / 4096) % 64 == b && n / 262144 == a
    ensures a == 0 ==> n / 4096 == b && (b == 0 ==> n / 64 == c)
  {
    assert n / 64 == a * 4096 + b * 64 + c;
    assert n / 4096 == a * 64 + b;
  }

  lemma Rune2(x: int, y: int)
    requires 2 <= x < 32 && 0 <= y < 64
    ensures EncodeRune((x * 64 + y) as char) == [0xC0 + x, 0x80 + y]
  {
    Digits(x * 64 + y, 0, 0, x, y);
  }

  lemma Rune3(x: int, y: int, z: int)
    requires 0 <= x < 16 && 0 <= y < 64 && 0 <= z < 64
    requires var n := x * 4096 + y * 64 + z; 0x800 <= n && IsScalar(n)
    ensures EncodeRune((x * 4096 + y * 64 + z) as char) == [0xE0 + x, 0x80 + y, 0x80 + z]
  {
    Digits(x * 4096 + y * 64 + z, 0, x, y, z);
  }

  lemma Rune4(w: int, x: int, y: int, z: int)
    requires 0 <= w <= 4 && 0 <= x < 64 && 0 <= y < 64 && 0 <= z < 64
    requires var n := w * 262144 + x * 4096 + y * 64 + z; 0x1_0000 <= n < 0x11_0000
    ensures EncodeRune((w * 262144 + x * 4096 + y * 64 + z) as char) == [0xF0 + w, 0x80 + x, 0x80 + y, 0x80 + z]
  {
    Digits(w * 262144 + x * 4096 + y * 64 + z, w, x, y, z);
  }

  /** Shortest forms, by width. */
  lemma FirstForms(b: seq<byte>)
    requires Valid(b) && b != []
    ensures |b| >= Width(b[0]) && IsScalar(CodePoint(b))
    ensures Width(b[0]) == 2 ==> 2 <= b[0] as int - 0xC0 < 32 && 0 <= Six(b[1]) < 64
    ensures Width(b[0]) == 3 ==> 0 <= b[0] as int - 0xE0 < 16 && 0 <= Six(b[1]) < 64 && 0 <= Six(b[2]) < 64 && CodePoint(b) >= 0x800
    ensures Width(b[0]) == 4 ==>
      0 <= b[0] as int - 0xF0 <= 4 && 0 <= Six(b[1]) < 64 && 0 <= Six(b[2]) < 64 && 0 <= Six(b[3]) < 64 && CodePoint(b) >= 0x1_0000
  {
  }

  lemma RuneOfBytes(b: seq<byte>)
    requires Valid(b) && b != []
    ensures |b| >= Width(b[0]) && IsScalar(CodePoint(b))
    ensures EncodeRune(CodePoint(b) as char) == b[..Width(b[0])]
  {
    FirstForms(b);
    hide Valid, EncodeRune, CodePoint, Six, IsScalar;
    if Width(b[0]) <= 2 {
      ShortRune(b);
    } else if Width(b[0]) == 3 {
      Rune3Of(b);
    } else {
      Rune4Of(b);
    }
  }

  lemma ShortRune(b: seq<byte>)
    requires b != [] && Width(b[0]) <= |b| && Width(b[0]) <= 2
    requires Width(b[0]) == 2 ==> 2 <= b[0] as int - 0xC0 < 32 && 0 <= Six(b[1]) < 64
    ensures IsScalar(CodePoint(b)) && EncodeRune(CodePoint(b) as char) == b[..Width(b[0])]
  {
    hide EncodeRune;
    if Width(b[0]) == 1 {
      AsciiRune(b[0]);
    } else {
      Rune2(b[0] as int - 0xC0, Six(b[1]));
    }
  }

  lemma Rune3Of(b: seq<byte>)
    requires b != [] && Width(b[0]) == 3 <= |b| && IsScalar(CodePoint(b)) && CodePoint(b) >= 0x800
    requires 0 <= b[0] as int - 0xE0 < 16 && 0 <= Six(b[1]) < 64 && 0 <= Six(b[2]) < 64
    ensures EncodeRune(CodePoint(b) as char) == b[..3]
  {
    hide EncodeRune;
    Rune3(b[0] as int - 0xE0, Six(b[1]), Six(b[2]));
  }

  lemma Rune4Of(b: seq<byte>)
    requires b != [] && Width(b[0]) == 4 <= |b| && IsScalar(CodePoint(b)) && CodePoint(b) >= 0x1_0000
    requires 0 <= b[0] as int - 0xF0 <= 4 && 0 <= Six(b[1]) < 64 && 0 <= Six(b[2]) < 64 && 0 <= Six(b[3]) < 64
    ensures EncodeRune(CodePoint(b) as char) == b[..4]
  {
    hide EncodeRune;
    Rune4(b[0] as int - 0xF0, Six(b[1]), Six(b[2]), Six(b[3]));
  }

  lemma AsciiRune(n: int)
    requires 0 <= n < 0x80
    ensures EncodeRune(n as char) == [n]
  {
  }

  /** Decoding then encoding returns the bytes: each text has one encoding, and every valid byte string is one. */
  lemma {:induction false} EncodeDecoded(b: seq<byte>)
    requires Valid(b)
    ensures Encode(Decode(b)) == b
    decreases |b|
  {
    if b != [] {
      FirstIsScalar(b);
      RuneOfBytes(b);
      hide CodePoint, EncodeRune, Width;
      var w := Width(b[0]);
      EncodeDecoded(b[w..]);
      var s := Decode(b);
      assert s[0] == CodePoint(b) as char && s[1..] == Decode(b[w..]);
      assert b == b[..w] + b[w..];
    }
  }

  lemma EncodeInjective(a: string, b: string)
    ensures Encode(a) == Encode(b) <==> a == b
  {
    DecodeEncoded(a);
    DecodeEncoded(b);
  }

  // ----- Order -----

  /** Texts are ordered by their characters, the first difference deciding. */
  predicate TextLess(a: string, b: string) {
    b != "" && (a == "" || a[0] < b[0] || (a[0] == b[0] && TextLess(a[1..], b[1..])))
  }

  lemma {:induction false} CommonPrefix(p: seq<byte>, x: seq<byte>, y: seq<byte>)
    ensures BytesLess(p + x, p + y) <==> BytesLess(x, y)
  {
    if p == [] {
      assert p + x == x && p + y == y;
    } else {
      CommonPrefix(p[1..], x, y);
      assert (p + x)[1..] == p[1..] + x && (p + y)[1..] == p[1..] + y;
    }
  }

  /** The first byte in which two byte strings differ decides. */
  lemma {:induction false} FirstDifference(a: seq<byte>, b: seq<byte>, i: nat)
    requires i < |a| && i < |b| && a[..i] == b[..i] && a[i] < b[i]
    ensures BytesLess(a, b) && !BytesLess(b, a)
  {
    if i > 0 {
      assert a[0] == a[..i][0] && b[0] == b[..i][0];
      assert a[1..][..i - 1] == a[..i][1..] && b[1..][..i - 1] == b[..i][1..];
      FirstDifference(a[1..], b[1..], i - 1);
    }
  }

  /** Two numbers in base 64, digit by digit from the front. */
  lemma DigitsOrder(m: nat, n: nat)
    requires m < n
    ensures m / 262144 <= n / 262144
    ensures m / 262144 == n / 262144 ==> (m / 4096) % 64 <= (n / 4096) % 64
    ensures m / 262144 == n / 262144 && (m / 4096) % 64 == (n / 4096) % 64 ==> (m / 64) % 64 <= (n / 64) % 64
    ensures m / 262144 == n / 262144 && (m / 4096) % 64 == (n / 4096) % 64 && (m / 64) % 64 == (n / 64) % 64 ==> m % 64 < n % 64
    ensures n < 262144 ==> (m / 4096) % 64 == m / 4096 && (n / 4096) % 64 == n / 4096
    ensures n < 4096 ==> (m / 64) % 64 == m / 64 && (n / 64) % 64 == n / 64
  {
    InBase64(m);
    InBase64(n);
  }

  lemma InBase64(n: nat)
    ensures n == (n / 262144) * 262144 + ((n / 4096) % 64) * 4096 + ((n / 64) % 64) * 64 + n % 64
  {
    assert n / 262144 == n / 64 / 64 / 64 && n / 4096 == n / 64 / 64;
  }

  lemma RunesDiffer(c: char, d: char) returns (i: nat)
    requires c < d
    ensures i < |EncodeRune(c)| && i < |EncodeRune(d)| && EncodeRune(c)[..i] == EncodeRune(d)[..i] && EncodeRune(c)[i] < EncodeRune(d)[i]
  {
    var m, n := c as int, d as int;
    DigitsOrder(m, n);
    var a, b := EncodeRune(c), EncodeRune(d);
    if |a| < |b| {
      WidthsOrder(c, d);
      i := 0;
    } else {
      i := if a[0] != b[0] then 0 else if a[1] != b[1] then 1 else if a[2] != b[2] then 2 else 3;
    }
  }

  /** A character with more bytes starts with a larger one. */
  lemma WidthsOrder(c: char, d: char)
    requires |EncodeRune(c)| < |EncodeRune(d)|
    ensures EncodeRune(c)[0] < EncodeRune(d)[0]
  {
  }

  lemma RuneOrders(c: char, d: char, x: seq<byte>, y: seq<byte>)
    requires c < d
    ensures BytesLess(EncodeRune(c) + x, EncodeRune(d) + y) && !BytesLess(EncodeRune(d) + y, EncodeRune(c) + x)
  {
    var i := RunesDiffer(c, d);
    var a, b := EncodeRune(c) + x, EncodeRune(d) + y;
    assert a[..i] == EncodeRune(c)[..i] && b[..i] == EncodeRune(d)[..i];
    FirstDifference(a, b, i);
  }

  /** Byte order of the encodings is character order of the texts. */
  lemma {:induction false} EncodeOrders(a: string, b: string)
    ensures BytesLess(Encode(a), Encode(b)) <==> TextLess(a, b)
  {
    if a != "" && b != "" {
      if a[0] < b[0] {
        RuneOrders(a[0], b[0], Encode(a[1..]), Encode(b[1..]));
      } else if b[0] < a[0] {
        RuneOrders(b[0], a[0], Encode(b[1..]), Encode(a[1..]));
      } else {
        EncodeOrders(a[1..], b[1..]);
        CommonPrefix(EncodeRune(a[0]), Encode(a[1..]), Encode(b[1..]));
      }
    }
  }
}
