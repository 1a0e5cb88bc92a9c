/** Byte-level vocabulary shared by the session-state codecs and the ticket
    envelope: Go's fixed-width unsigned integers, an optional value,
    big-endian integers, length-prefixed fields and byte-wise XOR. */
module Bytes {

  /** Go's uint8 (byte), uint16, uint32 and uint64, as bounded integers. */
  type uint8 = x: int | 0 <= x < 0x100
  type uint16 = x: int | 0 <= x < 0x1_0000
  type uint32 = x: int | 0 <= x < 0x1_0000_0000
  type uint64 = x: int | 0 <= x < 0x1_0000_0000_0000_0000

  /** Success with a value, or a failure that carries no detail. */
  datatype Option<+T> = None | Some(value: T)

  /** Go's `byte(x >> 8)`, `byte(x)`: the big-endian bytes of a uint16. */
  function BE16(x: uint16): (r: seq<uint8>)
    ensures |r| == 2
  {
    [x / 0x100, x % 0x100]
  }

  function BE32(x: uint32): (r: seq<uint8>)
    ensures |r| == 4
  {
    BE16(x / 0x1_0000) + BE16(x % 0x1_0000)
  }

  function BE64(x: uint64): (r: seq<uint8>)
    ensures |r| == 8
  {
    BE32(x / 0x1_0000_0000) + BE32(x % 0x1_0000_0000)
  }

  /** Go's `uint16(s[i])<<8 | uint16(s[i+1])`; the shifted bytes never
      overlap, so the bitwise or is a sum. */
  function Uint16At(s: seq<uint8>, i: nat): (r: uint16)
    requires i + 2 <= |s|
  {
    var hi: uint8, lo: uint8 := s[i], s[i + 1];
    hi * 0x100 + lo
  }

  function Uint32At(s: seq<uint8>, i: nat): (r: uint32)
    requires i + 4 <= |s|
  {
    Uint16At(s, i) * 0x1_0000 + Uint16At(s, i + 2)
  }

  function Uint64At(s: seq<uint8>, i: nat): (r: uint64)
    requires i + 8 <= |s|
  {
    Uint32At(s, i) * 0x1_0000_0000 + Uint32At(s, i + 4)
  }

  /** Reading the bytes of BE16 back from the front of an input gives the
      value written, and the input after them is what followed. */
  lemma ReadBE16(x: uint16, rest: seq<uint8>)
    ensures var d := BE16(x) + rest; Uint16At(d, 0) == x && d[2..] == rest
  {
  }

  lemma ReadBE32(x: uint32, rest: seq<uint8>)
    ensures var d := BE32(x) + rest; Uint32At(d, 0) == x && d[4..] == rest
  {
    var d := BE32(x) + rest;
    var lo := BE16(x % 0x1_0000) + rest;
    assert d == BE16(x / 0x1_0000) + lo;
    ReadBE16(x / 0x1_0000, lo);
    ReadBE16(x % 0x1_0000, rest);
    assert Uint16At(d, 2) == Uint16At(lo, 0);
  }

  lemma ReadBE64(x: uint64, rest: seq<uint8>)
    ensures var d := BE64(x) + rest; Uint64At(d, 0) == x && d[8..] == rest
  {
    var d := BE64(x) + rest;
    var lo := BE32(x % 0x1_0000_0000) + rest;
    assert d == BE32(x / 0x1_0000_0000) + lo;
    ReadBE32(x / 0x1_0000_0000, lo);
    ReadBE32(x % 0x1_0000_0000, rest);
    ReadAtOffset(d, 4);
  }

  /** Reading at offset i is reading at the front of the input from i on. */
  lemma ReadAtOffset(s: seq<uint8>, i: nat)
    ensures i + 2 <= |s| ==> Uint16At(s, i) == Uint16At(s[i..], 0)
    ensures i + 4 <= |s| ==> Uint32At(s, i) == Uint32At(s[i..], 0)
    ensures i + 8 <= |s| ==> Uint64At(s, i) == Uint64At(s[i..], 0)
  {
  }

  /** Conversely, any input of at least two bytes is the BE16 encoding of
      what its first two bytes read as, followed by the rest. */
  lemma SplitBE16(d: seq<uint8>)
    requires |d| >= 2
    ensures BE16(Uint16At(d, 0)) + d[2..] == d
  {
    assert d == d[..2] + d[2..];
  }

  lemma SplitBE32(d: seq<uint8>)
    requires |d| >= 4
    ensures BE32(Uint32At(d, 0)) + d[4..] == d
  {
    var hi: int, lo: int := Uint16At(d, 0), Uint16At(d, 2);
    assert (hi * 0x1_0000 + lo) / 0x1_0000 == hi && (hi * 0x1_0000 + lo) % 0x1_0000 == lo;
    ReadAtOffset(d, 2);
    SplitBE16(d);
    SplitBE16(d[2..]);
    assert d[2..][2..] == d[4..];
  }

  lemma SplitBE64(d: seq<uint8>)
    requires |d| >= 8
    ensures BE64(Uint64At(d, 0)) + d[8..] == d
  {
    var hi: int, lo: int := Uint32At(d, 0), Uint32At(d, 4);
    DivModWord(hi, lo);
    ReadAtOffset(d, 4);
    SplitBE32(d);
    SplitBE32(d[4..]);
    assert d[4..][4..] == d[8..];
  }

  lemma DivModWord(hi: nat, lo: nat)
    requires lo < 0x1_0000_0000
    ensures (hi * 0x1_0000_0000 + lo) / 0x1_0000_0000 == hi
    ensures (hi * 0x1_0000_0000 + lo) % 0x1_0000_0000 == lo
  {
  }

  /** A variable-length field as `marshal` writes it: its length in two
      big-endian bytes, then its bytes. A length of 2^16 or more keeps only
      its low-order 16 bits, as Go's byte conversions do. */
  function Prefixed16(x: seq<uint8>): (r: seq<uint8>)
    ensures |r| == 2 + |x|
  {
    BE16(|x| % 0x1_0000) + x
  }

  /** The same with a four-byte length, cut to its low-order 32 bits. */
  function Prefixed32(x: seq<uint8>): (r: seq<uint8>)
    ensures |r| == 4 + |x|
  {
    BE32(|x| % 0x1_0000_0000) + x
  }

  /** Reading a field that fits its prefix back from the front of a longer
      input yields the field's length, the field, and the rest untouched. */
  lemma ReadPrefixed16(x: seq<uint8>, rest: seq<uint8>)
    requires |x| < 0x1_0000
    ensures var d := Prefixed16(x) + rest;
      && Uint16At(d, 0) == |x| && d[2..2 + |x|] == x && d[2 + |x|..] == rest
  {
    var d := Prefixed16(x) + rest;
    assert d == BE16(|x|) + (x + rest);
    ReadBE16(|x|, x + rest);
  }

  lemma ReadPrefixed32(x: seq<uint8>, rest: seq<uint8>)
    requires |x| < 0x1_0000_0000
    ensures var d := Prefixed32(x) + rest;
      && Uint32At(d, 0) == |x| && d[4..4 + |x|] == x && d[4 + |x|..] == rest
  {
    var d := Prefixed32(x) + rest;
    assert d == BE32(|x|) + (x + rest);
    ReadBE32(|x|, x + rest);
  }

  /** Conversely, an input whose prefix claims no more bytes than follow it
      is one such field followed by the rest. */
  lemma SplitPrefixed16(d: seq<uint8>)
    requires |d| >= 2 && Uint16At(d, 0) <= |d| - 2
    ensures var l := Uint16At(d, 0);
      Prefixed16(d[2..2 + l]) + d[2 + l..] == d
  {
    var l := Uint16At(d, 0);
    SplitBE16(d);
    assert d[2..] == d[2..2 + l] + d[2 + l..];
  }

  lemma SplitPrefixed32(d: seq<uint8>)
    requires |d| >= 4 && Uint32At(d, 0) <= |d| - 4
    ensures var l := Uint32At(d, 0);
      Prefixed32(d[4..4 + l]) + d[4 + l..] == d
  {
    var l := Uint32At(d, 0);
    SplitBE32(d);
    assert d[4..] == d[4..4 + l] + d[4 + l..];
  }

  /** Two fields that fit their prefixes and start two equal byte strings
      are equal, and so are the bytes after them: the framing is unambiguous. */
  lemma Prefixed16Unambiguous(x: seq<uint8>, y: seq<uint8>, r1: seq<uint8>, r2: seq<uint8>)
    requires |x| < 0x1_0000 && |y| < 0x1_0000
    requires Prefixed16(x) + r1 == Prefixed16(y) + r2
    ensures x == y && r1 == r2
  {
    ReadPrefixed16(x, r1);
    ReadPrefixed16(y, r2);
  }

  lemma AppendAssoc<T>(a: seq<T>, b: seq<T>, c: seq<T>)
    ensures (a + b) + c == a + (b + c)
  {
  }

  /** Two concatenations with equally long first parts agree part by part. */
  lemma EqualAppends<T>(a: seq<T>, x: seq<T>, b: seq<T>, y: seq<T>)
    requires |a| == |b| && a + x == b + y
    ensures a == b && x == y
  {
    assert a == (a + x)[..|a|] && x == (a + x)[|a|..];
    assert b == (b + y)[..|b|] && y == (b + y)[|b|..];
  }

  /** 2^k, the number of values k bits can hold. */
  function Pow2(k: nat): (r: nat)
    ensures r > 0
  {
    if k == 0 then 1 else 2 * Pow2(k - 1)
  }

  /** Bitwise exclusive or of the k low-order bits of a and b, one bit at a
      time from the least significant. */
  function XorBits(a: nat, b: nat, k: nat): (r: nat)
    ensures r < Pow2(k)
  {
    if k == 0 then 0
    else (if a % 2 == b % 2 then 0 else 1) + 2 * XorBits(a / 2, b / 2, k - 1)
  }

  /** Bitwise exclusive or of two bytes, Go's `a ^ b`. */
  function Xor(a: uint8, b: uint8): (r: uint8)
  {
    assert Pow2(8) == 0x100;
    XorBits(a, b, 8)
  }

  /** XOR with the same bits twice restores the original bits. */
  lemma {:induction false} XorBitsTwice(a: nat, b: nat, k: nat)
    requires a < Pow2(k)
    ensures XorBits(XorBits(a, b, k), b, k) == a
  {
    if k > 0 {
      var d := if a % 2 == b % 2 then 0 else 1;
      var h := XorBits(a / 2, b / 2, k - 1);
      var r := d + 2 * h;
      assert r % 2 == d && r / 2 == h;
      XorBitsTwice(a / 2, b / 2, k - 1);
      assert XorBits(r, b, k) == (if r % 2 == b % 2 then 0 else 1) + 2 * XorBits(h, b / 2, k - 1);
    }
  }

  lemma XorTwice(a: uint8, b: uint8)
    ensures Xor(Xor(a, b), b) == a
  {
    assert Pow2(8) == 0x100;
    XorBitsTwice(a, b, 8);
  }

  /** Byte-wise exclusive or of two equally long byte strings. */
  function XorBytes(a: seq<uint8>, b: seq<uint8>): (r: seq<uint8>)
    requires |a| == |b|
    ensures |r| == |a|
  {
    seq(|a|, i requires 0 <= i < |a| => Xor(a[i], b[i]))
  }

  /** XOR against the same key stream twice restores the input: the reason
      counter-mode decryption is the same operation as encryption. */
  lemma XorBytesTwice(a: seq<uint8>, k: seq<uint8>)
    requires |a| == |k|
    ensures XorBytes(XorBytes(a, k), k) == a
  {
    var r := XorBytes(XorBytes(a, k), k);
    forall i | 0 <= i < |a|
      ensures r[i] == a[i]
    {
      XorTwice(a[i], k[i]);
    }
  }
}
