/**
 * Fixed-width integer reads over a byte buffer, as Node's
 * `Buffer.readUInt16BE`, `readUInt32BE`, `readUInt16LE`, `readUInt32LE`
 * and `readInt32LE` perform them, together with the matching encoders.
 * Every read requires the whole field to lie inside the buffer: the
 * parsers guard each read with a length check, so none of them can
 * raise Node's out-of-range error.
 */
module Bytes {

  type Byte = b: int | 0 <= b < 256

  const Two16: int := 0x1_0000
  const Two31: int := 0x8000_0000
  const Two32: int := 0x1_0000_0000

  /** Unsigned 16-bit big-endian value at `i`. */
  function BE16(buf: seq<Byte>, i: nat): (v: nat)
    requires i + 2 <= |buf|
    ensures v < Two16
  {
    (buf[i] as int) * 0x100 + buf[i + 1]
  }

  /** Unsigned 32-bit big-endian value at `i`. */
  function BE32(buf: seq<Byte>, i: nat): (v: nat)
    requires i + 4 <= |buf|
    ensures v < Two32
  {
    (((buf[i] as int) * 0x100 + buf[i + 1]) * 0x100 + buf[i + 2]) * 0x100 + buf[i + 3]
  }

  /** Unsigned 16-bit little-endian value at `i`. */
  function LE16(buf: seq<Byte>, i: nat): (v: nat)
    requires i + 2 <= |buf|
    ensures v < Two16
  {
    buf[i] + (buf[i + 1] as int) * 0x100
  }

  /** Unsigned 32-bit little-endian value at `i`. */
  function LE32(buf: seq<Byte>, i: nat): (v: nat)
    requires i + 4 <= |buf|
    ensures v < Two32
  {
    buf[i] + (buf[i + 1] + (buf[i + 2] + (buf[i + 3] as int) * 0x100) * 0x100) * 0x100
  }

  /**
   * Signed (two's complement) 32-bit little-endian value at `i`: negative
   * exactly when the top bit of the last byte is set, and congruent to the
   * unsigned reading modulo 2^32.
   */
  function SignedLE32(buf: seq<Byte>, i: nat): (v: int)
    requires i + 4 <= |buf|
    ensures -Two31 <= v < Two31
    ensures v < 0 <==> buf[i + 3] >= 0x80
    ensures (LE32(buf, i) - v) % Two32 == 0
  {
    var u := LE32(buf, i);
    if u >= Two31 then u - Two32 else u
  }

  /** JavaScript's `Math.abs` on an integer. */
  function Abs(x: int): (r: nat)
    ensures r == x || r == -x
  {
    if x < 0 then -x else x
  }

  /** `m` occurs in `buf` at offset `i`. */
  predicate MatchesAt(buf: seq<Byte>, i: nat, m: seq<Byte>) {
    i + |m| <= |buf| && buf[i..i + |m|] == m
  }

  /** Two buffers agree on the bytes `[i, j)`. */
  predicate SameBytes(a: seq<Byte>, b: seq<Byte>, i: nat, j: nat) {
    i <= j <= |a| && j <= |b| && a[i..j] == b[i..j]
  }

  lemma SameBytesAt(a: seq<Byte>, b: seq<Byte>, i: nat, j: nat)
    requires SameBytes(a, b, i, j)
    ensures forall k :: i <= k < j ==> a[k] == b[k]
  {
    forall k | i <= k < j ensures a[k] == b[k] {
      assert a[k] == a[i..j][k - i] && b[k] == b[i..j][k - i];
    }
  }

  lemma MatchesAtIndex(buf: seq<Byte>, i: nat, m: seq<Byte>)
    requires MatchesAt(buf, i, m)
    ensures forall k :: 0 <= k < |m| ==> buf[i + k] == m[k]
  {
    forall k | 0 <= k < |m| ensures buf[i + k] == m[k] {
      assert buf[i..i + |m|][k] == buf[i + k];
    }
  }

  lemma MatchesSplit(buf: seq<Byte>, i: nat, a: seq<Byte>, b: seq<Byte>)
    requires MatchesAt(buf, i, a + b)
    ensures MatchesAt(buf, i, a) && MatchesAt(buf, i + |a|, b)
  {
    assert buf[i..i + |a|] == buf[i..i + |a| + |b|][..|a|];
    assert buf[i + |a|..i + |a| + |b|] == buf[i..i + |a| + |b|][|a|..];
  }

  // ---------------------------------------------------------------------
  // Encoders: the inverse of each read, used to build well-formed headers.

  function EncodeBE16(v: nat): (s: seq<Byte>)
    requires v < Two16
    ensures |s| == 2
  {
    [v / 0x100, v % 0x100]
  }

  function EncodeLE16(v: nat): (s: seq<Byte>)
    requires v < Two16
    ensures |s| == 2
  {
    [v % 0x100, v / 0x100]
  }

  function EncodeBE32(v: nat): (s: seq<Byte>)
    requires v < Two32
    ensures |s| == 4
  {
    var q := v / 0x100; var qq := q / 0x100;
    [qq / 0x100, qq % 0x100, q % 0x100, v % 0x100]
  }

  function EncodeLE32(v: nat): (s: seq<Byte>)
    requires v < Two32
    ensures |s| == 4
  {
    var q := v / 0x100; var qq := q / 0x100;
    [v % 0x100, q % 0x100, qq % 0x100, qq / 0x100]
  }

  /** Two's complement encoding of a signed 32-bit value. */
  function EncodeSignedLE32(v: int): (s: seq<Byte>)
    requires -Two31 <= v < Two31
    ensures |s| == 4
  {
    EncodeLE32(if v < 0 then v + Two32 else v)
  }

  // ---------------------------------------------------------------------
  // Round trips, in both directions.

  lemma BE16Encoded(buf: seq<Byte>, i: nat, v: nat)
    requires v < Two16 && i + 2 <= |buf| && buf[i..i + 2] == EncodeBE16(v)
    ensures BE16(buf, i) == v
  {
    assert buf[i] == buf[i..i + 2][0] && buf[i + 1] == buf[i..i + 2][1];
  }

  lemma LE16Encoded(buf: seq<Byte>, i: nat, v: nat)
    requires v < Two16 && i + 2 <= |buf| && buf[i..i + 2] == EncodeLE16(v)
    ensures LE16(buf, i) == v
  {
    assert buf[i] == buf[i..i + 2][0] && buf[i + 1] == buf[i..i + 2][1];
  }

  lemma BE32Encoded(buf: seq<Byte>, i: nat, v: nat)
    requires v < Two32 && i + 4 <= |buf| && buf[i..i + 4] == EncodeBE32(v)
    ensures BE32(buf, i) == v
  {
    var s := buf[i..i + 4];
    assert buf[i] == s[0] && buf[i + 1] == s[1] && buf[i + 2] == s[2] && buf[i + 3] == s[3];
    DigitsBase256(v);
  }

  lemma LE32Encoded(buf: seq<Byte>, i: nat, v: nat)
    requires v < Two32 && i + 4 <= |buf| && buf[i..i + 4] == EncodeLE32(v)
    ensures LE32(buf, i) == v
  {
    var s := buf[i..i + 4];
    assert buf[i] == s[0] && buf[i + 1] == s[1] && buf[i + 2] == s[2] && buf[i + 3] == s[3];
    DigitsBase256(v);
  }

  lemma SignedLE32Encoded(buf: seq<Byte>, i: nat, v: int)
    requires -Two31 <= v < Two31 && i + 4 <= |buf| && buf[i..i + 4] == EncodeSignedLE32(v)
    ensures SignedLE32(buf, i) == v
  {
    LE32Encoded(buf, i, if v < 0 then v + Two32 else v);
  }

  /** Reading back what was read: the encoders invert the readers. */
  lemma BE16Decoded(buf: seq<Byte>, i: nat)
    requires i + 2 <= |buf|
    ensures EncodeBE16(BE16(buf, i)) == buf[i..i + 2]
  {
  }

  lemma LE16Decoded(buf: seq<Byte>, i: nat)
    requires i + 2 <= |buf|
    ensures EncodeLE16(LE16(buf, i)) == buf[i..i + 2]
  {
  }

  lemma BE32Decoded(buf: seq<Byte>, i: nat)
    requires i + 4 <= |buf|
    ensures EncodeBE32(BE32(buf, i)) == buf[i..i + 4]
  {
    var hi := (buf[i] as int) * 0x100 + buf[i + 1];
    var mid := hi * 0x100 + buf[i + 2];
    SplitByte(BE32(buf, i), buf[i + 3], mid);
    SplitByte(mid, buf[i + 2], hi);
    SplitByte(hi, buf[i + 1], buf[i]);
  }

  lemma LE32Decoded(buf: seq<Byte>, i: nat)
    requires i + 4 <= |buf|
    ensures EncodeLE32(LE32(buf, i)) == buf[i..i + 4]
  {
    var hi := buf[i + 2] + (buf[i + 3] as int) * 0x100;
    var mid := buf[i + 1] + hi * 0x100;
    SplitByte(LE32(buf, i), buf[i], mid);
    SplitByte(mid, buf[i + 1], hi);
    SplitByte(hi, buf[i + 2], buf[i + 3]);
  }

  lemma SignedLE32Decoded(buf: seq<Byte>, i: nat)
    requires i + 4 <= |buf|
    ensures EncodeSignedLE32(SignedLE32(buf, i)) == buf[i..i + 4]
  {
    LE32Decoded(buf, i);
  }

  /** Division by 256 recovers the low byte and the rest. */
  lemma SplitByte(x: int, lo: int, hi: int)
    requires 0 <= lo < 0x100 && 0 <= hi && x == lo + hi * 0x100
    ensures x / 0x100 == hi && x % 0x100 == lo
  {
  }

  /** The base-256 digits of a 32-bit value recombine to it. */
  lemma DigitsBase256(v: nat)
    requires v < Two32
    ensures var q := v / 0x100; var qq := q / 0x100;
      ((qq / 0x100 * 0x100 + qq % 0x100) * 0x100 + q % 0x100) * 0x100 + v % 0x100 == v
  {
    var q := v / 0x100;
    var qq := q / 0x100;
    assert v == q * 0x100 + v % 0x100;
    assert q == qq * 0x100 + q % 0x100;
    assert qq == qq / 0x100 * 0x100 + qq % 0x100;
  }
}
