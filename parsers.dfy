/**
 * The four fixed-offset header parsers of img-preview.js: PNG, GIF, BMP
 * and WebP. Each takes the leading bytes of a file and returns the
 * dimensions, or `None` when the buffer is too short or its signature
 * does not match; none of them ever reads outside the buffer.
 *
 * Beside each parser: an encoder that builds a minimal well-formed header
 * (the inverse partner), the round trip through the parser, and a lemma
 * naming exactly which bytes the parser looks at.
 */
module Parsers {
  import opened Bytes
  import opened ImageTypes

  // =====================================================================
  // PNG (ISO/IEC 15948, section 11.2.2: IHDR is the first chunk, so its
  // width and height sit at file offsets 16 and 20, big-endian).

  /** The first four bytes of the 8-byte PNG signature, all that is checked. */
  const PngMagic: seq<Byte> := [0x89, 0x50, 0x4E, 0x47]
  const PngMinLength := 24

  function ParsePng(buf: seq<Byte>): (r: Option<Dims>)
    ensures r.Some? <==> |buf| >= PngMinLength && MatchesAt(buf, 0, PngMagic)
    ensures r.Some? ==> r.value.format == Png
    ensures r.Some? ==> 0 <= r.value.width < Two32 && 0 <= r.value.height < Two32
  {
    if |buf| < PngMinLength then None
    else if buf[0] == 0x89 && buf[1] == 0x50 && buf[2] == 0x4E && buf[3] == 0x47 then
      Some(Dims(BE32(buf, 16), BE32(buf, 20), Png))
    else None
  }

  /** Signature, IHDR length and type, then width and height. */
  function PngHeader(width: nat, height: nat): (h: seq<Byte>)
    requires width < Two32 && height < Two32
    ensures |h| == PngMinLength
  {
    [0x89, 0x50, 0x4E, 0x47, 0x0D, 0x0A, 0x1A, 0x0A]
    + [0x00, 0x00, 0x00, 0x0D] + [0x49, 0x48, 0x44, 0x52]
    + EncodeBE32(width) + EncodeBE32(height)
  }

  lemma PngRoundTrip(width: nat, height: nat, rest: seq<Byte>)
    requires width < Two32 && height < Two32
    ensures ParsePng(PngHeader(width, height) + rest) == Some(Dims(width, height, Png))
  {
    var buf := PngHeader(width, height) + rest;
    assert buf[16..20] == EncodeBE32(width);
    assert buf[20..24] == EncodeBE32(height);
    BE32Encoded(buf, 16, width);
    BE32Encoded(buf, 20, height);
  }

  /**
   * Only the length guard, the four signature bytes and the IHDR width and
   * height decide the result: the rest of the signature, the chunk length
   * and the chunk type are never checked.
   */
  lemma PngReadsOnly(a: seq<Byte>, b: seq<Byte>)
    requires |a| >= PngMinLength <==> |b| >= PngMinLength
    requires |a| >= PngMinLength ==> SameBytes(a, b, 0, 4) && SameBytes(a, b, 16, 24)
    ensures ParsePng(a) == ParsePng(b)
  {
    if |a| >= PngMinLength {
      SameBytesAt(a, b, 0, 4);
      SameBytesAt(a, b, 16, 24);
    }
  }

  // =====================================================================
  // GIF (GIF89a, section 18: the Logical Screen Descriptor follows the
  // 6-byte header; width and height are little-endian).

  const GifMagic: seq<Byte> := [0x47, 0x49, 0x46, 0x38]  // "GIF8"
  const GifMinLength := 10

  function ParseGif(buf: seq<Byte>): (r: Option<Dims>)
    ensures r.Some? <==> |buf| >= GifMinLength && MatchesAt(buf, 0, GifMagic)
    ensures r.Some? ==> r.value.format == Gif
    ensures r.Some? ==> 0 <= r.value.width < Two16 && 0 <= r.value.height < Two16
  {
    if |buf| < GifMinLength then None
    else if buf[0] == 0x47 && buf[1] == 0x49 && buf[2] == 0x46 && buf[3] == 0x38 then
      Some(Dims(LE16(buf, 6), LE16(buf, 8), Gif))
    else None
  }

  /** "GIF89a" then the logical screen width and height. */
  function GifHeader(width: nat, height: nat): (h: seq<Byte>)
    requires width < Two16 && height < Two16
    ensures |h| == GifMinLength
  {
    [0x47, 0x49, 0x46, 0x38, 0x39, 0x61] + EncodeLE16(width) + EncodeLE16(height)
  }

  lemma GifRoundTrip(width: nat, height: nat, rest: seq<Byte>)
    requires width < Two16 && height < Two16
    ensures ParseGif(GifHeader(width, height) + rest) == Some(Dims(width, height, Gif))
  {
    var buf := GifHeader(width, height) + rest;
    assert buf[6..8] == EncodeLE16(width);
    assert buf[8..10] == EncodeLE16(height);
    LE16Encoded(buf, 6, width);
    LE16Encoded(buf, 8, height);
  }

  /** The version bytes ("87a" / "89a") are not checked. */
  lemma GifReadsOnly(a: seq<Byte>, b: seq<Byte>)
    requires |a| >= GifMinLength <==> |b| >= GifMinLength
    requires |a| >= GifMinLength ==> SameBytes(a, b, 0, 4) && SameBytes(a, b, 6, 10)
    ensures ParseGif(a) == ParseGif(b)
  {
    if |a| >= GifMinLength {
      SameBytesAt(a, b, 0, 4);
      SameBytesAt(a, b, 6, 10);
    }
  }

  // =====================================================================
  // BMP: "BM", a 14-byte file header, then a BITMAPINFOHEADER whose
  // signed width and height sit at file offsets 18 and 22. A negative
  // height marks a top-down bitmap; its magnitude is the height.

  const BmpMagic: seq<Byte> := [0x42, 0x4D]  // "BM"
  const BmpMinLength := 26

  function ParseBmp(buf: seq<Byte>): (r: Option<Dims>)
    ensures r.Some? <==> |buf| >= BmpMinLength && MatchesAt(buf, 0, BmpMagic)
    ensures r.Some? ==> r.value.format == Bmp
    ensures r.Some? ==> -Two31 <= r.value.width < Two31 && 0 <= r.value.height <= Two31
  {
    if |buf| < BmpMinLength then None
    else if buf[0] == 0x42 && buf[1] == 0x4D then
      Some(Dims(SignedLE32(buf, 18), Abs(SignedLE32(buf, 22)), Bmp))
    else None
  }

  /** "BM", zeroed size/reserved/offset fields, a 40-byte info header size, then width and height. */
  function BmpHeader(width: int, height: int): (h: seq<Byte>)
    requires -Two31 <= width < Two31 && -Two31 <= height < Two31
    ensures |h| == BmpMinLength
  {
    [0x42, 0x4D] + [0, 0, 0, 0, 0, 0, 0, 0, 0, 0, 0, 0]
    + EncodeLE32(40) + EncodeSignedLE32(width) + EncodeSignedLE32(height)
  }

  /** The width keeps its sign; a top-down (negative) height comes back as its magnitude. */
  lemma BmpRoundTrip(width: int, height: int, rest: seq<Byte>)
    requires -Two31 <= width < Two31 && -Two31 <= height < Two31
    ensures ParseBmp(BmpHeader(width, height) + rest) == Some(Dims(width, Abs(height), Bmp))
  {
    var buf := BmpHeader(width, height) + rest;
    assert buf[18..22] == EncodeSignedLE32(width);
    assert buf[22..26] == EncodeSignedLE32(height);
    SignedLE32Encoded(buf, 18, width);
    SignedLE32Encoded(buf, 22, height);
  }

  lemma BmpReadsOnly(a: seq<Byte>, b: seq<Byte>)
    requires |a| >= BmpMinLength <==> |b| >= BmpMinLength
    requires |a| >= BmpMinLength ==> SameBytes(a, b, 0, 2) && SameBytes(a, b, 18, 26)
    ensures ParseBmp(a) == ParseBmp(b)
  {
    if |a| >= BmpMinLength {
      SameBytesAt(a, b, 0, 2);
      SameBytesAt(a, b, 18, 26);
    }
  }

  // =====================================================================
  // WebP: a RIFF container whose form type is "WEBP" and whose first chunk
  // is either "VP8 " (RFC 6386, section 9.1: 14-bit width and height after
  // the start code, the top two bits being a scale) or "VP8L" (RFC 9649,
  // section 3: a 32-bit word holding width-1 and height-1 in 14 bits each).
  // Any other first chunk ("VP8X" among them) is not recognised.

  const RiffMagic: seq<Byte> := [0x52, 0x49, 0x46, 0x46]  // "RIFF"
  const WebpMagic: seq<Byte> := [0x57, 0x45, 0x42, 0x50]  // "WEBP"
  const Vp8Tag: seq<Byte> := [0x56, 0x50, 0x38, 0x20]     // "VP8 "
  const Vp8lTag: seq<Byte> := [0x56, 0x50, 0x38, 0x4C]    // "VP8L"
  const WebpMinLength := 30

  /** The 14-bit mask `0x3FFF`, as a modulus. */
  const Two14: int := 0x4000

  predicate IsWebpContainer(buf: seq<Byte>) {
    |buf| >= WebpMinLength && MatchesAt(buf, 0, RiffMagic) && MatchesAt(buf, 8, WebpMagic)
  }

  function ParseWebp(buf: seq<Byte>): (r: Option<Dims>)
    ensures r.Some? ==> IsWebpContainer(buf) && (MatchesAt(buf, 12, Vp8Tag) || MatchesAt(buf, 12, Vp8lTag))
    ensures r.Some? ==> r.value.format == Webp
    ensures r.Some? ==> 0 <= r.value.width <= Two14 && 0 <= r.value.height <= Two14
  {
    if |buf| < WebpMinLength then None
    else if buf[0] == 0x52 && buf[1] == 0x49 && buf[2] == 0x46 && buf[3] == 0x46
         && buf[8] == 0x57 && buf[9] == 0x45 && buf[10] == 0x42 && buf[11] == 0x50 then
      if buf[12] == 0x56 && buf[13] == 0x50 && buf[14] == 0x38 && buf[15] == 0x20 then
        // `readUInt16LE(n) & 0x3FFF`
        Some(Dims(LE16(buf, 26) % Two14, LE16(buf, 28) % Two14, Webp))
      else if buf[12] == 0x56 && buf[13] == 0x50 && buf[14] == 0x38 && buf[15] == 0x4C then
        // `(bits & 0x3FFF) + 1` and `((bits >> 14) & 0x3FFF) + 1`
        var bits := LE32(buf, 21);
        Some(Dims(bits % Two14 + 1, (bits / Two14) % Two14 + 1, Webp))
      else None
    else None
  }

  /**
   * A RIFF/WEBP buffer of at least 30 bytes is recognised exactly when its
   * first chunk is "VP8 " or "VP8L". A lossy header gives dimensions in
   * [0, 16383] (the 14-bit fields), a lossless one in [1, 16384] (the
   * stored value plus one).
   */
  lemma WebpAccepts(buf: seq<Byte>)
    ensures ParseWebp(buf).Some? <==> IsWebpContainer(buf) && (MatchesAt(buf, 12, Vp8Tag) || MatchesAt(buf, 12, Vp8lTag))
    ensures ParseWebp(buf).Some? && MatchesAt(buf, 12, Vp8Tag) ==>
              0 <= ParseWebp(buf).value.width < Two14 && 0 <= ParseWebp(buf).value.height < Two14
    ensures ParseWebp(buf).Some? && MatchesAt(buf, 12, Vp8lTag) ==>
              1 <= ParseWebp(buf).value.width <= Two14 && 1 <= ParseWebp(buf).value.height <= Two14
  {
    if IsWebpContainer(buf) {
      MatchesAtIndex(buf, 0, RiffMagic);
      MatchesAtIndex(buf, 8, WebpMagic);
      if MatchesAt(buf, 12, Vp8Tag) {
        MatchesAtIndex(buf, 12, Vp8Tag);
      } else if MatchesAt(buf, 12, Vp8lTag) {
        MatchesAtIndex(buf, 12, Vp8lTag);
      } else {
        assert buf[12..16] != Vp8Tag && buf[12..16] != Vp8lTag;
      }
    }
  }

  /**
   * A lossy WebP header: RIFF/WEBP, a "VP8 " chunk, a key-frame tag, the
   * start code 9D 01 2A, then width and height each with a 2-bit scale on top.
   */
  function Vp8Header(width: nat, height: nat, widthScale: nat, heightScale: nat): (h: seq<Byte>)
    requires width < Two14 && height < Two14 && widthScale < 4 && heightScale < 4
    ensures |h| == WebpMinLength
  {
    RiffMagic + [0, 0, 0, 0] + WebpMagic + Vp8Tag + [0, 0, 0, 0]
    + [0, 0, 0] + [0x9D, 0x01, 0x2A]
    + EncodeLE16(width + widthScale * Two14) + EncodeLE16(height + heightScale * Two14)
  }

  /** The scale bits are masked off. */
  lemma Vp8RoundTrip(width: nat, height: nat, widthScale: nat, heightScale: nat, rest: seq<Byte>)
    requires width < Two14 && height < Two14 && widthScale < 4 && heightScale < 4
    ensures ParseWebp(Vp8Header(width, height, widthScale, heightScale) + rest)
         == Some(Dims(width, height, Webp))
  {
    var buf := Vp8Header(width, height, widthScale, heightScale) + rest;
    assert buf[26..28] == EncodeLE16(width + widthScale * Two14);
    assert buf[28..30] == EncodeLE16(height + heightScale * Two14);
    LE16Encoded(buf, 26, width + widthScale * Two14);
    LE16Encoded(buf, 28, height + heightScale * Two14);
    Split14(width + widthScale * Two14, width, widthScale);
    Split14(height + heightScale * Two14, height, heightScale);
  }

  /** The packed VP8L word: width-1, height-1, then alpha and version bits. */
  function Vp8lBits(width: nat, height: nat, high: nat): (bits: nat)
    requires 1 <= width <= Two14 && 1 <= height <= Two14 && high < 16
    ensures bits < Two32
  {
    (width - 1) + (height - 1) * Two14 + high * Two14 * Two14
  }

  /** A lossless WebP header: RIFF/WEBP, a "VP8L" chunk, the signature byte 0x2F, the packed word. */
  function Vp8lHeader(width: nat, height: nat, high: nat): (h: seq<Byte>)
    requires 1 <= width <= Two14 && 1 <= height <= Two14 && high < 16
    ensures |h| == WebpMinLength
  {
    RiffMagic + [0, 0, 0, 0] + WebpMagic + Vp8lTag + [0, 0, 0, 0]
    + [0x2F] + EncodeLE32(Vp8lBits(width, height, high)) + [0, 0, 0, 0, 0]
  }

  /** The stored width-1 and height-1 come back with one added, in that order. */
  lemma Vp8lRoundTrip(width: nat, height: nat, high: nat, rest: seq<Byte>)
    requires 1 <= width <= Two14 && 1 <= height <= Two14 && high < 16
    ensures ParseWebp(Vp8lHeader(width, height, high) + rest) == Some(Dims(width, height, Webp))
  {
    var buf := Vp8lHeader(width, height, high) + rest;
    var bits := Vp8lBits(width, height, high);
    assert buf[21..25] == EncodeLE32(bits);
    LE32Encoded(buf, 21, bits);
    Split14(bits, width - 1, (height - 1) + high * Two14);
    Split14(bits / Two14, height - 1, high);
  }

  /**
   * JavaScript evaluates `bits & 0x3FFF` and `(bits >> 14) & 0x3FFF` on the
   * 32-bit two's complement form of `bits`, and `>>` copies the sign bit
   * into the vacated top bits. After the mask neither matters: the fields
   * are the unsigned remainders of the 32-bit word.
   */
  lemma Vp8lMasks(bits: bv32)
    ensures bits & 0x3FFF == bits % 0x4000
    ensures ((bits >> 14) | (if bits & 0x8000_0000 != 0 then 0xFFFC_0000 else 0)) & 0x3FFF
         == (bits / 0x4000) % 0x4000
  {
  }

  /** Division by 2^14 recovers the low 14 bits and the rest. */
  lemma Split14(x: int, lo: int, hi: int)
    requires 0 <= lo < Two14 && 0 <= hi && x == lo + hi * Two14
    ensures x / Two14 == hi && x % Two14 == lo
  {
  }

  /**
   * Only the signature bytes and the bytes of the chunk that is recognised
   * are read: bytes 26-29 of a "VP8 " chunk (the frame tag and start code
   * before them are not), bytes 21-24 of a "VP8L" chunk (the signature
   * byte 0x2F before them and the image data after them are not). The RIFF
   * size and the chunk size are never read.
   */
  lemma WebpReadsOnly(a: seq<Byte>, b: seq<Byte>)
    requires |a| >= WebpMinLength <==> |b| >= WebpMinLength
    requires |a| >= WebpMinLength ==> SameBytes(a, b, 0, 4) && SameBytes(a, b, 8, 16)
    requires |a| >= WebpMinLength && MatchesAt(a, 12, Vp8Tag) ==> SameBytes(a, b, 26, 30)
    requires |a| >= WebpMinLength && MatchesAt(a, 12, Vp8lTag) ==> SameBytes(a, b, 21, 25)
    ensures ParseWebp(a) == ParseWebp(b)
  {
    if |a| >= WebpMinLength {
      SameBytesAt(a, b, 0, 4);
      SameBytesAt(a, b, 8, 16);
      if MatchesAt(a, 12, Vp8Tag) {
        MatchesAtIndex(a, 12, Vp8Tag);
        SameBytesAt(a, b, 26, 30);
      } else if MatchesAt(a, 12, Vp8lTag) {
        MatchesAtIndex(a, 12, Vp8lTag);
        SameBytesAt(a, b, 21, 25);
      } else {
        assert a[12..16] != Vp8Tag && a[12..16] != Vp8lTag;
        assert b[12..16] == a[12..16] by {
          assert a[12..16] == a[8..16][4..] && b[12..16] == b[8..16][4..];
        }
      }
    }
  }
}
