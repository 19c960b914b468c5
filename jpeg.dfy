/**
 * The JPEG parser of img-preview.js: after the SOI marker FF D8 it walks
 * the marker segments (ITU-T T.81, Annex B) until the first start-of-frame
 * marker, whose frame header (section B.2.2) holds the number of lines
 * (height) at marker+5 and samples per line (width) at marker+7.
 *
 * `ParseJpeg` is the loop as the source writes it; `JpegScan` is the same
 * walk as a recursive function, the specification the loop is proved
 * against and about which the properties of the walk are stated.
 */
module Jpeg {
  import opened Bytes
  import opened ImageTypes

  const JpegMinLength := 4
  const SoiMarker: seq<Byte> := [0xFF, 0xD8]

  /**
   * Second bytes of the start-of-frame markers SOF0-SOF3, SOF5-SOF7,
   * SOF9-SOF11 and SOF13-SOF15 (T.81, Table B.1). C4 (DHT), C8 (JPG) and
   * CC (DAC) are excluded.
   */
  predicate IsSofMarker(b: Byte) {
    (0xC0 <= b <= 0xC3) || (0xC5 <= b <= 0xC7) || (0xC9 <= b <= 0xCB) || (0xCD <= b <= 0xCF)
  }

  /** The loop guard `offset < buffer.length - 8`. */
  predicate InScanRange(buf: seq<Byte>, offset: nat) {
    offset + 8 < |buf|
  }

  /**
   * Where one iteration of the walk goes from `offset` when it does not
   * stop there: past the FF 00 pair, past a marker segment (two marker
   * bytes plus the big-endian segment length, which counts its own two
   * bytes), or one byte on. Always strictly forward.
   */
  function NextOffset(buf: seq<Byte>, offset: nat): (next: int)
    requires InScanRange(buf, offset)
    ensures next == offset + 1 || next == offset + 2 || next == offset + 2 + BE16(buf, offset + 2)
    ensures next > offset
  {
    if buf[offset] == 0xFF && buf[offset + 1] == 0x00 then offset + 2
    else if buf[offset] == 0xFF && buf[offset + 1] != 0xFF then
      (if offset + 3 <= |buf| then offset + 2 + BE16(buf, offset + 2) else offset + 1)
    else offset + 1
  }

  /** The walk stops at `offset`: an SOF marker with room for its dimensions. */
  predicate StopsAt(buf: seq<Byte>, offset: nat)
    requires InScanRange(buf, offset)
  {
    buf[offset] == 0xFF && IsSofMarker(buf[offset + 1]) && offset + 9 <= |buf|
  }

  /**
   * Inside the loop (`offset + 8 < length`) the source's two inner length
   * guards, `offset + 9 <= length` before the frame read and
   * `offset + 3 <= length` before the segment-length read, always hold.
   */
  lemma ScanGuardsHold(buf: seq<Byte>, offset: nat)
    requires InScanRange(buf, offset)
    ensures offset + 9 <= |buf| && offset + 3 <= |buf|
  {
  }

  /** Height at marker+5, width at marker+7, both big-endian. */
  function FrameDims(buf: seq<Byte>, offset: nat): (d: Dims)
    requires offset + 9 <= |buf|
    ensures d.format == Jpeg && 0 <= d.width < Two16 && 0 <= d.height < Two16
  {
    Dims(BE16(buf, offset + 7), BE16(buf, offset + 5), Jpeg)
  }

  /** The walk from `offset` as a recursive function. */
  function JpegScan(buf: seq<Byte>, offset: nat): Option<Dims>
    decreases |buf| - offset
  {
    if !InScanRange(buf, offset) then None
    else if StopsAt(buf, offset) then Some(FrameDims(buf, offset))
    else JpegScan(buf, NextOffset(buf, offset))
  }

  /** `parseJPEG`: the length guard, the SOI marker, then the walk from offset 2. */
  function JpegSpec(buf: seq<Byte>): Option<Dims>
  {
    if |buf| < JpegMinLength then None
    else if buf[0] == 0xFF && buf[1] == 0xD8 then JpegScan(buf, 2)
    else None
  }

  /** `parseJPEG` as written: a loop that moves `offset` forward. */
  method ParseJpeg(buffer: seq<Byte>) returns (r: Option<Dims>)
    ensures r == JpegSpec(buffer)
  {
    if |buffer| < JpegMinLength {
      return None;
    }
    if buffer[0] == 0xFF && buffer[1] == 0xD8 {
      var offset := 2;
      while offset < |buffer| - 8
        invariant offset >= 2
        invariant JpegScan(buffer, offset) == JpegScan(buffer, 2)
        decreases |buffer| - offset
      {
        ScanGuardsHold(buffer, offset);
        // Padding: FF 00
        if buffer[offset] == 0xFF && buffer[offset + 1] == 0x00 {
          offset := offset + 2;
          continue;
        }
        // Start of frame: FF C0-C3, C5-C7, C9-CB, CD-CF
        if buffer[offset] == 0xFF && IsSofMarker(buffer[offset + 1]) {
          if offset + 9 <= |buffer| {
            var height := BE16(buffer, offset + 5);
            var width := BE16(buffer, offset + 7);
            return Some(Dims(width, height, Jpeg));
          }
        }
        // Skip the segment
        if buffer[offset] == 0xFF && buffer[offset + 1] != 0xFF {
          if offset + 3 <= |buffer| {
            var segmentLength := BE16(buffer, offset + 2);
            offset := offset + 2 + segmentLength;
          } else {
            offset := offset + 1;
          }
        } else {
          offset := offset + 1;
        }
      }
    }
    return None;
  }

  /**
   * When the walk from `offset` returns a result, that result is the frame
   * of an SOF marker at or after `offset` whose frame header lies inside
   * the buffer.
   */
  lemma {:induction false} JpegScanSound(buf: seq<Byte>, offset: nat)
    ensures JpegScan(buf, offset).Some? ==>
              exists p :: offset <= p && InScanRange(buf, p) && StopsAt(buf, p)
                          && JpegScan(buf, offset).value == FrameDims(buf, p)
    decreases |buf| - offset
  {
    if InScanRange(buf, offset) && !StopsAt(buf, offset) {
      JpegScanSound(buf, NextOffset(buf, offset));
    }
  }

  /**
   * `parseJPEG` succeeds only on a buffer of at least 11 bytes that starts
   * with SOI, and then reports the height and width of an SOF marker found
   * at offset 2 or later.
   */
  lemma JpegSound(buf: seq<Byte>)
    ensures JpegSpec(buf).Some? ==> |buf| >= 11 && MatchesAt(buf, 0, SoiMarker)
    ensures JpegSpec(buf).Some? ==>
              exists p :: 2 <= p && InScanRange(buf, p) && StopsAt(buf, p)
                          && JpegSpec(buf).value == FrameDims(buf, p)
    ensures JpegSpec(buf).Some? ==> JpegSpec(buf).value.format == Jpeg
  {
    if |buf| >= JpegMinLength && buf[0] == 0xFF && buf[1] == 0xD8 {
      JpegScanSound(buf, 2);
    }
  }

  // =====================================================================
  // The inverse partner: a JPEG prefix built from the pieces the walk
  // distinguishes, ending in a start-of-frame segment.

  /**
   * What may precede the frame header: a stray non-FF byte, an FF 00 pair,
   * a fill byte FF (which must be followed by another FF), or a marker
   * segment.
   */
  datatype Chunk = Stray(b: Byte) | Padding | Fill | Segment(marker: Byte, payload: seq<Byte>)

  predicate ValidChunk(c: Chunk) {
    match c
    case Stray(b) => b != 0xFF
    case Padding => true
    case Fill => true
    case Segment(m, p) => m != 0x00 && m != 0xFF && !IsSofMarker(m) && |p| + 2 < Two16
  }

  /** The bytes of a chunk; a segment's length field counts itself and the payload. */
  function EncodeChunk(c: Chunk): (s: seq<Byte>)
    ensures |s| >= 1
  {
    match c
    case Stray(b) => [b]
    case Padding => [0xFF, 0x00]
    case Fill => [0xFF]
    case Segment(m, p) => [0xFF, m, ((|p| + 2) / 0x100) % 0x100, (|p| + 2) % 0x100] + p
  }

  /**
   * Every chunk is valid, and a fill byte is followed by a chunk that
   * starts with FF, never by a stray byte (FF then a non-FF byte would read
   * as a marker). A fill byte at the end is followed by the frame header,
   * which starts with FF.
   */
  predicate ValidChunks(cs: seq<Chunk>)
  {
    cs == [] || (ValidChunk(cs[0]) && (cs[0].Fill? && |cs| > 1 ==> !cs[1].Stray?) && ValidChunks(cs[1..]))
  }

  function EncodeChunks(cs: seq<Chunk>): (s: seq<Byte>)
  {
    if cs == [] then [] else EncodeChunk(cs[0]) + EncodeChunks(cs[1..])
  }

  /** A frame header with one component: Lf = 11, precision 8, Y = height, X = width. */
  function FrameSegment(marker: Byte, width: nat, height: nat): (s: seq<Byte>)
    requires IsSofMarker(marker) && width < Two16 && height < Two16
    ensures |s| == 13
  {
    [0xFF, marker, 0, 11, 8, height / 0x100, height % 0x100, width / 0x100, width % 0x100, 1, 1, 0x11, 0]
  }

  /** SOI, the chunks, then the frame header. */
  function JpegFile(cs: seq<Chunk>, marker: Byte, width: nat, height: nat): seq<Byte>
    requires IsSofMarker(marker) && width < Two16 && height < Two16
  {
    SoiMarker + EncodeChunks(cs) + FrameSegment(marker, width, height)
  }

  /**
   * Whatever stray bytes, padding, fill bytes and non-frame segments come
   * first, the walk reaches the first frame header and reports its width
   * and height.
   */
  lemma JpegRoundTrip(cs: seq<Chunk>, marker: Byte, width: nat, height: nat, rest: seq<Byte>)
    requires ValidChunks(cs)
    requires IsSofMarker(marker) && width < Two16 && height < Two16
    ensures JpegSpec(JpegFile(cs, marker, width, height) + rest) == Some(Dims(width, height, Jpeg))
  {
    var buf := JpegFile(cs, marker, width, height) + rest;
    var frame := FrameSegment(marker, width, height);
    var end := 2 + |EncodeChunks(cs)|;
    FileLayout(EncodeChunks(cs), frame, rest, buf, end);
    ScanChunks(buf, 2, cs, frame, end);
    FrameAt(buf, end, marker, width, height);
  }

  /** SOI, then the chunks at offset 2, then the frame header where they end. */
  lemma FileLayout(chunks: seq<Byte>, frame: seq<Byte>, rest: seq<Byte>, buf: seq<Byte>, end: nat)
    requires buf == SoiMarker + chunks + frame + rest
    requires end == 2 + |chunks| && |frame| >= 13
    ensures JpegSpec(buf) == JpegScan(buf, 2)
    ensures MatchesAt(buf, 2, chunks + frame)
    ensures MatchesAt(buf, end, frame)
  {
    var tail := chunks + frame;
    assert buf == SoiMarker + (tail + rest);
    assert buf[2..2 + |tail|] == tail;
    MatchesSplit(buf, 2, chunks, frame);
  }

  /**
   * The walk steps over a whole sequence of chunks that is followed by at
   * least a frame header's worth of bytes starting with FF.
   */
  lemma {:induction false} ScanChunks(buf: seq<Byte>, offset: nat, cs: seq<Chunk>, frame: seq<Byte>, end: nat)
    requires ValidChunks(cs)
    requires |frame| >= 13 && frame[0] == 0xFF
    requires MatchesAt(buf, offset, EncodeChunks(cs) + frame)
    requires end == offset + |EncodeChunks(cs)|
    ensures JpegScan(buf, offset) == JpegScan(buf, end)
    decreases |cs|
  {
    if cs == [] {
      assert EncodeChunks(cs) == [];
      assert end == offset;
    } else {
      var next := StepOver(buf, offset, cs, frame);
      ScanChunks(buf, next, cs[1..], frame, end);
    }
  }

  /** One step of `ScanChunks`: the walk steps over the first chunk and lands on the rest. */
  lemma StepOver(buf: seq<Byte>, offset: nat, cs: seq<Chunk>, frame: seq<Byte>) returns (next: nat)
    requires cs != [] && ValidChunks(cs)
    requires |frame| >= 13 && frame[0] == 0xFF
    requires MatchesAt(buf, offset, EncodeChunks(cs) + frame)
    ensures ValidChunks(cs[1..])
    ensures MatchesAt(buf, next, EncodeChunks(cs[1..]) + frame)
    ensures next + |EncodeChunks(cs[1..])| == offset + |EncodeChunks(cs)|
    ensures JpegScan(buf, offset) == JpegScan(buf, next)
  {
    RegroupFirst(cs, frame);
    if cs[0].Fill? {
      NextStartsWithFF(cs[1..], frame);
    }
    next := offset + |EncodeChunk(cs[0])|;
    ChunkThenRest(buf, offset, cs[0], EncodeChunks(cs[1..]) + frame, next);
  }

  /** The encoding of a non-empty chunk list, followed by `tail`, regrouped around its first chunk. */
  lemma RegroupFirst(cs: seq<Chunk>, tail: seq<Byte>)
    requires cs != []
    ensures EncodeChunks(cs) + tail == EncodeChunk(cs[0]) + (EncodeChunks(cs[1..]) + tail)
    ensures |EncodeChunks(cs)| == |EncodeChunk(cs[0])| + |EncodeChunks(cs[1..])|
  {
    assert EncodeChunks(cs) == EncodeChunk(cs[0]) + EncodeChunks(cs[1..]);
  }

  /** What follows a fill byte, another chunk or the frame header, starts with FF. */
  lemma NextStartsWithFF(cs: seq<Chunk>, frame: seq<Byte>)
    requires |frame| > 0 && frame[0] == 0xFF
    requires cs == [] || !cs[0].Stray?
    ensures (EncodeChunks(cs) + frame)[0] == 0xFF
  {
    if cs != [] {
      assert EncodeChunks(cs) == EncodeChunk(cs[0]) + EncodeChunks(cs[1..]);
    }
  }

  /**
   * A chunk followed by at least a frame header's worth of bytes (starting
   * with FF after a fill byte) is stepped over whole, landing on the rest.
   */
  lemma ChunkThenRest(buf: seq<Byte>, offset: nat, c: Chunk, rest: seq<Byte>, next: nat)
    requires ValidChunk(c) && |rest| >= 13 && (c.Fill? ==> rest[0] == 0xFF)
    requires MatchesAt(buf, offset, EncodeChunk(c) + rest)
    requires next == offset + |EncodeChunk(c)|
    ensures MatchesAt(buf, next, rest)
    ensures JpegScan(buf, offset) == JpegScan(buf, next)
  {
    MatchesSplit(buf, offset, EncodeChunk(c), rest);
    if c.Fill? {
      assert buf[next..next + |rest|][0] == buf[next];
    }
    ChunkStep(buf, offset, c, next);
  }

  /** Where the walk does not stop, it continues from the next offset. */
  lemma ScanStep(buf: seq<Byte>, offset: nat)
    requires InScanRange(buf, offset) && !StopsAt(buf, offset)
    ensures JpegScan(buf, offset) == JpegScan(buf, NextOffset(buf, offset))
  {
  }

  /** At a frame header the walk stops and reads its width and height. */
  lemma FrameAt(buf: seq<Byte>, offset: nat, marker: Byte, width: nat, height: nat)
    requires IsSofMarker(marker) && width < Two16 && height < Two16
    requires MatchesAt(buf, offset, FrameSegment(marker, width, height))
    ensures InScanRange(buf, offset) && StopsAt(buf, offset)
    ensures JpegScan(buf, offset) == Some(Dims(width, height, Jpeg))
  {
    var frame := FrameSegment(marker, width, height);
    MatchesAtIndex(buf, offset, frame);
    assert buf[offset] == frame[0] && buf[offset + 1] == frame[1];
    assert buf[offset + 5] == frame[5] && buf[offset + 6] == frame[6];
    assert buf[offset + 7] == frame[7] && buf[offset + 8] == frame[8];
  }

  /** A chunk followed by at least a frame header is stepped over whole. */
  lemma ChunkStep(buf: seq<Byte>, offset: nat, c: Chunk, next: nat)
    requires ValidChunk(c) && MatchesAt(buf, offset, EncodeChunk(c))
    requires c.Fill? ==> offset + 1 < |buf| && buf[offset + 1] == 0xFF
    requires next == offset + |EncodeChunk(c)| && next + 13 <= |buf|
    ensures InScanRange(buf, offset) && !StopsAt(buf, offset)
    ensures NextOffset(buf, offset) == next
    ensures JpegScan(buf, offset) == JpegScan(buf, next)
  {
    var e := EncodeChunk(c);
    MatchesAtIndex(buf, offset, e);
    assert buf[offset] == e[0];
    match c
    case Stray(b) =>
    case Padding =>
      assert buf[offset + 1] == e[1];
    case Fill =>
    case Segment(m, p) =>
      assert buf[offset + 1] == e[1] && buf[offset + 2] == e[2] && buf[offset + 3] == e[3];
    ScanStep(buf, offset);
  }
}
