# Header-only image dimensions, in Dafny

This project models the image-dimension extractor of `img-preview.js`, a
local image-gallery server. The extractor reads the first 64 KiB of an image
file and recovers its width and height from the header alone, without
decoding any pixels. It handles PNG, JPEG, GIF, BMP and WebP (the lossy
`VP8 ` and lossless `VP8L` forms).

The model has four parts:

- `bytes.dfy` (module `Bytes`): the byte type, and Node's fixed-width reads
  (`readUInt16BE`, `readUInt32BE`, `readUInt16LE`, `readUInt32LE`,
  `readInt32LE`) as functions over `seq<Byte>`. Each read has an encoder,
  and round-trip lemmas go both ways for every read.
- `image_types.dfy` (module `ImageTypes`): the parse result `Dims` and the
  `{width, height, format}` record, where JavaScript's `null` becomes `None`.
- `parsers.dfy` (module `Parsers`) and `jpeg.dfy` (module `Jpeg`): the five
  parsers. PNG, GIF, BMP and WebP are pure functions. `parseJPEG` is a method
  with the source's `while` loop. It is proved equal to `JpegScan`, a
  recursive function that takes the same branches. Each parser has an
  encoder that builds a minimal well-formed header, and a lemma proves that
  the parser recovers the encoded width and height from it.
- `metadata.dfy` (module `Metadata`): `getImageMetadata` as a method that
  follows the source's `switch` and chain of `if (!result)`. It is proved
  equal to `Resolve`, a pure "first parser that succeeds" function. The
  module also holds the per-file `.svg` short-circuit of `handleApiImages`.
  Its lemmas show that at most one parser recognises any buffer, so the file
  extension never changes the result.

The file system is a parameter. A file is `Some(contents)` when it can be
read and `None` when the read fails. The extension arrives already
lower-cased.

Three properties of the code that the contracts make explicit:

- The BMP width is a signed field reported as stored, so it can be
  negative. Only the BMP height goes through `Math.abs`.
- The first JPEG guard is `length < 4`, but the scan loop runs only while
  `offset < length - 8`, starting at offset 2, so a JPEG result needs at
  least 11 bytes (`Jpeg.JpegSound`).
- A JPEG segment length that points past the buffer is not checked: `offset`
  moves past the end and the loop guard ends the walk. Inside the loop,
  `offset + 8 < length` already holds, so the inner guards
  `offset + 9 <= length` and `offset + 3 <= length` are always true
  (`Jpeg.ScanGuardsHold`).

## Model

| member | source | states |
|---|---|---|
| `Bytes.BE16` | img-preview.js:166-167 | `readUInt16BE`: a big-endian value in [0, 65535], defined only when both bytes are inside the buffer |
| `Bytes.BE32` | img-preview.js:131-132 | `readUInt32BE`: a big-endian value in [0, 2^32), defined only when all four bytes are inside the buffer |
| `Bytes.LE16` | img-preview.js:197-198 | `readUInt16LE`: a little-endian value in [0, 65535] |
| `Bytes.LE32` | img-preview.js:235 | `readUInt32LE`: a little-endian value in [0, 2^32) |
| `Bytes.SignedLE32` | img-preview.js:212-213 | `readInt32LE`: a value in [-2^31, 2^31), negative exactly when the top bit of the last byte is set, and congruent to the unsigned read modulo 2^32 |
| `Bytes.Abs` | img-preview.js:213 | `Math.abs` gives a non-negative value equal to `x` or `-x` |
| `Bytes.BE16Encoded` | img-preview.js:166-167 | the big-endian 16-bit encoding of `v` reads back as `v` |
| `Bytes.LE16Encoded` | img-preview.js:197-198 | the little-endian 16-bit encoding of `v` reads back as `v` |
| `Bytes.BE32Encoded` | img-preview.js:131-132 | the big-endian 32-bit encoding of `v` reads back as `v` |
| `Bytes.LE32Encoded` | img-preview.js:235 | the little-endian 32-bit encoding of `v` reads back as `v` |
| `Bytes.SignedLE32Encoded` | img-preview.js:212-213 | the two's complement encoding of a signed 32-bit `v` reads back as `v` |
| `Bytes.BE16Decoded` | img-preview.js:166-167 | encoding a 16-bit big-endian read gives back the same two bytes, so the read is injective |
| `Bytes.LE16Decoded` | img-preview.js:197-198 | encoding a 16-bit little-endian read gives back the same two bytes |
| `Bytes.BE32Decoded` | img-preview.js:131-132 | encoding a 32-bit big-endian read gives back the same four bytes |
| `Bytes.LE32Decoded` | img-preview.js:235 | encoding a 32-bit little-endian read gives back the same four bytes |
| `Bytes.SignedLE32Decoded` | img-preview.js:212-213 | encoding a signed 32-bit little-endian read in two's complement gives back the same four bytes |
| `ImageTypes.ToMetadata` | img-preview.js:285 | `result \|\| {null, null, null}`: width and height are both set or both null, they are set exactly when the parse succeeded, and a failed parse gives the all-null record |
| `Parsers.ParsePng` | img-preview.js:125-137 | succeeds exactly when the buffer has at least 24 bytes and starts with 89 50 4E 47; the result is tagged png and both fields lie in [0, 2^32) |
| `Parsers.PngRoundTrip` | img-preview.js:129-133 | a PNG signature and IHDR chunk carrying `width` and `height`, followed by any bytes, parse to exactly that width and height |
| `Parsers.PngReadsOnly` | img-preview.js:126-132 | the result depends only on the length guard, signature bytes 0-3 and bytes 16-23; signature bytes 4-7 and the IHDR length and type are never checked |
| `Parsers.ParseGif` | img-preview.js:191-203 | succeeds exactly when the buffer has at least 10 bytes and starts with "GIF8"; the result is tagged gif with 16-bit fields |
| `Parsers.GifRoundTrip` | img-preview.js:195-199 | a "GIF89a" header with a logical screen of `width` by `height` parses to that width and height |
| `Parsers.GifReadsOnly` | img-preview.js:192-198 | the result depends only on the length guard, bytes 0-3 and bytes 6-9; the version bytes are not checked |
| `Parsers.ParseBmp` | img-preview.js:206-218 | succeeds exactly when the buffer has at least 26 bytes and starts with "BM"; the width is a signed 32-bit value and the height lies in [0, 2^31] |
| `Parsers.BmpRoundTrip` | img-preview.js:210-214 | a BMP header with signed `width` and `height` parses to `width` as stored and `Abs(height)`, so a top-down bitmap reports its positive height |
| `Parsers.BmpReadsOnly` | img-preview.js:207-213 | the result depends only on the length guard, bytes 0-1 and bytes 18-25 |
| `Parsers.ParseWebp` | img-preview.js:221-243 | a result requires at least 30 bytes, "RIFF" at 0, "WEBP" at 8, and "VP8 " or "VP8L" at 12; it is tagged webp with both fields in [0, 16384] |
| `Parsers.WebpAccepts` | img-preview.js:225-242 | a RIFF/WEBP buffer is recognised exactly when its chunk tag is "VP8 " or "VP8L" (so "VP8X" gives null); "VP8 " gives fields in [0, 16383], "VP8L" gives fields in [1, 16384] |
| `Parsers.Vp8RoundTrip` | img-preview.js:228-231 | a lossy header whose 16-bit fields hold a 14-bit width and height under any 2-bit scale parses to that width and height, because the mask drops the scale |
| `Parsers.Vp8lRoundTrip` | img-preview.js:234-238 | a lossless header whose packed word holds `width - 1` in the low 14 bits and `height - 1` in the next 14, under any alpha and version bits, parses to `width` and `height` |
| `Parsers.Vp8lMasks` | img-preview.js:235-237 | JavaScript's 32-bit `& 0x3FFF` and sign-propagating `>> 14` on the 32-bit word give the unsigned bv32 remainders `bits % 0x4000` and `(bits / 0x4000) % 0x4000`; the link from bv32 to the `int` remainders of `Parsers.ParseWebp` is not proved |
| `Parsers.WebpReadsOnly` | img-preview.js:222-237 | the result depends only on the length guard, bytes 0-3 and 8-15, and then bytes 26-29 of a `VP8 ` chunk or bytes 21-24 of a `VP8L` chunk; the RIFF size, the chunk size, the VP8 frame tag and start code, the VP8L signature byte 0x2F and the image data are never read, so with the round trips every WebP buffer is covered |
| `Jpeg.NextOffset` | img-preview.js:149-183 | one iteration that does not return moves `offset` by exactly 1, 2 or 2 plus the big-endian segment length, so always strictly forward (the termination argument) |
| `Jpeg.ScanGuardsHold` | img-preview.js:147-175 | inside the loop (`offset < length - 8`) the inner guards `offset + 9 <= length` (line 165) and `offset + 3 <= length` (line 175) always hold |
| `Jpeg.FrameDims` | img-preview.js:164-168 | the frame result is tagged jpeg, with the height read at marker+5 and the width at marker+7, both 16-bit |
| `Jpeg.ParseJpeg` | img-preview.js:140-188 | the source's loop returns exactly what the recursive walk `JpegSpec` returns, on every buffer, with every read in bounds |
| `Jpeg.JpegScanSound` | img-preview.js:147-184 | any result of the walk from `offset` is the frame of an SOF marker (C0-C3, C5-C7, C9-CB, CD-CF) at or after `offset` whose frame header lies inside the buffer |
| `Jpeg.JpegSound` | img-preview.js:140-188 | a JPEG result needs at least 11 bytes and the SOI marker FF D8; it is tagged jpeg and is the frame of an SOF marker at offset 2 or later |
| `Jpeg.JpegRoundTrip` | img-preview.js:145-183 | after SOI, any mix of stray non-FF bytes, FF 00 pairs, FF fill bytes before a marker, and non-SOF marker segments (C4, C8 and CC included), followed by a frame header, parses to that frame's width and height |
| `Jpeg.ScanChunks` | img-preview.js:147-183 | the walk from the first chunk of such a sequence, when the sequence is followed by at least 13 bytes that start with FF, gives the same result as the walk from the end of the sequence: it never stops inside a chunk |
| `Jpeg.ChunkStep` | img-preview.js:149-183 | a stray byte, an FF 00 pair, a fill byte followed by FF, or a marker segment is stepped over as a whole, and the walk does not stop inside it |
| `Jpeg.StepOver` | img-preview.js:147-183 | one chunk at the head of such a sequence is stepped over, and the walk continues at the start of the remaining chunks |
| `Jpeg.FrameAt` | img-preview.js:159-168 | at a frame header the walk stops and returns its width and height |
| `Metadata.ReadImageHeader` | img-preview.js:113-122 | the header is the first `min(bytes, size)` bytes of the file |
| `Metadata.ExtensionFormat` | img-preview.js:255-272 | the extension `switch` never selects svg; `.png`, `.jpg`/`.jpeg`, `.gif`, `.bmp` and `.webp` select their own parser |
| `Metadata.MetadataSpec` | img-preview.js:246-289 | the record's width and height are both set or both null, the format is set exactly when they are and is never svg, and a failed read gives the all-null record |
| `Metadata.GetImageMetadata` | img-preview.js:246-289 | the source's `switch` and chain of `if (!result)` return exactly `MetadataSpec`: the extension's parser first, then PNG, JPEG, GIF, BMP, WebP, else the all-null record |
| `Metadata.DescribeImage` | img-preview.js:339-367 | an `.svg` file gets `{null, null, 'svg'}` whatever its contents; any other file gets what `getImageMetadata` returns |
| `Metadata.SweepInOrder` | img-preview.js:279-283 | the sweep returns the first non-null result in the order PNG, JPEG, GIF, BMP, WebP |
| `Metadata.ParseAsSignature` | img-preview.js:129-226 | a parser that succeeds has seen its own signature byte at offset 0 (89, FF, 47, 42, 52) and tags its result with its own format |
| `Metadata.ParsersDisjoint` | img-preview.js:129-226 | no buffer is recognised by two different parsers |
| `Metadata.FirstMatchIsFirst` | img-preview.js:278-285 | the sweep returns `Some(d)` exactly when some parser yields `d` and every earlier parser yields null, and it returns null exactly when every parser does |
| `Metadata.ContentDecides` | img-preview.js:253-285 | when some parser recognises the header, every extension (matching, mismatched or unknown) resolves to that parser's result |
| `Metadata.ResolveIgnoresExtension` | img-preview.js:253-285 | two extensions always resolve a header to the same result |
| `Metadata.NothingMatches` | img-preview.js:278-285 | when no parser recognises the header, the result is null under every extension |
| `Metadata.ResolveNotSvg` | img-preview.js:253-285 | the resolved result is never tagged svg |
| `Metadata.JpegFileMetadata` | img-preview.js:246-285 | a file that starts with a JPEG prefix fitting in the 64 KiB window is reported with that frame's width and height and format jpeg, under any extension and whatever follows |
| `Metadata.PngFileMetadata` | img-preview.js:246-285 | a file that starts with a PNG header is reported with its IHDR width and height and format png, under any extension |

## Left out

- `readImageHeader` stream mechanics (`fs.createReadStream`, chunk events, `Buffer.concat`) are not modelled. The model keeps only the bytes the stream delivers: the prefix of the file. A stream error is the `None` file.
- `path.extname` and `toLowerCase` are not modelled. The extension is a parameter, already lower-cased.
- `handleApiImages`: the `Promise.all` fan-out over files is not modelled. Each call is independent, and the model gives the mapping for one file. The merge of `{...image}` with the other listing fields is also left out. So is the inner `try/catch` around `getImageMetadata`: that call catches every error itself, so the inner `catch` can never run.
- Determinism (the same file gives the same record twice) holds because every member is a function of its inputs. No separate lemma states it.
- `getAllImages`, `handleImage`, `handleStaticFile`, `startServer`, `openBrowser`, `sendJSON`, `sendError`, `getRandomPort` and `parseArgs` are left out. They are file-system walking, HTTP, child processes, timers, randomness and command-line handling.
- index.js (the browser gallery), server.js (whose dimensions come from the external `sharp` library) and postinstall.js (package-file rewriting) are not part of this model.
- JavaScript numbers are modelled as unbounded integers. Every value the parsers compute is below 2^32, so doubles represent it exactly.
- Parsers.Vp8lMasks: proves the masks equal the unsigned remainders on `bv32`. The step from those to the `int` remainders that `Parsers.ParseWebp` uses is not proved, because the bit-vector-to-integer conversion is beyond what the solver settles within the resource limit.
