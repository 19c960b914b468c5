/**
 * `getImageMetadata` and the per-file mapping of `handleApiImages` in
 * img-preview.js: read the first 64 KiB of the file, try the parser the
 * extension names, then sweep every parser in a fixed order, and turn
 * whatever comes out (or a read failure) into a `{width, height, format}`
 * record. SVG files never reach the byte parsers.
 *
 * The file system is a parameter: a file is `Some(contents)` when it can
 * be read and `None` when reading fails (missing, unreadable, a directory).
 */
module Metadata {
  import opened Bytes
  import opened ImageTypes
  import opened Parsers
  import opened Jpeg

  /** The size of the window read from the start of each file (64 KiB). */
  const HeaderBytes := 65536

  /**
   * `readImageHeader(filePath, bytes)`: a stream over byte positions
   * `0 .. bytes - 1`, so at most `bytes` bytes, fewer when the file is shorter.
   */
  function ReadImageHeader(contents: seq<Byte>, bytes: nat): (h: seq<Byte>)
    ensures |h| == if |contents| < bytes then |contents| else bytes
    ensures h == contents[..|h|]
  {
    if |contents| <= bytes then contents else contents[..bytes]
  }

  /** The `switch (ext)` of `getImageMetadata`: which parser an extension names first. */
  function ExtensionFormat(ext: string): (f: Option<Format>)
    ensures f != Some(Svg)
  {
    if ext == ".png" then Some(Png)
    else if ext == ".jpg" || ext == ".jpeg" then Some(Jpeg)
    else if ext == ".gif" then Some(Gif)
    else if ext == ".bmp" then Some(Bmp)
    else if ext == ".webp" then Some(Webp)
    else None
  }

  /** The byte parser for a format; SVG has none. */
  function ParseAs(f: Format, header: seq<Byte>): Option<Dims>
  {
    match f
    case Png => ParsePng(header)
    case Jpeg => JpegSpec(header)
    case Gif => ParseGif(header)
    case Bmp => ParseBmp(header)
    case Webp => ParseWebp(header)
    case Svg => None
  }

  /** The fallback sweep order. */
  const SweepOrder: seq<Format> := [Png, Jpeg, Gif, Bmp, Webp]

  /** The first parser in `fs` that recognises `header`. */
  function FirstMatch(fs: seq<Format>, header: seq<Byte>): Option<Dims>
  {
    if fs == [] then None
    else if ParseAs(fs[0], header).Some? then ParseAs(fs[0], header)
    else FirstMatch(fs[1..], header)
  }

  /** The extension's parser first; if it gives nothing, the sweep. */
  function Resolve(ext: string, header: seq<Byte>): Option<Dims>
  {
    var first := if ExtensionFormat(ext).Some? then ParseAs(ExtensionFormat(ext).value, header) else None;
    if first.Some? then first else FirstMatch(SweepOrder, header)
  }

  /**
   * What `getImageMetadata` returns for a file: a record whose width and
   * height are both set or both null, whose format is set exactly when they
   * are (and is never 'svg'), and which is all-null when the read fails.
   */
  function MetadataSpec(ext: string, file: Option<seq<Byte>>): (m: ImageMetadata)
    ensures m.width.Some? <==> m.height.Some?
    ensures m.width.Some? <==> m.format.Some?
    ensures m.format != Some(Svg)
    ensures file.None? ==> m == Unknown
  {
    match file
    case None => Unknown
    case Some(contents) =>
      var r := ToMetadata(Resolve(ext, ReadImageHeader(contents, HeaderBytes)));
      ResolveNotSvg(ext, ReadImageHeader(contents, HeaderBytes));
      r
  }

  /** `getImageMetadata(filePath)`, with the extension already lower-cased. */
  method GetImageMetadata(ext: string, file: Option<seq<Byte>>) returns (m: ImageMetadata)
    ensures m == MetadataSpec(ext, file)
  {
    if file.None? {
      // the `catch` branch: the read failed
      return Unknown;
    }
    var header := ReadImageHeader(file.value, HeaderBytes);
    var result: Option<Dims> := None;
    if ext == ".png" {
      result := ParsePng(header);
    } else if ext == ".jpg" || ext == ".jpeg" {
      result := ParseJpeg(header);
    } else if ext == ".gif" {
      result := ParseGif(header);
    } else if ext == ".bmp" {
      result := ParseBmp(header);
    } else if ext == ".webp" {
      result := ParseWebp(header);
    }
    if result.Some? {
      return ToMetadata(result);
    }
    SweepInOrder(header);
    if result.None? { result := ParsePng(header); }
    if result.None? { result := ParseJpeg(header); }
    if result.None? { result := ParseGif(header); }
    if result.None? { result := ParseBmp(header); }
    if result.None? { result := ParseWebp(header); }
    return ToMetadata(result);
  }

  /**
   * The per-image mapping inside `handleApiImages`: an '.svg' file gets the
   * 'svg' record without its bytes being looked at; any other file gets
   * what `getImageMetadata` returns.
   */
  method DescribeImage(ext: string, file: Option<seq<Byte>>) returns (m: ImageMetadata)
    ensures ext == ".svg" ==> m == SvgMetadata
    ensures ext != ".svg" ==> m == MetadataSpec(ext, file)
  {
    if ext != ".svg" {
      m := GetImageMetadata(ext, file);
    } else {
      m := SvgMetadata;
    }
  }

  /** The sweep spelled out as the chain of `if (!result)` assignments. */
  lemma SweepInOrder(header: seq<Byte>)
    ensures FirstMatch(SweepOrder, header)
         == if ParsePng(header).Some? then ParsePng(header)
            else if JpegSpec(header).Some? then JpegSpec(header)
            else if ParseGif(header).Some? then ParseGif(header)
            else if ParseBmp(header).Some? then ParseBmp(header)
            else ParseWebp(header)
  {
    var s4, s3, s2, s1 := [Jpeg, Gif, Bmp, Webp], [Gif, Bmp, Webp], [Bmp, Webp], [Webp];
    assert SweepOrder[1..] == s4 && s4[1..] == s3 && s3[1..] == s2 && s2[1..] == s1 && s1[1..] == [];
    assert FirstMatch(s1, header) == ParseWebp(header);
    assert FirstMatch(s2, header) == if ParseBmp(header).Some? then ParseBmp(header) else FirstMatch(s1, header);
    assert FirstMatch(s3, header) == if ParseGif(header).Some? then ParseGif(header) else FirstMatch(s2, header);
    assert FirstMatch(s4, header) == if JpegSpec(header).Some? then JpegSpec(header) else FirstMatch(s3, header);
  }

  // =====================================================================
  // Properties of the resolution policy.

  /** The first byte of each format's signature. */
  function SignatureByte(f: Format): Byte
  {
    match f
    case Png => 0x89
    case Jpeg => 0xFF
    case Gif => 0x47
    case Bmp => 0x42
    case Webp => 0x52
    case Svg => 0x3C  // '<'; no parser reads svg, so nothing depends on this value
  }

  /** Every parser that succeeds has seen its own signature byte first. */
  lemma ParseAsSignature(f: Format, header: seq<Byte>)
    ensures ParseAs(f, header).Some? ==> |header| > 0 && header[0] == SignatureByte(f)
    ensures ParseAs(f, header).Some? ==> ParseAs(f, header).value.format == f
  {
    match f
    case Png =>
      if ParsePng(header).Some? { MatchesAtIndex(header, 0, PngMagic); }
    case Jpeg =>
      JpegSound(header);
      if JpegSpec(header).Some? { MatchesAtIndex(header, 0, SoiMarker); }
    case Gif =>
      if ParseGif(header).Some? { MatchesAtIndex(header, 0, GifMagic); }
    case Bmp =>
      if ParseBmp(header).Some? { MatchesAtIndex(header, 0, BmpMagic); }
    case Webp =>
      if ParseWebp(header).Some? { MatchesAtIndex(header, 0, RiffMagic); }
    case Svg =>
  }

  /** The signatures start with different bytes, so at most one parser recognises a buffer. */
  lemma ParsersDisjoint(f: Format, g: Format, header: seq<Byte>)
    requires f != g
    ensures ParseAs(f, header).None? || ParseAs(g, header).None?
  {
    ParseAsSignature(f, header);
    ParseAsSignature(g, header);
  }

  /**
   * `FirstMatch` against its reference reading: it returns `Some(d)` exactly
   * when some format in the list yields `d` and every earlier one yields
   * nothing, and `None` exactly when none yields anything.
   */
  lemma {:induction false} FirstMatchIsFirst(fs: seq<Format>, header: seq<Byte>, d: Dims)
    ensures FirstMatch(fs, header) == Some(d) <==>
              exists i :: 0 <= i < |fs| && ParseAs(fs[i], header) == Some(d)
                          && forall j :: 0 <= j < i ==> ParseAs(fs[j], header).None?
    ensures FirstMatch(fs, header).None? <==> forall i :: 0 <= i < |fs| ==> ParseAs(fs[i], header).None?
    decreases |fs|
  {
    if fs != [] {
      FirstMatchIsFirst(fs[1..], header, d);
      if FirstMatch(fs, header) == Some(d) {
        if ParseAs(fs[0], header).None? {
          var i :| 0 <= i < |fs[1..]| && ParseAs(fs[1..][i], header) == Some(d)
                   && forall j :: 0 <= j < i ==> ParseAs(fs[1..][j], header).None?;
          assert ParseAs(fs[i + 1], header) == Some(d);
          assert forall j :: 0 <= j < i + 1 ==> ParseAs(fs[j], header).None? by {
            forall j | 0 <= j < i + 1 ensures ParseAs(fs[j], header).None? {
              if j > 0 { assert fs[j] == fs[1..][j - 1]; }
            }
          }
        }
      }
      if exists i :: 0 <= i < |fs| && ParseAs(fs[i], header) == Some(d)
                     && forall j :: 0 <= j < i ==> ParseAs(fs[j], header).None? {
        var i :| 0 <= i < |fs| && ParseAs(fs[i], header) == Some(d)
                 && forall j :: 0 <= j < i ==> ParseAs(fs[j], header).None?;
        if i > 0 {
          assert ParseAs(fs[1..][i - 1], header) == Some(d);
          assert forall j :: 0 <= j < i - 1 ==> ParseAs(fs[1..][j], header).None? by {
            forall j | 0 <= j < i - 1 ensures ParseAs(fs[1..][j], header).None? {
              assert fs[1..][j] == fs[j + 1];
            }
          }
        }
      }
      if forall i :: 0 <= i < |fs| ==> ParseAs(fs[i], header).None? {
        assert forall i :: 0 <= i < |fs[1..]| ==> ParseAs(fs[1..][i], header).None? by {
          forall i | 0 <= i < |fs[1..]| ensures ParseAs(fs[1..][i], header).None? {
            assert fs[1..][i] == fs[i + 1];
          }
        }
      }
      if FirstMatch(fs, header).None? {
        forall i | 0 <= i < |fs| ensures ParseAs(fs[i], header).None? {
          if i > 0 { assert fs[i] == fs[1..][i - 1]; }
        }
      }
    }
  }

  /**
   * Content decides: when a parser recognises the header, every extension
   * (matching, mismatched or unknown) resolves to that parser's result.
   */
  lemma ContentDecides(ext: string, f: Format, header: seq<Byte>)
    requires f != Svg && ParseAs(f, header).Some?
    ensures Resolve(ext, header) == ParseAs(f, header)
  {
    assert f in SweepOrder;
    forall g | g != f ensures ParseAs(g, header).None? {
      ParsersDisjoint(f, g, header);
    }
    var i :| 0 <= i < |SweepOrder| && SweepOrder[i] == f;
    FirstMatchIsFirst(SweepOrder, header, ParseAs(f, header).value);
    assert forall j :: 0 <= j < i ==> SweepOrder[j] != f;
  }

  /** Hence the extension never changes the outcome. */
  lemma ResolveIgnoresExtension(ext1: string, ext2: string, header: seq<Byte>)
    ensures Resolve(ext1, header) == Resolve(ext2, header)
  {
    if f :| f in SweepOrder && ParseAs(f, header).Some? {
      ContentDecides(ext1, f, header);
      ContentDecides(ext2, f, header);
    } else {
      FirstMatchIsFirst(SweepOrder, header, Dims(0, 0, Png));
      NothingMatches(ext1, header);
      NothingMatches(ext2, header);
    }
  }

  /** When no parser recognises the header the result is null, whatever the extension. */
  lemma NothingMatches(ext: string, header: seq<Byte>)
    requires forall f :: f in SweepOrder ==> ParseAs(f, header).None?
    ensures Resolve(ext, header).None?
  {
    FirstMatchIsFirst(SweepOrder, header, Dims(0, 0, Png));
  }

  /** No extension and no header resolves to an 'svg' result. */
  lemma ResolveNotSvg(ext: string, header: seq<Byte>)
    ensures Resolve(ext, header).Some? ==> Resolve(ext, header).value.format != Svg
  {
    var r := Resolve(ext, header);
    if r.Some? {
      FirstMatchIsFirst(SweepOrder, header, r.value);
      if ExtensionFormat(ext).Some? && ParseAs(ExtensionFormat(ext).value, header).Some? {
        ParseAsSignature(ExtensionFormat(ext).value, header);
      } else {
        var i :| 0 <= i < |SweepOrder| && ParseAs(SweepOrder[i], header) == Some(r.value);
        ParseAsSignature(SweepOrder[i], header);
      }
    }
  }

  // =====================================================================
  // End to end: a file whose header fits in the 64 KiB window.

  /**
   * A file whose leading bytes are a JPEG prefix that fits in the window
   * is reported with that frame's width and height, under any extension.
   */
  lemma JpegFileMetadata(ext: string, cs: seq<Chunk>, marker: Byte, width: nat, height: nat, rest: seq<Byte>)
    requires ValidChunks(cs)
    requires IsSofMarker(marker) && width < Two16 && height < Two16
    requires |JpegFile(cs, marker, width, height)| <= HeaderBytes
    ensures MetadataSpec(ext, Some(JpegFile(cs, marker, width, height) + rest))
         == ImageMetadata(Some(width), Some(height), Some(Jpeg))
  {
    var prefix := JpegFile(cs, marker, width, height);
    var header := ReadImageHeader(prefix + rest, HeaderBytes);
    var kept := rest[..|header| - |prefix|];
    assert header == prefix + kept;
    JpegRoundTrip(cs, marker, width, height, kept);
    ContentDecides(ext, Jpeg, header);
  }

  /** A PNG file is reported with its IHDR width and height, under any extension. */
  lemma PngFileMetadata(ext: string, width: nat, height: nat, rest: seq<Byte>)
    requires width < Two32 && height < Two32
    ensures MetadataSpec(ext, Some(PngHeader(width, height) + rest))
         == ImageMetadata(Some(width), Some(height), Some(Png))
  {
    var prefix := PngHeader(width, height);
    var header := ReadImageHeader(prefix + rest, HeaderBytes);
    var kept := rest[..|header| - |prefix|];
    assert header == prefix + kept;
    PngRoundTrip(width, height, kept);
    ContentDecides(ext, Png, header);
  }
}
