/**
 * The values the dimension extractor produces: the per-parser result and
 * the `{width, height, format}` record handed to the image listing, in
 * which JavaScript's `null` becomes `None`.
 */
module ImageTypes {

  datatype Option<+T> = None | Some(value: T)

  /** The format tags the extractor reports ('png', 'jpeg', ..., 'svg'). */
  datatype Format = Png | Jpeg | Gif | Bmp | Webp | Svg

  /**
   * A successful parse. Width and height are plain integers: a BMP width
   * is read as a signed field and reported as stored.
   */
  datatype Dims = Dims(width: int, height: int, format: Format)

  /** The record `{ width, height, format }` with nullable fields. */
  datatype ImageMetadata = ImageMetadata(width: Option<int>, height: Option<int>, format: Option<Format>)

  /** `{ width: null, height: null, format: null }`. */
  const Unknown := ImageMetadata(None, None, None)

  /** `{ width: null, height: null, format: 'svg' }`. */
  const SvgMetadata := ImageMetadata(None, None, Some(Svg))

  /**
   * `result || { width: null, height: null, format: null }`: a parse result
   * becomes a record whose width and height are both set or both null,
   * and whose format is set whenever the dimensions are.
   */
  function ToMetadata(result: Option<Dims>): (m: ImageMetadata)
    ensures m.width.Some? <==> m.height.Some?
    ensures m.width.Some? <==> result.Some?
    ensures result.None? ==> m == Unknown
    ensures result.Some? ==>
              m == ImageMetadata(Some(result.value.width), Some(result.value.height), Some(result.value.format))
  {
    match result
    case None => Unknown
    case Some(d) => ImageMetadata(Some(d.width), Some(d.height), Some(d.format))
  }
}
