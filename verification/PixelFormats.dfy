// Pixel formats and what a raw frame of each format must satisfy to be accepted, measured
// and transformed. Row sizes are 32-bit products that wrap.
module PixelFormats {
  import opened Bytes
  import opened Division

  datatype PixelFormat = RGB24 | BGR24 | RGBA32 | BGRA32 | GRAY8 | GRAY10LE | GRAY12LE | GRAY16LE | NV12 | I420

  predicate Planar(f: PixelFormat) {
    f.NV12? || f.I420?
  }

  predicate Grayscale(f: PixelFormat) {
    f.GRAY8? || f.GRAY10LE? || f.GRAY12LE? || f.GRAY16LE?
  }

  predicate SupportsTransform(f: PixelFormat) {
    !Planar(f)
  }

  // Bytes per pixel of a packed format; 0 for planar ones.
  function BytesPerPixel(f: PixelFormat): nat {
    match f
    case RGB24 => 3
    case BGR24 => 3
    case RGBA32 => 4
    case BGRA32 => 4
    case GRAY8 => 1
    case GRAY10LE => 2
    case GRAY12LE => 2
    case GRAY16LE => 2
    case NV12 => 0
    case I420 => 0
  }

  function MinRowBytes(f: PixelFormat, width: nat): nat {
    if Planar(f) then 0 else width * BytesPerPixel(f) % U32
  }

  // The largest sample of a grayscale format; 0 for colour formats.
  function SampleMax(f: PixelFormat): nat {
    match f
    case GRAY8 => 255
    case GRAY10LE => 1023
    case GRAY12LE => 4095
    case GRAY16LE => 65535
    case _ => 0
  }

  // Grey formats of 8, 10, 12 and 16 bits, colour formats of 3 and 4 bytes, and two planar ones.
  lemma FormatTable()
    ensures SampleMax(GRAY8) == 255 && SampleMax(GRAY10LE) == 1023 && SampleMax(GRAY12LE) == 4095 && SampleMax(GRAY16LE) == 65535
    ensures forall f :: Planar(f) <==> f == NV12 || f == I420
    ensures forall f :: Grayscale(f) <==> f == GRAY8 || f == GRAY10LE || f == GRAY12LE || f == GRAY16LE
    ensures forall f :: SupportsTransform(f) <==> f != NV12 && f != I420
    ensures forall w: nat :: MinRowBytes(GRAY8, w) == w % U32 && MinRowBytes(GRAY10LE, w) == 2 * w % U32
                             && MinRowBytes(GRAY12LE, w) == 2 * w % U32 && MinRowBytes(GRAY16LE, w) == 2 * w % U32
    ensures forall w: nat :: MinRowBytes(RGB24, w) == 3 * w % U32 && MinRowBytes(BGR24, w) == 3 * w % U32
                             && MinRowBytes(RGBA32, w) == 4 * w % U32 && MinRowBytes(BGRA32, w) == 4 * w % U32
  {
  }

  // A raw frame without its pixels. Widths, heights and strides are 32-bit, timestamps 64-bit.
  datatype Frame = Frame(hasData: bool, width: nat, height: nat, stride: nat, format: PixelFormat,
                         timestampNs: nat, frameId: nat)

  predicate Fits(f: Frame) {
    f.width < U32 && f.height < U32 && f.stride < U32 && f.timestampNs < U64
  }

  datatype StreamFormat = StreamFormat(width: nat, height: nat, format: PixelFormat)

  // The input contract of a registered stream.
  predicate ValidInput(f: Frame, s: StreamFormat) {
    && f.hasData && f.width != 0 && f.height != 0
    && f.width == s.width && f.height == s.height && f.format == s.format
    && SupportsTransform(f.format)
    && MinRowBytes(f.format, f.width) != 0 && f.stride >= MinRowBytes(f.format, f.width)
  }

  // Bytes that a stored copy of the frame takes.
  function StorageSize(f: Frame): nat {
    if !Planar(f.format) then
      if f.stride < MinRowBytes(f.format, f.width) then 0 else f.stride * f.height
    else f.width * f.height * 3 / 2
  }

  // When the luminance statistics can be computed.
  predicate Measurable(f: Frame) {
    var minimum := if Planar(f.format) then f.width else MinRowBytes(f.format, f.width);
    f.hasData && f.width != 0 && f.height != 0 && minimum != 0 && f.stride >= minimum
  }

  predicate ValidRotation(degrees: int) {
    degrees == 0 || degrees == 90 || degrees == 180 || degrees == 270
  }

  lemma FourRotations(degrees: int)
    ensures ValidRotation(degrees) <==> degrees in {0, 90, 180, 270}
  {
  }

  // When the display transform produces an image.
  predicate Transformable(f: Frame, rotation: int) {
    && f.hasData && f.width != 0 && f.height != 0 && SupportsTransform(f.format)
    && MinRowBytes(f.format, f.width) != 0 && f.stride >= MinRowBytes(f.format, f.width)
    && ValidRotation(rotation)
    && (Grayscale(f.format) ==> SampleMax(f.format) != 0)
  }

  // A frame that passes validation passes the checks of storage, statistics and transform.
  lemma ValidInputSuffices(f: Frame, s: StreamFormat, rotation: int)
    requires ValidInput(f, s) && Fits(f)
    ensures 0 < StorageSize(f) < U64
    ensures Measurable(f)
    ensures Transformable(f, rotation) <==> ValidRotation(rotation)
  {
    hide MinRowBytes, SampleMax;
    ProductFits(f.stride, f.height);
    GrayscaleHasMax(f.format);
  }

  lemma GrayscaleHasMax(f: PixelFormat)
    ensures Grayscale(f) <==> SampleMax(f) != 0
  {
  }
}
