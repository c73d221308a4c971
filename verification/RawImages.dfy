// A raw frame with its pixels in one byte buffer, row by row with a stride.
module RawImages {
  import opened Bytes
  import opened PixelFormats
  import opened Division

  datatype RawImage = RawImage(format: PixelFormat, width: nat, height: nat, stride: nat, data: seq<byte>)

  // From one pixel of the luma plane or of a packed row to the next.
  function PixelBytes(f: PixelFormat): (n: nat)
    ensures 1 <= n <= 4
  {
    if Planar(f) then 1 else BytesPerPixel(f)
  }

  // How many of these bytes are read: not the alpha byte of a colour pixel.
  function ReadBytes(f: PixelFormat): (n: nat)
    ensures 1 <= n <= PixelBytes(f)
  {
    if Planar(f) || f.GRAY8? then 1 else if Grayscale(f) then 2 else 3
  }

  predicate Inside(img: RawImage, x: nat, y: nat) {
    x < img.width && y < img.height
  }

  function PixelOffset(img: RawImage, x: nat, y: nat): nat {
    y * img.stride + x * PixelBytes(img.format)
  }

  // Reading the pixel stays within the buffer.
  predicate Readable(img: RawImage, x: nat, y: nat) {
    PixelOffset(img, x, y) + ReadBytes(img.format) <= |img.data|
  }

  ghost predicate AllReadable(img: RawImage) {
    forall x: nat, y: nat :: Inside(img, x, y) ==> Readable(img, x, y)
  }

  lemma EarlierIsReadable(img: RawImage, x: nat, y: nat, x': nat, y': nat)
    requires Readable(img, x', y') && x <= x' && y <= y'
    ensures Readable(img, x, y)
  {
    ProductGrows(y, y', img.stride);
    ProductGrows(x, x', PixelBytes(img.format));
  }

  // All pixels can be read exactly when the last one can.
  lemma LastPixelDecides(img: RawImage)
    requires img.width > 0 && img.height > 0
    ensures AllReadable(img) <==> Readable(img, img.width - 1, img.height - 1)
  {
    hide Readable;
    if Readable(img, img.width - 1, img.height - 1) {
      forall x: nat, y: nat | Inside(img, x, y)
        ensures Readable(img, x, y)
      {
        EarlierIsReadable(img, x, y, img.width - 1, img.height - 1);
      }
    }
    assert Inside(img, img.width - 1, img.height - 1);
  }

  // The bytes read for one pixel; only meaningful where they lie in the buffer.
  function PixelAt(img: RawImage, x: nat, y: nat): (p: seq<byte>)
    ensures |p| == ReadBytes(img.format)
  {
    if Readable(img, x, y) then img.data[PixelOffset(img, x, y)..PixelOffset(img, x, y) + ReadBytes(img.format)]
    else seq(ReadBytes(img.format), _ => 0)
  }

  // What an operation on a frame ends in: refused by its checks, a read past the end of the
  // buffer (undefined in C++), or a value.
  datatype Reading<+T> = Refused | OutOfBounds | Done(value: T)

  // ---------------------------------------------------------------------------
  // Stored frames
  // ---------------------------------------------------------------------------

  function ImageOf(f: Frame, data: seq<byte>): RawImage {
    RawImage(f.format, f.width, f.height, f.stride, data)
  }

  // The stored copy of a frame that passed validation covers all of its pixels exactly when its
  // row size did not wrap: validation compares the stride with the wrapped product.
  lemma StoredFrameIsReadable(f: Frame, s: StreamFormat, data: seq<byte>)
    requires ValidInput(f, s) && Fits(f) && |data| == StorageSize(f)
    ensures AllReadable(ImageOf(f, data)) <==> f.width * BytesPerPixel(f.format) < U32
  {
    hide AllReadable, MinRowBytes, ReadBytes, PixelBytes;
    LastPixelDecides(ImageOf(f, data));
    LastRowDecides(f.height, f.stride, (f.width - 1) * PixelBytes(f.format) + ReadBytes(f.format));
    LastPixelOfRow(f, s);
  }

  lemma LastRowDecides(height: nat, stride: nat, needed: nat)
    requires height > 0
    ensures (height - 1) * stride + needed <= stride * height <==> needed <= stride
  {
    assert stride * height == (height - 1) * stride + stride;
  }

  // The bytes of a row up to its last read fit the stride exactly when the row size did not wrap: a
  // wrapped row is longer than any 32-bit stride, even without its last alpha byte.
  lemma LastPixelOfRow(f: Frame, s: StreamFormat)
    requires ValidInput(f, s) && Fits(f)
    ensures (f.width - 1) * PixelBytes(f.format) + ReadBytes(f.format) <= f.stride <==> f.width * BytesPerPixel(f.format) < U32
  {
    assert f.width * PixelBytes(f.format) == (f.width - 1) * PixelBytes(f.format) + PixelBytes(f.format);
    if f.format.RGBA32? || f.format.BGRA32? {
      assert f.width * 4 != U32;
    }
  }

  // A frame of 2^30 + 1 pixels in one row with a stride of four bytes passes validation.
  lemma WrappedRowPassesValidation()
    ensures var f := Frame(true, 0x4000_0001, 1, 4, RGBA32, 0, 0);
            && ValidInput(f, StreamFormat(0x4000_0001, 1, RGBA32)) && Fits(f) && StorageSize(f) == 4
            && forall data: seq<byte> :: |data| == StorageSize(f) ==> !AllReadable(ImageOf(f, data))
  {
    var f := Frame(true, 0x4000_0001, 1, 4, RGBA32, 0, 0);
    forall data: seq<byte> | |data| == StorageSize(f)
      ensures !AllReadable(ImageOf(f, data))
    {
      StoredFrameIsReadable(f, StreamFormat(0x4000_0001, 1, RGBA32), data);
    }
  }

  // The sample of a grayscale pixel, low byte first.
  function GraySample(f: PixelFormat, p: seq<byte>): (s: nat)
    requires Grayscale(f) && |p| == ReadBytes(f)
    ensures s < 65536
  {
    if f.GRAY8? then p[0] else p[0] as int + 256 * p[1] as int
  }

  datatype Rgb = Rgb(r: byte, g: byte, b: byte)

  // The colour of a packed colour pixel.
  function PixelColour(f: PixelFormat, p: seq<byte>): Rgb
    requires !Planar(f) && !Grayscale(f) && |p| == ReadBytes(f)
  {
    if f.RGB24? || f.RGBA32? then Rgb(p[0], p[1], p[2]) else Rgb(p[2], p[1], p[0])
  }

  // The bytes of a pixel: rows lie a stride apart, pixels of 1, 2, 3 or 4 bytes next to each other.
  lemma PixelLayout(img: RawImage, x: nat, y: nat, k: nat)
    requires Readable(img, x, y) && k < ReadBytes(img.format)
    ensures var size := match img.format
                        case GRAY8 => 1 case NV12 => 1 case I420 => 1
                        case GRAY10LE => 2 case GRAY12LE => 2 case GRAY16LE => 2
                        case RGB24 => 3 case BGR24 => 3
                        case RGBA32 => 4 case BGRA32 => 4;
            y * img.stride + x * size + k < |img.data| && PixelAt(img, x, y)[k] == img.data[y * img.stride + x * size + k]
  {
  }

  // The order of colours in a pixel, and the value of a grey sample, low byte first.
  lemma SampleLayout(a: byte, b: byte, c: byte)
    ensures PixelColour(RGB24, [a, b, c]) == PixelColour(RGBA32, [a, b, c]) == Rgb(a, b, c)
    ensures PixelColour(BGR24, [c, b, a]) == PixelColour(BGRA32, [c, b, a]) == Rgb(a, b, c)
    ensures GraySample(GRAY8, [a]) == a
    ensures GraySample(GRAY10LE, [a, b]) == GraySample(GRAY12LE, [a, b]) == GraySample(GRAY16LE, [a, b]) == a as int + b as int * 256
  {
  }
}
