// The display transform: rotation, mirroring, palettes and nearest-neighbour scaling, and
// the closed form of every output pixel. Floating-point values are exact reals, and the
// colours of the three false-colour palettes are a parameter.
module DisplayTransform {
  import opened Bytes
  import opened Division
  import opened PixelFormats
  import opened RawImages

  datatype Mode = Passthrough | Grey | WhiteHot | BlackHot | Ironbow | Rainbow | Arctic

  datatype Config = Config(mode: Mode, mirrored: bool, rotation: int, paletteMin: real, paletteMax: real, width: nat, height: nat)

  type Palette = (Mode, real) -> Rgb

  // ---------------------------------------------------------------------------
  // The colour of one source pixel
  // ---------------------------------------------------------------------------

  function Clamp01(v: real): (r: real)
    ensures 0.0 <= r <= 1.0
    ensures 0.0 <= v <= 1.0 ==> r == v
  {
    if v < 0.0 then 0.0 else if v > 1.0 then 1.0 else v
  }

  function NormalizedToU8(v: real): byte {
    (Clamp01(v) * 255.0 + 0.5).Floor
  }

  function LuminanceFromRgb(c: Rgb): byte {
    (0.2126 * c.r as real + 0.7152 * c.g as real + 0.0722 * c.b as real).Floor
  }

  function Grey3(v: byte): Rgb {
    Rgb(v, v, v)
  }

  function PaletteRange(c: Config): (r: real)
    ensures r > 0.0
  {
    if c.paletteMax - c.paletteMin > 0.0001 then c.paletteMax - c.paletteMin else 0.0001
  }

  function Shaded(c: Config, base: Rgb, intensity: real, display: byte, palette: Palette): Rgb {
    var n := PalettePosition(c, intensity);
    match c.mode
    case Passthrough => base
    case Grey => Grey3(display)
    case WhiteHot => Grey3(NormalizedToU8(n))
    case BlackHot => Grey3(NormalizedToU8(1.0 - n))
    case Ironbow => palette(Ironbow, n)
    case Rainbow => palette(Rainbow, n)
    case Arctic => palette(Arctic, n)
  }

  function Intensity(f: PixelFormat, p: seq<byte>): real
    requires Grayscale(f) && |p| == ReadBytes(f)
  {
    Clamp01(GraySample(f, p) as real / SampleMax(f) as real)
  }

  function Colour(c: Config, f: PixelFormat, p: seq<byte>, palette: Palette): Rgb
    requires !Planar(f) && |p| == ReadBytes(f)
  {
    if Grayscale(f) then
      var display := NormalizedToU8(Intensity(f, p));
      Shaded(c, Grey3(display), Intensity(f, p), display, palette)
    else
      var base := PixelColour(f, p);
      var display := LuminanceFromRgb(base);
      Shaded(c, base, display as real / 255.0, display, palette)
  }

  // Rounding to a byte is to the nearest level of 0 to 255.
  lemma LevelIsNearest(v: real)
    ensures 0.0 <= v <= 1.0 ==> -0.5 <= NormalizedToU8(v) as real - 255.0 * v <= 0.5
    ensures v <= 0.0 ==> NormalizedToU8(v) == 0
    ensures v >= 1.0 ==> NormalizedToU8(v) == 255
  {
    var x := Clamp01(v) * 255.0 + 0.5;
    assert x.Floor as real <= x < x.Floor as real + 1.0;
  }

  // The display luminance is the Rec. 709 mean of red, green and blue, rounded down.
  lemma LuminanceIsMean(c: Rgb)
    ensures var mean := (2126.0 * c.r as real + 7152.0 * c.g as real + 722.0 * c.b as real) / 10000.0;
            LuminanceFromRgb(c) as real <= mean < LuminanceFromRgb(c) as real + 1.0
    ensures c.r == c.g == c.b ==> LuminanceFromRgb(c) == c.r
  {
  }

  // Where an intensity lies in the palette range: 0 up to its lower end, 1 from its upper end on, and
  // linear in between.
  function PalettePosition(c: Config, intensity: real): real {
    Clamp01((intensity - c.paletteMin) / PaletteRange(c))
  }

  lemma PalettePositions(c: Config, intensity: real)
    requires c.paletteMax - c.paletteMin > 0.0001
    ensures intensity <= c.paletteMin ==> PalettePosition(c, intensity) == 0.0
    ensures intensity >= c.paletteMax ==> PalettePosition(c, intensity) == 1.0
    ensures c.paletteMin <= intensity <= c.paletteMax ==>
              PalettePosition(c, intensity) * (c.paletteMax - c.paletteMin) == intensity - c.paletteMin
  {
    Ratio(intensity - c.paletteMin, c.paletteMax - c.paletteMin);
  }

  lemma Ratio(x: real, d: real)
    requires d > 0.0
    ensures x / d * d == x
    ensures x <= 0.0 <==> x / d <= 0.0
    ensures x >= d <==> x / d >= 1.0
  {
    var q := x / d;
    assert q * d == x;
    assert q >= 1.0 ==> (q - 1.0) * d >= 0.0;
    assert q < 1.0 ==> (1.0 - q) * d > 0.0;
    assert q > 0.0 ==> q * d > 0.0;
  }

  // The display modes: the colour itself, its grey level, white or black for hot, and three palettes.
  lemma ModesShow(c: Config, base: Rgb, intensity: real, display: byte, palette: Palette)
    ensures var shown, n := Shaded(c, base, intensity, display, palette), PalettePosition(c, intensity);
            && (c.mode.Passthrough? ==> shown == base)
            && (c.mode.Grey? ==> shown == Rgb(display, display, display))
            && (c.mode.WhiteHot? ==> shown.r == shown.g == shown.b && -0.5 <= shown.r as real - 255.0 * n <= 0.5)
            && (c.mode.BlackHot? ==> shown.r == shown.g == shown.b && -0.5 <= shown.r as real - 255.0 * (1.0 - n) <= 0.5)
            && (c.mode.Ironbow? || c.mode.Rainbow? || c.mode.Arctic? ==> shown == palette(c.mode, n))
  {
    hide NormalizedToU8;
    LevelIsNearest(PalettePosition(c, intensity));
    LevelIsNearest(1.0 - PalettePosition(c, intensity));
  }

  // What a pixel is shaded from: a grey sample relative to the largest one of its format, and a colour
  // together with its luminance.
  lemma PixelIsShaded(c: Config, f: PixelFormat, p: seq<byte>, palette: Palette)
    requires !Planar(f) && |p| == ReadBytes(f)
    ensures Grayscale(f) && GraySample(f, p) <= SampleMax(f) ==>
              var level := GraySample(f, p) as real / SampleMax(f) as real;
              Colour(c, f, p, palette) == Shaded(c, Grey3(NormalizedToU8(level)), level, NormalizedToU8(level), palette)
    ensures Grayscale(f) && GraySample(f, p) > SampleMax(f) ==>
              Colour(c, f, p, palette) == Shaded(c, Rgb(255, 255, 255), 1.0, 255, palette)
    ensures !Grayscale(f) ==>
              var base := PixelColour(f, p);
              Colour(c, f, p, palette) == Shaded(c, base, LuminanceFromRgb(base) as real / 255.0, LuminanceFromRgb(base), palette)
  {
    hide Shaded;
    if Grayscale(f) {
      GrayscaleHasMax(f);
      LevelIsNearest(1.0);
      SampleLevel(GraySample(f, p), SampleMax(f));
    }
  }

  lemma SampleLevel(sample: nat, maximum: nat)
    requires maximum > 0
    ensures var level := sample as real / maximum as real;
            (sample <= maximum ==> 0.0 <= level <= 1.0) && (sample > maximum ==> level > 1.0)
  {
    Ratio(sample as real, maximum as real);
  }

  // For 8-bit grey without a palette the colour is the sample itself.
  lemma GreyIsExact(c: Config, p: seq<byte>, palette: Palette)
    requires |p| == 1 && (c.mode.Passthrough? || c.mode.Grey?)
    ensures Colour(c, GRAY8, p, palette) == Grey3(p[0])
  {
    var v := p[0] as real / 255.0;
    assert v * 255.0 == p[0] as real;
    assert (p[0] as real + 0.5).Floor == p[0];
  }

  // ---------------------------------------------------------------------------
  // Rotation and mirror
  // ---------------------------------------------------------------------------

  predicate Swaps(rotation: int) {
    rotation == 90 || rotation == 270
  }

  function RotatedWidth(w: nat, h: nat, rotation: int): nat {
    if Swaps(rotation) then h else w
  }

  function RotatedHeight(w: nat, h: nat, rotation: int): nat {
    if Swaps(rotation) then w else h
  }

  // The source position that the output position (x, y) of a rotated w-by-h image shows.
  function MapOutputToSource(x: nat, y: nat, w: nat, h: nat, rotation: int): (p: (nat, nat))
    requires x < RotatedWidth(w, h, rotation) && y < RotatedHeight(w, h, rotation)
    ensures p.0 < w && p.1 < h
  {
    if rotation == 90 then (y, h - 1 - x)
    else if rotation == 180 then (w - 1 - x, h - 1 - y)
    else if rotation == 270 then (w - 1 - y, x)
    else (x, y)
  }

  // Where a rotation clockwise by 0, 90, 180 or 270 degrees puts the position (sx, sy) of a w-by-h image.
  predicate LandsAt(sx: nat, sy: nat, w: nat, h: nat, rotation: int, x: int, y: int) {
    && (rotation == 0 ==> x == sx && y == sy)
    && (rotation == 90 ==> x == h - 1 - sy && y == sx)
    && (rotation == 180 ==> x == w - 1 - sx && y == h - 1 - sy)
    && (rotation == 270 ==> x == sy && y == w - 1 - sx)
  }

  // An output position shows the source position that lands there, and no other.
  lemma SourceLands(sx: nat, sy: nat, w: nat, h: nat, rotation: int, x: nat, y: nat)
    requires ValidRotation(rotation) && sx < w && sy < h
    ensures LandsAt(sx, sy, w, h, rotation, x, y) ==> x < RotatedWidth(w, h, rotation) && y < RotatedHeight(w, h, rotation)
    ensures x < RotatedWidth(w, h, rotation) && y < RotatedHeight(w, h, rotation) ==>
              (MapOutputToSource(x, y, w, h, rotation) == (sx, sy) <==> LandsAt(sx, sy, w, h, rotation, x, y))
  {
  }

  function Inverse(rotation: int): int {
    if rotation == 90 then 270 else if rotation == 270 then 90 else rotation
  }

  // Rotating and rotating back shows every position where it was, so each rotation is a bijection.
  lemma RotationIsBijection(x: nat, y: nat, w: nat, h: nat, rotation: int)
    requires ValidRotation(rotation)
    ensures x < RotatedWidth(w, h, rotation) && y < RotatedHeight(w, h, rotation) ==>
              var s := MapOutputToSource(x, y, w, h, rotation);
              MapOutputToSource(s.0, s.1, RotatedWidth(w, h, rotation), RotatedHeight(w, h, rotation), Inverse(rotation)) == (x, y)
    ensures x < w && y < h ==>
              var o := MapOutputToSource(x, y, RotatedWidth(w, h, rotation), RotatedHeight(w, h, rotation), Inverse(rotation));
              MapOutputToSource(o.0, o.1, w, h, rotation) == (x, y)
  {
  }

  // Two rotations show what one rotation by their sum shows.
  lemma RotationsCompose(x: nat, y: nat, w: nat, h: nat, first: int, second: int)
    requires ValidRotation(first) && ValidRotation(second)
    requires var w1, h1 := RotatedWidth(w, h, first), RotatedHeight(w, h, first);
             x < RotatedWidth(w1, h1, second) && y < RotatedHeight(w1, h1, second)
    ensures var w1, h1 := RotatedWidth(w, h, first), RotatedHeight(w, h, first);
            var mid := MapOutputToSource(x, y, w1, h1, second);
            var sum := (first + second) % 360;
            && ValidRotation(sum)
            && x < RotatedWidth(w, h, sum) && y < RotatedHeight(w, h, sum)
            && MapOutputToSource(mid.0, mid.1, w, h, first) == MapOutputToSource(x, y, w, h, sum)
  {
    if first == 0 {
      assert (first + second) % 360 == second;
    } else if first == 90 {
      assert (first + second) % 360 == if second == 270 then 0 else second + 90;
    } else if first == 180 {
      assert (first + second) % 360 == if second < 180 then second + 180 else second - 180;
    } else {
      assert (first + second) % 360 == if second == 0 then 270 else second - 90;
    }
  }

  // The mirror acts on the source column, after the rotation was mapped back.
  function SourceOf(c: Config, w: nat, h: nat, x: nat, y: nat): (p: (nat, nat))
    requires x < RotatedWidth(w, h, c.rotation) && y < RotatedHeight(w, h, c.rotation)
    ensures p.0 < w && p.1 < h
  {
    var s := MapOutputToSource(x, y, w, h, c.rotation);
    if c.mirrored then (w - 1 - s.0, s.1) else s
  }

  // So mirroring flips the output left to right for 0 and 180 degrees, but top to bottom for 90 and 270.
  lemma MirrorFlipsSourceColumns(c: Config, w: nat, h: nat, x: nat, y: nat)
    requires c.mirrored && ValidRotation(c.rotation)
    requires x < RotatedWidth(w, h, c.rotation) && y < RotatedHeight(w, h, c.rotation)
    ensures var plain := c.(mirrored := false);
            SourceOf(c, w, h, x, y) ==
            if Swaps(c.rotation) then SourceOf(plain, w, h, x, RotatedHeight(w, h, c.rotation) - 1 - y)
            else SourceOf(plain, w, h, RotatedWidth(w, h, c.rotation) - 1 - x, y)
  {
  }

  // ---------------------------------------------------------------------------
  // Scaling
  // ---------------------------------------------------------------------------

  // The index computed by the resampling loop: a 32-bit product, a division and a clamp.
  function ScaledIndex(i: nat, n: nat, m: nat): (s: nat)
    requires n > 0 && m > 0
    ensures s < n
  {
    Min(n - 1, i * n % U32 / m)
  }

  // Floor scaling from n source positions to m output positions.
  function FloorScaled(i: nat, n: nat, m: nat): nat
    requires m > 0
  {
    i * n / m
  }

  lemma FloorScaledInRange(i: nat, n: nat, m: nat)
    requires i < m && n > 0
    ensures FloorScaled(i, n, m) < n
  {
    ProductGrows(i + 1, m, n);
    assert (i + 1) * n == i * n + n;
    assert m * n == n * m;
    QuotientAtMost(i * n, m, n - 1);
  }

  // The loop scales by floor exactly as long as the product fits 32 bits; then the clamp is idle
  // too. A wrapped product always picks a position before the right one.
  lemma ScaledIndexIsFloor(i: nat, n: nat, m: nat)
    requires i < m < U32 && n > 0
    ensures ScaledIndex(i, n, m) == FloorScaled(i, n, m) <==> i * n < U32
    ensures i * n >= U32 ==> ScaledIndex(i, n, m) < FloorScaled(i, n, m)
  {
    FloorScaledInRange(i, n, m);
    WrappedQuotient(i * n, n, m);
  }

  lemma WrappedQuotient(product: nat, n: nat, m: nat)
    requires 0 < m < U32 && product / m < n
    ensures Min(n - 1, product % U32 / m) == product / m <==> product < U32
    ensures product >= U32 ==> Min(n - 1, product % U32 / m) < product / m
  {
    if product < U32 {
      assert product % U32 == product;
    } else {
      var q, wrapped := product / m, product % U32;
      assert wrapped <= product - U32;
      QuotientBounds(product, m);
      QuotientAtLeast(product, m, 1);
      assert q * m == (q - 1) * m + m;
      QuotientAtMost(wrapped, m, q - 1);
    }
  }

  // Without a change of size floor scaling changes nothing.
  lemma FloorScaledSameSize(i: nat, n: nat)
    requires i < n
    ensures FloorScaled(i, n, n) == i
  {
    QuotientAtLeast(i * n, n, i);
    assert (i + 1) * n == i * n + n;
    QuotientAtMost(i * n, n, i);
  }

  lemma FloorScaledMonotone(i: nat, j: nat, n: nat, m: nat)
    requires i <= j && m > 0
    ensures FloorScaled(i, n, m) <= FloorScaled(j, n, m)
  {
    ProductGrows(i, j, n);
    QuotientBounds(i * n, m);
    QuotientAtLeast(j * n, m, FloorScaled(i, n, m));
  }

  // When the image shrinks no source position is used twice.
  lemma FloorScaledInjective(i: nat, j: nat, n: nat, m: nat)
    requires i < j && 0 < m <= n
    ensures FloorScaled(i, n, m) < FloorScaled(j, n, m)
  {
    ProductGrows(i + 1, j, n);
    assert (i + 1) * n == i * n + n;
    QuotientBounds(i * n, m);
    var q := FloorScaled(i, n, m);
    assert (q + 1) * m == q * m + m;
    QuotientAtLeast(j * n, m, q + 1);
  }

  // When it grows every source position is used.
  lemma FloorScaledOnto(s: nat, n: nat, m: nat) returns (i: nat)
    requires s < n <= m
    ensures i < m && FloorScaled(i, n, m) == s
  {
    var t := s * m + n - 1;
    i := t / n;
    QuotientBounds(t, n);
    ProductGrows(s + 1, n, m);
    assert (s + 1) * m == s * m + m;
    assert n * m == m * n;
    QuotientAtMost(t, n, m - 1);
    QuotientAtLeast(i * n, m, s);
    QuotientAtMost(i * n, m, s);
  }

  // ---------------------------------------------------------------------------
  // Images as byte buffers
  // ---------------------------------------------------------------------------

  // Three bytes per pixel, row by row.
  datatype RgbImage = RgbImage(width: nat, height: nat, rgb: seq<byte>)

  function Index(w: nat, x: nat, y: nat): nat {
    (y * w + x) * 3
  }

  predicate PixelIs(rgb: seq<byte>, w: nat, x: nat, y: nat, c: Rgb) {
    var i := Index(w, x, y);
    i + 3 <= |rgb| && rgb[i] == c.r && rgb[i + 1] == c.g && rgb[i + 2] == c.b
  }

  lemma IndexFits(w: nat, h: nat, x: nat, y: nat)
    requires x < w && y < h
    ensures Index(w, x, y) + 3 <= w * h * 3
  {
    ProductGrows(y + 1, h, w);
    assert (y + 1) * w == y * w + w;
    assert h * w == w * h;
  }

  lemma IndicesApart(w: nat, x: nat, y: nat, x': nat, y': nat)
    requires x < w && x' < w && (y' < y || (y' == y && x' < x))
    ensures Index(w, x', y') + 3 <= Index(w, x, y)
  {
    if y' < y {
      ProductGrows(y' + 1, y, w);
      assert (y' + 1) * w == y' * w + w;
    }
  }

  // The pixels before position (x0, y0), in row order, have the given colours.
  ghost predicate Painted(rgb: seq<byte>, w: nat, h: nat, colour: (nat, nat) -> Rgb, x0: nat, y0: nat) {
    && |rgb| == w * h * 3
    && forall x: nat, y: nat :: x < w && y < h && (y < y0 || (y == y0 && x < x0)) ==> PixelIs(rgb, w, x, y, colour(x, y))
  }

  method PutPixel(buf: array<byte>, w: nat, h: nat, ghost colour: (nat, nat) -> Rgb, x: nat, y: nat, c: Rgb)
    requires x < w && y < h && Painted(buf[..], w, h, colour, x, y) && c == colour(x, y)
    modifies buf
    ensures Painted(buf[..], w, h, colour, x + 1, y)
  {
    IndexFits(w, h, x, y);
    var i := (y * w + x) * 3;
    buf[i] := c.r;
    buf[i + 1] := c.g;
    buf[i + 2] := c.b;
    forall x': nat, y': nat | x' < w && y' < h && (y' < y || (y' == y && x' < x + 1))
      ensures PixelIs(buf[..], w, x', y', colour(x', y'))
    {
      if y' < y || x' < x {
        IndicesApart(w, x, y, x', y');
        assert PixelIs(old(buf[..]), w, x', y', colour(x', y'));
      }
    }
  }

  lemma RowPainted(rgb: seq<byte>, w: nat, h: nat, colour: (nat, nat) -> Rgb, y: nat)
    requires Painted(rgb, w, h, colour, w, y)
    ensures Painted(rgb, w, h, colour, 0, y + 1)
  {
  }

  // ---------------------------------------------------------------------------
  // The transform
  // ---------------------------------------------------------------------------

  // The colour of position (x, y) of the rotated image.
  function RotatedColour(img: RawImage, c: Config, palette: Palette, x: nat, y: nat): Rgb {
    if !Planar(img.format)
       && x < RotatedWidth(img.width, img.height, c.rotation) && y < RotatedHeight(img.width, img.height, c.rotation) then
      var s := SourceOf(c, img.width, img.height, x, y);
      Colour(c, img.format, PixelAt(img, s.0, s.1), palette)
    else Rgb(0, 0, 0)
  }

  function OutputWidth(img: RawImage, c: Config): nat {
    if c.width > 0 then c.width else RotatedWidth(img.width, img.height, c.rotation)
  }

  function OutputHeight(img: RawImage, c: Config): nat {
    if c.height > 0 then c.height else RotatedHeight(img.width, img.height, c.rotation)
  }

  function IndexFrom(i: nat, n: nat, m: nat, resampled: bool): nat {
    if resampled && n > 0 && m > 0 then ScaledIndex(i, n, m) else i
  }

  // The colour of position (x, y) of the output, as the code computes it.
  function OutputColour(img: RawImage, c: Config, palette: Palette, x: nat, y: nat): Rgb {
    var rw, rh := RotatedWidth(img.width, img.height, c.rotation), RotatedHeight(img.width, img.height, c.rotation);
    var resampled := !(OutputWidth(img, c) == rw && OutputHeight(img, c) == rh);
    RotatedColour(img, c, palette, IndexFrom(x, rw, OutputWidth(img, c), resampled), IndexFrom(y, rh, OutputHeight(img, c), resampled))
  }

  // The rotated image, the output, and a picture seen through nearest-neighbour scaling.
  function RotatedPicture(img: RawImage, c: Config, palette: Palette): (nat, nat) -> Rgb {
    (x: nat, y: nat) => RotatedColour(img, c, palette, x, y)
  }

  function OutputPicture(img: RawImage, c: Config, palette: Palette): (nat, nat) -> Rgb {
    (x: nat, y: nat) => OutputColour(img, c, palette, x, y)
  }

  function ScaledPicture(colour: (nat, nat) -> Rgb, sw: nat, sh: nat, dw: nat, dh: nat): (nat, nat) -> Rgb {
    (x: nat, y: nat) => colour(IndexFrom(x, sw, dw, true), IndexFrom(y, sh, dh, true))
  }

  predicate TakesFastPath(img: RawImage, c: Config) {
    && img.format.GRAY8? && (c.mode.Passthrough? || c.mode.Grey?)
    && c.rotation == 0 && !c.mirrored
    && (if c.width > 0 then c.width else img.width) == img.width
    && (if c.height > 0 then c.height else img.height) == img.height
  }

  // On the fast path's inputs the general path gives every pixel its sample.
  lemma GeneralPathOnGrey(img: RawImage, c: Config, palette: Palette, x: nat, y: nat)
    requires TakesFastPath(img, c) && Inside(img, x, y)
    ensures OutputColour(img, c, palette, x, y) == Grey3(PixelAt(img, x, y)[0])
  {
    hide Colour;
    GreyIsExact(c, PixelAt(img, x, y), palette);
  }

  // ---------------------------------------------------------------------------
  // The grey fast path
  // ---------------------------------------------------------------------------

  // The fast path computes the offset of a byte in its row, three per column, in 32 bits.
  lemma ColumnOffsetsFit(w: nat)
    ensures (forall n: nat :: n < w * 3 ==> n % U32 == n) <==> w * 3 <= U32
  {
    if w * 3 > U32 {
      assert U32 % U32 != U32;
    }
  }

  // Of the first `n` bytes written to a row, the last one that landed on offset `j`.
  function LastWriter(j: nat, n: nat): nat
    requires j < n
  {
    j + (n - 1 - j) / U32 * U32
  }

  // What offset `j` of row `y` holds after the first `n` bytes were written.
  function FastByte(img: RawImage, y: nat, n: nat, j: nat): byte
    requires img.format.GRAY8?
  {
    if j < n && j < U32 then PixelAt(img, LastWriter(j, n) / 3, y)[0] else 0
  }

  function FastRow(img: RawImage, y: nat, n: nat): (row: seq<byte>)
    requires img.format.GRAY8?
  {
    seq(img.width * 3, j requires 0 <= j < img.width * 3 => FastByte(img, y, n, j))
  }

  // The buffer after the first `y` rows.
  function FastRows(img: RawImage, y: nat): (rows: seq<byte>)
    requires img.format.GRAY8?
    ensures |rows| == y * (img.width * 3)
  {
    if y == 0 then []
    else
      assert y * (img.width * 3) == (y - 1) * (img.width * 3) + img.width * 3;
      FastRows(img, y - 1) + FastRow(img, y - 1, img.width * 3)
  }

  lemma {:induction false} FastRowsAt(img: RawImage, rows: nat, y: nat, j: nat)
    requires img.format.GRAY8? && y < rows && j < img.width * 3
    ensures y * (img.width * 3) + j < rows * (img.width * 3)
    ensures FastRows(img, rows)[y * (img.width * 3) + j] == FastByte(img, y, img.width * 3, j)
  {
    hide FastByte;
    assert rows * (img.width * 3) == (rows - 1) * (img.width * 3) + img.width * 3;
    if y == rows - 1 {
    } else {
      FastRowsAt(img, rows - 1, y, j);
    }
  }

  // A byte more moves the row on; it lands where the wrapped offset says.
  lemma FastRowTurn(img: RawImage, y: nat, n: nat)
    requires img.format.GRAY8? && n < img.width * 3
    ensures n % U32 < img.width * 3
    ensures FastRow(img, y, n + 1) == FastRow(img, y, n)[n % U32 := PixelAt(img, n / 3, y)[0]]
  {
    hide FastByte, PixelAt;
    var before, after := FastRow(img, y, n), FastRow(img, y, n + 1);
    assert n % U32 <= n;
    forall j | 0 <= j < img.width * 3
      ensures after[j] == before[n % U32 := PixelAt(img, n / 3, y)[0]][j]
    {
      FastByteTurn(img, y, n, j);
    }
  }

  lemma FastByteTurn(img: RawImage, y: nat, n: nat, j: nat)
    requires img.format.GRAY8?
    ensures FastByte(img, y, n + 1, j) == if j == n % U32 then PixelAt(img, n / 3, y)[0] else FastByte(img, y, n, j)
  {
    if j < n + 1 && j < U32 {
      var d := n - j;
      if j == n % U32 {
        assert LastWriter(j, n + 1) == n;
      } else {
        assert d % U32 != 0;
        assert (d - 1) / U32 == d / U32;
      }
    }
  }

  // One byte of a row, at its wrapped offset.
  method PutByte(buf: array<byte>, img: RawImage, y: nat, n: nat, v: byte)
    requires img.format.GRAY8? && y < img.height && n < img.width * 3 && v == PixelAt(img, n / 3, y)[0]
    requires buf.Length == img.height * (img.width * 3) && FastDone(buf[..], img, y, n)
    modifies buf
    ensures FastDone(buf[..], img, y, n + 1)
  {
    hide FastRow, FastRows;
    FastRowTurn(img, y, n);
    RowFitsBuffer(img, y);
    FastRowSize(img, y, n);
    FastRowSize(img, y, n + 1);
    buf[y * (img.width * 3) + n % U32] := v;
    UpdateInside(old(buf[..]), y * (img.width * 3), img.width * 3, n % U32, v);
  }

  lemma FastRowSize(img: RawImage, y: nat, n: nat)
    requires img.format.GRAY8?
    ensures |FastRow(img, y, n)| == img.width * 3
  {
  }

  lemma RowFitsBuffer(img: RawImage, y: nat)
    requires y < img.height
    ensures (y + 1) * (img.width * 3) == y * (img.width * 3) + img.width * 3 <= img.height * (img.width * 3)
  {
    ProductGrows(y + 1, img.height, img.width * 3);
  }

  lemma UpdateInside(s: seq<byte>, at: nat, size: nat, k: nat, v: byte)
    requires at + size <= |s| && k < size
    ensures var s' := s[at + k := v];
            s'[..at] == s[..at] && s'[at..at + size] == s[at..at + size][k := v] && s'[at + size..] == s[at + size..]
  {
  }

  // Rows before `y` are complete, row `y` has its first `n` bytes written, and later rows are still 0.
  ghost predicate FastDone(rgb: seq<byte>, img: RawImage, y: nat, n: nat)
    requires img.format.GRAY8? && y < img.height && |rgb| == img.height * (img.width * 3)
  {
    var at, size := y * (img.width * 3), img.width * 3;
    RowFitsBuffer(img, y);
    && rgb[..at] == FastRows(img, y)
    && rgb[at..at + size] == FastRow(img, y, n)
    && AllZero(rgb[at + size..])
  }

  predicate AllZero(s: seq<byte>) {
    forall i :: 0 <= i < |s| ==> s[i] == 0
  }

  // Rows before `y` are complete and the rest is still 0.
  ghost predicate FastRowsDone(rgb: seq<byte>, img: RawImage, y: nat)
    requires img.format.GRAY8? && y <= img.height && |rgb| == img.height * (img.width * 3)
  {
    ProductGrows(y, img.height, img.width * 3);
    rgb[..y * (img.width * 3)] == FastRows(img, y) && AllZero(rgb[y * (img.width * 3)..])
  }

  lemma FastRowBegins(rgb: seq<byte>, img: RawImage, y: nat)
    requires img.format.GRAY8? && y < img.height && |rgb| == img.height * (img.width * 3) && FastRowsDone(rgb, img, y)
    ensures FastDone(rgb, img, y, 0)
  {
    hide FastRows;
    RowFitsBuffer(img, y);
    var at, size := y * (img.width * 3), img.width * 3;
    assert forall j :: 0 <= j < size ==> rgb[at..at + size][j] == rgb[at..][j];
    assert forall j :: 0 <= j < size ==> FastRow(img, y, 0)[j] == 0;
    assert rgb[at + size..] == rgb[at..][size..];
  }

  lemma FastRowEnds(rgb: seq<byte>, img: RawImage, y: nat)
    requires img.format.GRAY8? && y < img.height && |rgb| == img.height * (img.width * 3) && FastDone(rgb, img, y, img.width * 3)
    ensures FastRowsDone(rgb, img, y + 1)
  {
    hide FastRow;
    RowFitsBuffer(img, y);
    var at, size := y * (img.width * 3), img.width * 3;
    assert rgb[..at + size] == rgb[..at] + rgb[at..at + size];
  }

  method ApplyFastGray8Passthrough(img: RawImage, c: Config) returns (out: Reading<RgbImage>)
    requires TakesFastPath(img, c) && img.width > 0 && img.height > 0
    ensures out.Done? <==> AllReadable(img)
    ensures !out.Refused?
    ensures out.Done? ==> out.value == RgbImage(img.width, img.height, FastRows(img, img.height))
  {
    hide Readable, FastRows, FastRow, FastDone, FastRowsDone;
    var w, h := img.width, img.height;
    var buf := new byte[h * (w * 3)](_ => 0);
    NothingCopied(buf[..], img);
    var y := 0;
    while y < h
      invariant y <= h && fresh(buf) && FastRowsDone(buf[..], img, y)
      invariant y > 0 ==> Readable(img, w - 1, y - 1)
    {
      FastRowBegins(buf[..], img, y);
      var x := 0;
      while x < w
        invariant x <= w && fresh(buf) && FastDone(buf[..], img, y, x * 3)
        invariant x > 0 ==> Readable(img, x - 1, y)
      {
        if !Readable(img, x, y) {
          assert Inside(img, x, y);
          return OutOfBounds;
        }
        var v := PixelAt(img, x, y)[0];
        PutByte(buf, img, y, x * 3, v);
        PutByte(buf, img, y, x * 3 + 1, v);
        PutByte(buf, img, y, x * 3 + 2, v);
        x := x + 1;
      }
      FastRowEnds(buf[..], img, y);
      y := y + 1;
    }
    LastPixelDecides(img);
    AllCopied(buf[..], img);
    out := Done(RgbImage(w, h, buf[..]));
  }

  lemma NothingCopied(rgb: seq<byte>, img: RawImage)
    requires img.format.GRAY8? && |rgb| == img.height * (img.width * 3) && AllZero(rgb)
    ensures FastRowsDone(rgb, img, 0)
  {
  }

  lemma AllCopied(rgb: seq<byte>, img: RawImage)
    requires img.format.GRAY8? && |rgb| == img.height * (img.width * 3) && FastRowsDone(rgb, img, img.height)
    ensures rgb == FastRows(img, img.height)
  {
  }

  // The offsets of the fast path's columns wrap.
  predicate FastPathWraps(img: RawImage, c: Config) {
    TakesFastPath(img, c) && img.width * 3 > U32
  }

  ghost predicate LastColumnIsBlack(img: RawImage)
    requires img.width > 0
  {
    forall y: nat :: y < img.height ==> LastSample(img, y) == 0
  }

  function LastSample(img: RawImage, y: nat): byte
    requires img.width > 0
  {
    PixelAt(img, img.width - 1, y)[0]
  }

  // Beyond 32 bits the last byte of a row is never written.
  lemma LastByteStaysZero(img: RawImage, y: nat)
    requires img.format.GRAY8? && img.width * 3 > U32 && y < img.height
    ensures Index(img.width, img.width - 1, y) + 2 < |FastRows(img, img.height)|
    ensures FastRows(img, img.height)[Index(img.width, img.width - 1, y) + 2] == 0
  {
    hide FastRows;
    var w := img.width;
    FastRowsAt(img, img.height, y, w * 3 - 1);
    assert Index(w, w - 1, y) + 2 == y * (w * 3) + (w * 3 - 1);
  }

  // Up to a width of 2^32 / 3 the fast path paints the picture of the general path. Beyond it the last
  // column keeps its initial 0, so it fails to whenever a sample there is not 0.
  lemma FastPathIsGeneralPath(img: RawImage, c: Config, palette: Palette)
    requires TakesFastPath(img, c) && img.width > 0 && img.height > 0
    ensures img.width * 3 <= U32 ==>
              Painted(FastRows(img, img.height), img.width, img.height, OutputPicture(img, c, palette), 0, img.height)
    ensures img.width * 3 > U32 && !LastColumnIsBlack(img) ==>
              !Painted(FastRows(img, img.height), img.width, img.height, OutputPicture(img, c, palette), 0, img.height)
  {
    hide OutputColour, FastRows;
    var rgb, w, h := FastRows(img, img.height), img.width, img.height;
    assert h * (w * 3) == w * h * 3;
    if w * 3 <= U32 {
      forall x: nat, y: nat | x < w && y < h
        ensures PixelIs(rgb, w, x, y, OutputPicture(img, c, palette)(x, y))
      {
        GeneralPathOnGrey(img, c, palette, x, y);
        FastPixel(img, x, y);
      }
    } else {
      if !LastColumnIsBlack(img) && Painted(rgb, w, h, OutputPicture(img, c, palette), 0, h) {
        var y: nat :| y < h && LastSample(img, y) != 0;
        GeneralPathOnGrey(img, c, palette, w - 1, y);
        LastByteStaysZero(img, y);
        PaintedPixel(rgb, w, h, OutputPicture(img, c, palette), w - 1, y);
      }
    }
  }

  // Without a wrap every byte of a row belongs to its own column.
  lemma FastByteInPlace(img: RawImage, y: nat, j: nat)
    requires img.format.GRAY8? && j < img.width * 3 <= U32
    ensures FastByte(img, y, img.width * 3, j) == PixelAt(img, j / 3, y)[0]
  {
    assert (img.width * 3 - 1 - j) / U32 == 0;
  }

  lemma FastSample(img: RawImage, x: nat, y: nat, k: nat)
    requires img.format.GRAY8? && img.width * 3 <= U32 && Inside(img, x, y) && k < 3
    ensures Index(img.width, x, y) + k < |FastRows(img, img.height)|
    ensures FastRows(img, img.height)[Index(img.width, x, y) + k] == PixelAt(img, x, y)[0]
  {
    hide FastRows, FastByte, PixelAt;
    var w, j := img.width, x * 3 + k;
    assert j / 3 == x;
    IndexIsRowOffset(w, x, y);
    FastRowsAt(img, img.height, y, j);
    FastByteInPlace(img, y, j);
  }

  lemma IndexIsRowOffset(w: nat, x: nat, y: nat)
    ensures Index(w, x, y) == y * (w * 3) + x * 3
  {
  }

  lemma FastPixel(img: RawImage, x: nat, y: nat)
    requires img.format.GRAY8? && img.width * 3 <= U32 && Inside(img, x, y)
    ensures PixelIs(FastRows(img, img.height), img.width, x, y, Grey3(PixelAt(img, x, y)[0]))
  {
    hide FastRows, PixelAt, Index;
    FastSample(img, x, y, 0);
    FastSample(img, x, y, 1);
    FastSample(img, x, y, 2);
  }

  method NewBuffer(w: nat, h: nat, ghost colour: (nat, nat) -> Rgb) returns (buf: array<byte>)
    ensures fresh(buf) && Painted(buf[..], w, h, colour, 0, 0)
  {
    buf := new byte[w * h * 3](_ => 0);
  }

  // The output position that shows the last source pixel.
  lemma LastSourcePixel(c: Config, w: nat, h: nat) returns (x: nat, y: nat)
    requires w > 0 && h > 0
    ensures x < RotatedWidth(w, h, c.rotation) && y < RotatedHeight(w, h, c.rotation)
    ensures SourceOf(c, w, h, x, y) == (w - 1, h - 1)
  {
    var sx := if c.mirrored then 0 else w - 1;
    if c.rotation == 90 {
      x, y := 0, sx;
    } else if c.rotation == 180 {
      x, y := w - 1 - sx, 0;
    } else if c.rotation == 270 {
      x, y := h - 1, w - 1 - sx;
    } else {
      x, y := sx, h - 1;
    }
  }

  method RenderRotated(img: RawImage, c: Config, palette: Palette) returns (inBounds: bool, rgb: seq<byte>)
    requires !Planar(img.format) && img.width > 0 && img.height > 0
    ensures inBounds <==> AllReadable(img)
    ensures inBounds ==>
              Painted(rgb, RotatedWidth(img.width, img.height, c.rotation), RotatedHeight(img.width, img.height, c.rotation),
                      RotatedPicture(img, c, palette), 0, RotatedHeight(img.width, img.height, c.rotation))
  {
    hide Colour, Painted, Readable;
    var w, h := RotatedWidth(img.width, img.height, c.rotation), RotatedHeight(img.width, img.height, c.rotation);
    ghost var colour := RotatedPicture(img, c, palette);
    ghost var lastX, lastY := LastSourcePixel(c, img.width, img.height);
    var buf := NewBuffer(w, h, colour);
    var y := 0;
    while y < h
      invariant y <= h && fresh(buf) && Painted(buf[..], w, h, colour, 0, y)
      invariant y > lastY ==> Readable(img, img.width - 1, img.height - 1)
    {
      var x := 0;
      while x < w
        invariant x <= w && fresh(buf) && Painted(buf[..], w, h, colour, x, y)
        invariant y > lastY || (y == lastY && x > lastX) ==> Readable(img, img.width - 1, img.height - 1)
      {
        var (srcX, srcY) := MapOutputToSource(x, y, img.width, img.height, c.rotation);
        if c.mirrored {
          srcX := img.width - 1 - srcX;
        }
        if !Readable(img, srcX, srcY) {
          assert Inside(img, srcX, srcY);
          return false, [];
        }
        PutPixel(buf, w, h, colour, x, y, Colour(c, img.format, PixelAt(img, srcX, srcY), palette));
        x := x + 1;
      }
      RowPainted(buf[..], w, h, colour, y);
      y := y + 1;
    }
    LastPixelDecides(img);
    inBounds, rgb := true, buf[..];
  }

  lemma PaintedPixel(rgb: seq<byte>, w: nat, h: nat, colour: (nat, nat) -> Rgb, x: nat, y: nat)
    requires Painted(rgb, w, h, colour, 0, h) && x < w && y < h
    ensures PixelIs(rgb, w, x, y, colour(x, y))
  {
  }

  lemma ScaledPictureAt(colour: (nat, nat) -> Rgb, sw: nat, sh: nat, dw: nat, dh: nat, x: nat, y: nat)
    requires sw > 0 && sh > 0 && dw > 0 && dh > 0
    ensures ScaledPicture(colour, sw, sh, dw, dh)(x, y) == colour(ScaledIndex(x, sw, dw), ScaledIndex(y, sh, dh))
  {
    hide ScaledIndex;
    assert IndexFrom(x, sw, dw, true) == ScaledIndex(x, sw, dw);
    assert IndexFrom(y, sh, dh, true) == ScaledIndex(y, sh, dh);
  }

  method ReadPixel(src: seq<byte>, w: nat, h: nat, ghost colour: (nat, nat) -> Rgb, x: nat, y: nat) returns (c: Rgb)
    requires x < w && y < h && Painted(src, w, h, colour, 0, h)
    ensures c == colour(x, y)
  {
    PaintedPixel(src, w, h, colour, x, y);
    var i := (y * w + x) * 3;
    c := Rgb(src[i], src[i + 1], src[i + 2]);
  }

  method Resample(src: seq<byte>, sw: nat, sh: nat, ghost colour: (nat, nat) -> Rgb, dw: nat, dh: nat) returns (dst: seq<byte>)
    requires sw > 0 && sh > 0 && Painted(src, sw, sh, colour, 0, sh)
    ensures Painted(dst, dw, dh, ScaledPicture(colour, sw, sh, dw, dh), 0, dh)
  {
    hide Painted, ScaledIndex, ScaledPicture;
    ghost var scaled := ScaledPicture(colour, sw, sh, dw, dh);
    var buf := NewBuffer(dw, dh, scaled);
    var y := 0;
    while y < dh
      invariant y <= dh && fresh(buf) && Painted(buf[..], dw, dh, scaled, 0, y)
    {
      var srcY := ScaledIndex(y, sh, dh);
      var x := 0;
      while x < dw
        invariant x <= dw && fresh(buf) && Painted(buf[..], dw, dh, scaled, x, y)
      {
        var srcX := ScaledIndex(x, sw, dw);
        ScaledPictureAt(colour, sw, sh, dw, dh, x, y);
        var c := ReadPixel(src, sw, sh, colour, srcX, srcY);
        PutPixel(buf, dw, dh, scaled, x, y, c);
        x := x + 1;
      }
      RowPainted(buf[..], dw, dh, scaled, y);
      y := y + 1;
    }
    dst := buf[..];
  }

  // Every pixel of the output has the specified colour.
  ghost predicate ShowsPicture(out: RgbImage, img: RawImage, c: Config, palette: Palette) {
    Painted(out.rgb, out.width, out.height, OutputPicture(img, c, palette), 0, out.height)
  }

  // What the transform of a readable image returns.
  ghost predicate Returns(img: RawImage, c: Config, palette: Palette, out: RgbImage) {
    && AllReadable(img)
    && out.width == OutputWidth(img, c) && out.height == OutputHeight(img, c)
    && (if FastPathWraps(img, c) then out.rgb == FastRows(img, img.height) else ShowsPicture(out, img, c, palette))
  }

  method ApplyDisplayTransform(img: RawImage, hasData: bool, c: Config, palette: Palette) returns (out: Reading<RgbImage>)
    ensures out.Refused? <==> !Transformable(Frame(hasData, img.width, img.height, img.stride, img.format, 0, 0), c.rotation)
    ensures out.OutOfBounds? ==> !AllReadable(img)
    ensures out.Done? ==> Returns(img, c, palette, out.value)
  {
    hide Painted, RotatedColour, ScaledIndex, AllReadable, FastRows;
    if !hasData || img.width == 0 || img.height == 0 {
      return Refused;
    }
    if !SupportsTransform(img.format) {
      return Refused;
    }
    var minRowBytes := MinRowBytes(img.format, img.width);
    if minRowBytes == 0 || img.stride < minRowBytes {
      return Refused;
    }
    if !(c.rotation == 0 || c.rotation == 90 || c.rotation == 180 || c.rotation == 270) {
      return Refused;
    }
    GrayscaleHasMax(img.format);
    if TakesFastPath(img, c) {
      out := ApplyFastGray8Passthrough(img, c);
      FastPathIsGeneralPath(img, c, palette);
      return;
    }
    var rw, rh := RotatedWidth(img.width, img.height, c.rotation), RotatedHeight(img.width, img.height, c.rotation);
    ghost var colour := RotatedPicture(img, c, palette);
    var inBounds, rotated := RenderRotated(img, c, palette);
    if !inBounds {
      return OutOfBounds;
    }
    var targetWidth := if c.width > 0 then c.width else rw;
    var targetHeight := if c.height > 0 then c.height else rh;
    if targetWidth == rw && targetHeight == rh {
      SamePaint(rotated, rw, rh, colour, OutputPicture(img, c, palette));
      return Done(RgbImage(rw, rh, rotated));
    }
    var scaled := Resample(rotated, rw, rh, colour, targetWidth, targetHeight);
    SamePaint(scaled, targetWidth, targetHeight,
              ScaledPicture(colour, rw, rh, targetWidth, targetHeight),
              OutputPicture(img, c, palette));
    return Done(RgbImage(targetWidth, targetHeight, scaled));
  }

  lemma SamePaint(rgb: seq<byte>, w: nat, h: nat, a: (nat, nat) -> Rgb, b: (nat, nat) -> Rgb)
    requires Painted(rgb, w, h, a, 0, h) && forall x: nat, y: nat :: x < w && y < h ==> a(x, y) == b(x, y)
    ensures Painted(rgb, w, h, b, 0, h)
  {
  }

  // Whether a coordinate of the output is scaled without a wrapped product.
  predicate ScalesExactly(i: nat, n: nat, img: RawImage, c: Config) {
    SameSize(img, c) || i * n < U32
  }

  predicate SameSize(img: RawImage, c: Config) {
    OutputWidth(img, c) == RotatedWidth(img.width, img.height, c.rotation)
    && OutputHeight(img, c) == RotatedHeight(img.width, img.height, c.rotation)
  }

  // The size of the output: as configured, and otherwise that of the frame, width and height exchanged at
  // 90 and 270 degrees.
  lemma OutputSizes(img: RawImage, c: Config)
    ensures c.width > 0 ==> OutputWidth(img, c) == c.width
    ensures c.height > 0 ==> OutputHeight(img, c) == c.height
    ensures c.width == 0 ==> OutputWidth(img, c) == if c.rotation == 90 || c.rotation == 270 then img.height else img.width
    ensures c.height == 0 ==> OutputHeight(img, c) == if c.rotation == 90 || c.rotation == 270 then img.width else img.height
  {
  }

  // Every source pixel is shown where its mirrored position lands, when the size is not changed.
  lemma SourcePixelIsShown(img: RawImage, c: Config, palette: Palette, sx: nat, sy: nat, x: nat, y: nat)
    requires !Planar(img.format) && ValidRotation(c.rotation) && SameSize(img, c) && Inside(img, sx, sy)
    requires LandsAt(if c.mirrored then img.width - 1 - sx else sx, sy, img.width, img.height, c.rotation, x, y)
    ensures x < OutputWidth(img, c) && y < OutputHeight(img, c)
    ensures OutputColour(img, c, palette, x, y) == Colour(c, img.format, PixelAt(img, sx, sy), palette)
  {
    hide Colour, ScaledIndex;
    SourceLands(if c.mirrored then img.width - 1 - sx else sx, sy, img.width, img.height, c.rotation, x, y);
  }

  // Every output pixel is the colour of one source pixel inside the image: scale, rotate back, then
  // mirror the source column. Each coordinate is scaled by floor exactly unless its product wraps.
  lemma TransformClosedForm(img: RawImage, c: Config, palette: Palette, x: nat, y: nat)
    requires !Planar(img.format) && img.width > 0 && img.height > 0
    requires x < OutputWidth(img, c) < U32 && y < OutputHeight(img, c) < U32
    ensures var rw, rh := RotatedWidth(img.width, img.height, c.rotation), RotatedHeight(img.width, img.height, c.rotation);
            var sx := IndexFrom(x, rw, OutputWidth(img, c), !SameSize(img, c));
            var sy := IndexFrom(y, rh, OutputHeight(img, c), !SameSize(img, c));
            && sx < rw && sy < rh
            && (sx == FloorScaled(x, rw, OutputWidth(img, c)) <==> ScalesExactly(x, rw, img, c))
            && (sy == FloorScaled(y, rh, OutputHeight(img, c)) <==> ScalesExactly(y, rh, img, c))
            && var s := SourceOf(c, img.width, img.height, sx, sy);
               && Inside(img, s.0, s.1) && OutputColour(img, c, palette, x, y) == Colour(c, img.format, PixelAt(img, s.0, s.1), palette)
               && (ValidRotation(c.rotation) ==>
                     LandsAt(if c.mirrored then img.width - 1 - s.0 else s.0, s.1, img.width, img.height, c.rotation, sx, sy))
  {
    hide Colour, FloorScaled, ScaledIndex;
    var rw, rh := RotatedWidth(img.width, img.height, c.rotation), RotatedHeight(img.width, img.height, c.rotation);
    if SameSize(img, c) {
      FloorScaledSameSize(x, rw);
      FloorScaledSameSize(y, rh);
    } else {
      ScaledIndexIsFloor(x, rw, OutputWidth(img, c));
      ScaledIndexIsFloor(y, rh, OutputHeight(img, c));
    }
  }
}
